/** The roll of AquaFs, down to the bytes of the metadata zones, against the mount of MetaRoll: whatever zones
    the power leaves behind, a mount finds the log as it was or the snapshot. */
module RollCrash {
  import opened Coding
  import opened FileCodec
  import opened FileTable
  import opened AquaFs
  import Zoned
  import MetaLog
  import MetaRoll

  // ---------------------------------------------------------------- what is in the zones

  /** A record on disk in bytes, the superblocks of the file system differing in the sequence number alone. */
  function EntryBytes(e: MetaRoll.Entry, head: seq<Byte>, tail: seq<Byte>): (s: seq<Byte>)
    ensures |s| < W32
  {
    Cut(match e case Super(q) => SuperBytes(head, tail, q) case Log(r) => EncodeRecord(r))
  }

  function ZoneBytes(z: MetaRoll.Zone, head: seq<Byte>, tail: seq<Byte>): (rs: seq<seq<Byte>>)
    ensures |rs| == |z| && MetaLog.Sized(rs)
  {
    seq(|z|, i requires 0 <= i < |z| => EntryBytes(z[i], head, tail))
  }

  /** A zone's data are these records, with sequence numbers of 32 bits. */
  predicate Shows(data: seq<Byte>, z: MetaRoll.Zone, head: seq<Byte>, tail: seq<Byte>, bs: nat) {
    && bs > 0 && (forall i :: 0 <= i < |z| && z[i].Super? ==> z[i].seqNo < W32)
    && data == MetaLog.Frames(ZoneBytes(z, head, tail), bs)
  }

  predicate AllShow(zs: seq<Zoned.Zone>, ms: seq<MetaRoll.Zone>, head: seq<Byte>, tail: seq<Byte>, bs: nat) {
    |zs| == |ms| && forall i :: 0 <= i < |zs| ==> Shows(zs[i].data, ms[i], head, tail, bs)
  }

  /** A superblock and a log. */
  function LogZone(q: nat, records: seq<Record>): (z: MetaRoll.Zone)
    ensures |z| == |records| + 1
  {
    [MetaRoll.Super(q)] + seq(|records|, i requires 0 <= i < |records| => MetaRoll.Log(records[i]))
  }

  /** The current log is in zone c, and a mount would find it there. */
  ghost predicate Mountable(zs: seq<Zoned.Zone>, c: nat, head: seq<Byte>, tail: seq<Byte>, q: nat, records: seq<Record>, bs: nat) {
    exists ms: seq<MetaRoll.Zone> :: AllShow(zs, ms, head, tail, bs) && CurrentIn(ms, c, q, records)
  }

  predicate CurrentIn(ms: seq<MetaRoll.Zone>, c: nat, q: nat, records: seq<Record>) {
    c < |ms| && ms[c] == LogZone(q, records) && MetaRoll.Kept(ms, c, q, records)
  }

  /** A mount settles on the zone of this sequence number and replays these records. */
  ghost predicate Recovers(zs: seq<Zoned.Zone>, head: seq<Byte>, tail: seq<Byte>, q: nat, records: seq<Record>, bs: nat) {
    exists ms: seq<MetaRoll.Zone> :: AllShow(zs, ms, head, tail, bs) && MetaRoll.MountRecovers(ms, q, records)
  }

  // ---------------------------------------------------------------- the bytes of one zone

  lemma ShowsNothing(head: seq<Byte>, tail: seq<Byte>, bs: nat)
    requires bs > 0
    ensures Shows([], [], head, tail, bs)
  {
  }

  lemma ShowsEnd(a: seq<Byte>, b: seq<Byte>, z: MetaRoll.Zone, head: seq<Byte>, tail: seq<Byte>, bs: nat)
    requires Shows(a, z, head, tail, bs) && Ended(a, b, bs)
    ensures Shows(b, if b == a then z else z + [MetaRoll.Log(End)], head, tail, bs)
  {
    ShowsMore(a, z, End, head, tail, bs);
  }

  /** One record more. */
  lemma ShowsMore(a: seq<Byte>, z: MetaRoll.Zone, r: Record, head: seq<Byte>, tail: seq<Byte>, bs: nat)
    requires Shows(a, z, head, tail, bs)
    ensures Shows(a + MetaLog.Frame(Cut(EncodeRecord(r)), bs), z + [MetaRoll.Log(r)], head, tail, bs)
  {
    hide MetaLog.Frame, MetaLog.Frames, EncodeRecord, SuperBytes, Cut;
    assert ZoneBytes(z + [MetaRoll.Log(r)], head, tail) == ZoneBytes(z, head, tail) + [Cut(EncodeRecord(r))];
    MetaLog.FramesSnoc(ZoneBytes(z, head, tail), Cut(EncodeRecord(r)), bs);
  }

  /** A log behind a superblock. */
  lemma ShowsLog(data: seq<Byte>, q: nat, records: seq<Record>, head: seq<Byte>, tail: seq<Byte>, bs: nat)
    requires bs > 0 && q < W32 && data == MetaLog.Frames(Encoded(SuperBytes(head, tail, q), records), bs)
    ensures Shows(data, LogZone(q, records), head, tail, bs)
  {
    hide MetaLog.Frames, EncodeRecord, SuperBytes, Cut;
    assert ZoneBytes(LogZone(q, records), head, tail) == Encoded(SuperBytes(head, tail, q), records);
  }

  // ---------------------------------------------------------------- the stages of a roll

  lemma ZoneEnded(ms: seq<MetaRoll.Zone>, c: nat, q: nat, records: seq<Record>)
    requires CurrentIn(ms, c, q, records)
    ensures MetaRoll.Kept(ms[c := ms[c] + [MetaRoll.Log(End)]], c, q, records)
  {
    var z := ms[c] + [MetaRoll.Log(End)];
    MetaRoll.LogOfAppend(ms[c], End);
    MetaRoll.EndReplays(MetaRoll.LogOf(ms[c]));
    hide MetaRoll.OthersStale, MetaRoll.Body, Replay;
    MetaRoll.StaleUpdate(ms, c, q, c, z);
  }

  /** Before the snapshot is written a mount finds the log as it was. */
  lemma OldStageMounts(a: seq<Zoned.Zone>, im: seq<Zoned.Zone>, c: nat, n: nat, head: seq<Byte>, tail: seq<Byte>, q: nat, records: seq<Record>, bs: nat)
    requires bs > 0 && q + 1 < W32 && Mountable(a, c, head, tail, q, records, bs)
    requires OldStage(a, im, c, n, SuperBytes(head, tail, q + 1), bs)
    ensures Recovers(im, head, tail, q, records, bs)
  {
    hide MetaRoll.Kept, MetaRoll.Stale, MetaRoll.MountRecovers, Shows, Ended, Encoded, MetaLog.Frames, SuperBytes, LogZone;
    var ms :| AllShow(a, ms, head, tail, bs) && CurrentIn(ms, c, q, records);
    var zc := if im[c].data == a[c].data then ms[c] else ms[c] + [MetaRoll.Log(End)];
    var zn := if im[n].data == [] then [] else LogZone(q + 1, []);
    ShowsEnd(a[c].data, im[c].data, ms[c], head, tail, bs);
    ShowsNothing(head, tail, bs);
    if im[n].data != [] { ShowsLog(im[n].data, q + 1, [], head, tail, bs); }
    ZoneEnded(ms, c, q, records);
    assert ms[c := ms[c]] == ms;
    Passed(zn, q);
    MetaRoll.KeptUpdate(ms[c := zc], c, q, records, n, zn);
    MetaRoll.KeptRecovers(ms[c := zc][n := zn], c, q, records);
    assert AllShow(im, ms[c := zc][n := zn], head, tail, bs);
  }

  /** An empty zone and a lone superblock are passed over. */
  lemma Passed(z: MetaRoll.Zone, q: nat)
    requires |z| <= 1
    ensures MetaRoll.Stale(z, q)
  {
    if |z| == 1 { MetaRoll.SuperAlone(z); }
  }

  /** Once it is written the new zone takes over. */
  lemma NewStageKept(a: seq<Zoned.Zone>, im: seq<Zoned.Zone>, c: nat, n: nat, head: seq<Byte>, tail: seq<Byte>, q: nat, records: seq<Record>, snap: Record, bs: nat)
    requires bs > 0 && q + 1 < W32 && snap.Snapshot? && Mountable(a, c, head, tail, q, records, bs)
    requires NewStage(a, im, c, n, SuperBytes(head, tail, q + 1), snap, bs)
    ensures Mountable(im, n, head, tail, q + 1, [snap], bs)
  {
    hide MetaRoll.Kept, MetaRoll.Stale, Shows, Ended, Encoded, MetaLog.Frames, SuperBytes, LogZone;
    var ms :| AllShow(a, ms, head, tail, bs) && CurrentIn(ms, c, q, records);
    var zc := if im[c].data == [] then [] else if im[c].data == a[c].data then ms[c] else ms[c] + [MetaRoll.Log(End)];
    var zn := LogZone(q + 1, [snap]);
    if im[c].data != [] { ShowsEnd(a[c].data, im[c].data, ms[c], head, tail, bs); }
    ShowsNothing(head, tail, bs);
    ShowsLog(im[n].data, q + 1, [snap], head, tail, bs);
    SnapshotTakesOver(ms, c, n, zc, q, records, snap);
    assert AllShow(im, ms[c := zc][n := zn], head, tail, bs);
    assert CurrentIn(ms[c := zc][n := zn], n, q + 1, [snap]);
  }

  lemma SnapshotTakesOver(ms: seq<MetaRoll.Zone>, c: nat, n: nat, zc: MetaRoll.Zone, q: nat, records: seq<Record>, snap: Record)
    requires CurrentIn(ms, c, q, records) && n < |ms| && c != n && snap.Snapshot?
    requires zc == [] || zc == ms[c] || zc == ms[c] + [MetaRoll.Log(End)]
    ensures MetaRoll.Kept(ms[c := zc][n := LogZone(q + 1, [snap])], n, q + 1, [snap])
  {
    var zn := LogZone(q + 1, [snap]);
    SnapshotAlone(snap);
    assert MetaRoll.LogOf(zn) == [snap];
    assert zc != [] ==> zc[0] == ms[c][0] == MetaRoll.Super(q);
    hide MetaRoll.Body, Replay;
    MetaRoll.StaleAll(ms, c, n, q, q + 1);
    MetaRoll.StaleUpdate(ms, n, q + 1, c, zc);
    MetaRoll.StaleUpdate(ms[c := zc], n, q + 1, n, zn);
  }

  lemma SnapshotAlone(snap: Record)
    requires snap.Snapshot?
    ensures Replay([snap]).Recovered? && MetaRoll.Body([snap]) == [snap]
  {
    assert [snap][1..] == [];
    assert Replay([snap]) == ReplayFrom(ReplayRecord(EMPTY, snap).value, [], true);
  }

  lemma MountableRecovers(zs: seq<Zoned.Zone>, c: nat, head: seq<Byte>, tail: seq<Byte>, q: nat, records: seq<Record>, bs: nat)
    requires Mountable(zs, c, head, tail, q, records, bs)
    ensures Recovers(zs, head, tail, q, records, bs)
  {
    hide MetaRoll.Kept, MetaRoll.MountRecovers, AllShow, LogZone;
    var ms :| AllShow(zs, ms, head, tail, bs) && CurrentIn(ms, c, q, records);
    MetaRoll.KeptRecovers(ms, c, q, records);
  }

  // ---------------------------------------------------------------- whole rolls

  /** A roll that fails: after each of its device writes, and after it, a mount finds the log as it was. */
  lemma FailedRollMounts(a: seq<Zoned.Zone>, ims: seq<seq<Zoned.Zone>>, from: nat, now: seq<Zoned.Zone>, c: nat, n: nat,
    head: seq<Byte>, tail: seq<Byte>, q: nat, records: seq<Record>, bs: nat)
    requires bs > 0 && q + 1 < W32 && Mountable(a, c, head, tail, q, records, bs)
    requires AllOld(a, ims, from, now, c, n, SuperBytes(head, tail, q + 1), bs)
    ensures Recovers(now, head, tail, q, records, bs)
    ensures forall k :: from <= k < |ims| ==> Recovers(ims[k], head, tail, q, records, bs)
  {
    hide Mountable, OldStage, Recovers, SuperBytes;
    OldStageMounts(a, now, c, n, head, tail, q, records, bs);
    forall k | from <= k < |ims| ensures Recovers(ims[k], head, tail, q, records, bs) {
      OldStageMounts(a, ims[k], c, n, head, tail, q, records, bs);
    }
  }

  /** A roll that succeeds: after each of its device writes a mount finds the log as it was or the snapshot, and
      after it the snapshot is the log. */
  lemma RollMounts(a: seq<Zoned.Zone>, ims: seq<seq<Zoned.Zone>>, from: nat, now: seq<Zoned.Zone>, c: nat, n: nat,
    head: seq<Byte>, tail: seq<Byte>, q: nat, records: seq<Record>, snap: Record, bs: nat)
    requires bs > 0 && q + 1 < W32 && snap.Snapshot? && Mountable(a, c, head, tail, q, records, bs)
    requires AllRolled(a, ims, from, now, c, n, SuperBytes(head, tail, q + 1), snap, bs)
    ensures Mountable(now, n, head, tail, q + 1, [snap], bs)
    ensures forall k :: from <= k < |ims| ==>
      Recovers(ims[k], head, tail, q, records, bs) || Recovers(ims[k], head, tail, q + 1, [snap], bs)
  {
    hide Mountable, OldStage, NewStage, Recovers, SuperBytes;
    NewStageKept(a, now, c, n, head, tail, q, records, snap, bs);
    forall k | from <= k < |ims|
      ensures Recovers(ims[k], head, tail, q, records, bs) || Recovers(ims[k], head, tail, q + 1, [snap], bs)
    {
      if OldStage(a, ims[k], c, n, SuperBytes(head, tail, q + 1), bs) {
        OldStageMounts(a, ims[k], c, n, head, tail, q, records, bs);
      } else {
        NewStageKept(a, ims[k], c, n, head, tail, q, records, snap, bs);
        MountableRecovers(ims[k], n, head, tail, q + 1, [snap], bs);
      }
    }
  }

  /** Between rolls a record that can be replayed joins the log. */
  lemma AppendMounts(a: seq<Zoned.Zone>, b: seq<Zoned.Zone>, c: nat, head: seq<Byte>, tail: seq<Byte>, q: nat, records: seq<Record>, r: Record, bs: nat)
    requires Mountable(a, c, head, tail, q, records, bs) && OnlyAt(a, b, c) && !r.End? && Replay(records + [r]).Recovered?
    requires bs > 0 && q < W32 && LogHolds(b[c], SuperBytes(head, tail, q), records + [r], bs)
    ensures Mountable(b, c, head, tail, q, records + [r], bs)
  {
    hide MetaRoll.Kept, Replay, Shows, MetaLog.Frames, Encoded, EncodeRecord, SuperBytes, LogZone;
    var ms :| AllShow(a, ms, head, tail, bs) && CurrentIn(ms, c, q, records);
    var z := LogZone(q, records + [r]);
    LogGrows(ms, c, q, records, r);
    ShowsLog(b[c].data, q, records + [r], head, tail, bs);
    assert AllShow(b, ms[c := z], head, tail, bs);
    assert CurrentIn(ms[c := z], c, q, records + [r]);
  }

  lemma LogGrows(ms: seq<MetaRoll.Zone>, c: nat, q: nat, records: seq<Record>, r: Record)
    requires CurrentIn(ms, c, q, records) && !r.End? && Replay(records + [r]).Recovered?
    ensures MetaRoll.Kept(ms[c := LogZone(q, records + [r])], c, q, records + [r])
  {
    var z := LogZone(q, records + [r]);
    assert MetaRoll.LogOf(ms[c]) == records;
    assert MetaRoll.LogOf(z) == records + [r];
    MetaRoll.BodyReplays(EMPTY, records, false);
    MetaRoll.BodyReplays(EMPTY, records + [r], false);
    hide MetaRoll.Body, MetaRoll.OthersStale, Replay;
    MetaRoll.StaleUpdate(ms, c, q, c, z);
  }

  /** MkFS leaves such zones. */
  lemma FormattedMounts(zs: seq<Zoned.Zone>, head: seq<Byte>, tail: seq<Byte>, bs: nat)
    requires bs > 0 && zs != [] && LogHolds(zs[0], SuperBytes(head, tail, 1), [Record.Snapshot([])], bs)
    requires forall i :: 1 <= i < |zs| ==> zs[i].data == []
    ensures Mountable(zs, 0, head, tail, 1, [Record.Snapshot([])], bs)
  {
    var ms := MetaRoll.Formatted(|zs|);
    MetaRoll.FormattedInv(|zs|);
    assert LogZone(1, [Record.Snapshot([])]) == ms[0];
    hide MetaRoll.Kept, Shows, MetaLog.Frames, Encoded, SuperBytes, LogZone, MetaRoll.Formatted;
    ShowsLog(zs[0].data, 1, [Record.Snapshot([])], head, tail, bs);
    ShowsNothing(head, tail, bs);
    assert CurrentIn(ms, 0, 1, [Record.Snapshot([])]);
  }

  /** Reading such a zone from its start gives these records and no others. */
  lemma ShownReads(z: Zoned.Zone, m: MetaRoll.Zone, head: seq<Byte>, tail: seq<Byte>, bs: nat)
    requires Shows(z.data, m, head, tail, bs) && z.wp == z.start + |z.data| && MetaLog.AllReadable(ZoneBytes(m, head, tail))
    ensures MetaLog.ReadAll(z, z.start, bs) == MetaLog.Contents(ZoneBytes(m, head, tail))
  {
    hide EntryBytes, MetaLog.Frames;
    assert z.data[0..] == z.data;
    MetaLog.ReadBack(z, z.start, ZoneBytes(m, head, tail), bs);
  }
}
