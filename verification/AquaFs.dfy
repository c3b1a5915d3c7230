/** AquaFS as an object (AquaZFS/fs/fs_aquafs.h and fs_aquafs.cc): the name table, the file objects, and the
    metadata log down to the bytes in its zone. Every method is proved to do what its counterpart in
    FileOps says, and the zone to hold the records that FileOps keeps as a list. */
module AquaFs {
  import opened Coding
  import opened FileCodec
  import opened FileTable
  import opened FileOps
  import opened FileRuns
  import opened FileFields
  import Zoned
  import ZonedDevice
  import MetaLog

  /** Record lengths are 32 bits. */
  function Cut(s: seq<Byte>): (r: seq<Byte>)
    ensures |r| < W32 && (|s| < W32 ==> r == s)
  {
    s[..|s| % W32]
  }

  /** The log behind a superblock, record by record. */
  function Encoded(super: seq<Byte>, records: seq<Record>): (rs: seq<seq<Byte>>)
    ensures |rs| == |records| + 1 && MetaLog.Sized(rs)
  {
    seq(|records| + 1, i requires 0 <= i < |records| + 1 => Cut(if i == 0 then super else EncodeRecord(records[i - 1])))
  }

  /** The zone holds exactly this log. */
  predicate LogHolds(z: Zoned.Zone, super: seq<Byte>, records: seq<Record>, bs: nat) {
    bs > 0 && z.wp == z.start + |z.data| && z.data == MetaLog.Frames(Encoded(super, records), bs)
  }

  lemma EncodedSnoc(super: seq<Byte>, records: seq<Record>, r: Record)
    ensures Encoded(super, records + [r]) == Encoded(super, records) + [Cut(EncodeRecord(r))]
  {
  }

  /** AddRecord keeps the log. */
  lemma LogAppend(z: Zoned.Zone, z': Zoned.Zone, super: seq<Byte>, records: seq<Record>, r: Record, bs: nat)
    requires LogHolds(z, super, records, bs)
    requires var frame := MetaLog.Frame(Cut(EncodeRecord(r)), bs); |frame| <= z.capacity && z' == Zoned.Appended(z, frame)
    ensures LogHolds(z', super, records + [r], bs)
  {
    hide EncodeRecord, MetaLog.Frames, MetaLog.Frame, Cut;
    EncodedSnoc(super, records, r);
    MetaLog.FramesSnoc(Encoded(super, records), Cut(EncodeRecord(r)), bs);
  }

  /** A superblock: what does not change, with the sequence number in between. */
  function SuperBytes(head: seq<Byte>, tail: seq<Byte>, q: nat): (s: seq<Byte>)
    ensures |s| == |head| + 4 + |tail|
  {
    head + PutFixed32(q % W32) + tail
  }

  // ---------------------------------------------------------------- the meta zones during a roll

  /** An end record may have been added. */
  predicate Ended(a: seq<Byte>, b: seq<Byte>, bs: nat)
    requires bs > 0
  {
    b == a || b == a + MetaLog.Frame(Cut(EncodeRecord(End)), bs)
  }

  predicate EndedAt(a: seq<Zoned.Zone>, b: seq<Zoned.Zone>, c: nat, bs: nat)
    requires bs > 0
  {
    && c < |a| == |b| && (forall i :: 0 <= i < |a| && i != c ==> b[i].data == a[i].data)
    && Ended(a[c].data, b[c].data, bs)
  }

  /** The old zone as a roll leaves it behind: an end record, if there is room for it, and no capacity. */
  predicate LeftFull(a: Zoned.Zone, b: Zoned.Zone, bs: nat)
    requires bs > 0
  {
    var frame := MetaLog.Frame(Cut(EncodeRecord(End)), bs);
    Zoned.IsFull(b) && b.data == a.data + if |frame| <= a.capacity then frame else []
  }

  lemma LeftFreed(a: Zoned.Zone, b: Zoned.Zone, d: Zoned.Zone, bs: nat)
    requires bs > 0 && LeftFull(a, b, bs) && d == b.(busy := false)
    ensures LeftFull(a, d, bs)
  {
  }

  predicate WipedAt(a: seq<Zoned.Zone>, b: seq<Zoned.Zone>, c: nat) {
    c < |a| == |b| && (forall i :: 0 <= i < |a| && i != c ==> b[i].data == a[i].data) && b[c].data == []
  }

  /** Only zones c and n hold anything else. */
  predicate OnlyTwo(a: seq<Zoned.Zone>, b: seq<Zoned.Zone>, c: nat, n: nat) {
    c < |a| == |b| && n < |a| && c != n && forall i :: 0 <= i < |a| && i != c && i != n ==> b[i].data == a[i].data
  }

  /** Zone c has the log it had, zone n nothing or a lone superblock. */
  predicate OldStage(a: seq<Zoned.Zone>, b: seq<Zoned.Zone>, c: nat, n: nat, super: seq<Byte>, bs: nat)
    requires bs > 0
  {
    OnlyTwo(a, b, c, n) && Ended(a[c].data, b[c].data, bs) && (b[n].data == [] || b[n].data == MetaLog.Frames(Encoded(super, []), bs))
  }

  /** Zone n has a superblock and a snapshot, zone c the log it had or nothing. */
  predicate NewStage(a: seq<Zoned.Zone>, b: seq<Zoned.Zone>, c: nat, n: nat, super: seq<Byte>, snap: Record, bs: nat)
    requires bs > 0
  {
    && OnlyTwo(a, b, c, n) && (Ended(a[c].data, b[c].data, bs) || b[c].data == [])
    && b[n].data == MetaLog.Frames(Encoded(super, [snap]), bs)
  }

  predicate RollStage(a: seq<Zoned.Zone>, b: seq<Zoned.Zone>, c: nat, n: nat, super: seq<Byte>, snap: Record, bs: nat)
    requires bs > 0
  {
    OldStage(a, b, c, n, super, bs) || NewStage(a, b, c, n, super, snap, bs)
  }

  /** The zones now, and every image from this one on, are of the old stage. */
  predicate AllOld(a: seq<Zoned.Zone>, ims: seq<seq<Zoned.Zone>>, from: nat, now: seq<Zoned.Zone>, c: nat, n: nat, super: seq<Byte>, bs: nat)
    requires bs > 0
  {
    OldStage(a, now, c, n, super, bs) && forall k :: from <= k < |ims| ==> OldStage(a, ims[k], c, n, super, bs)
  }

  /** The zones are of the new stage now, with the old zone wiped, and every image is of one of the two. */
  predicate AllRolled(a: seq<Zoned.Zone>, ims: seq<seq<Zoned.Zone>>, from: nat, now: seq<Zoned.Zone>, c: nat, n: nat, super: seq<Byte>, snap: Record, bs: nat)
    requires bs > 0
  {
    && NewStage(a, now, c, n, super, snap, bs) && now[c].data == []
    && forall k :: from <= k < |ims| ==> RollStage(a, ims[k], c, n, super, snap, bs)
  }

  /** The snapshot that a roll writes, the table being walked in this order. */
  ghost function SnapshotRecord(s: State, order: seq<Name>): Record {
    if HandlesValid(MemTable(s)) && Walks(order, MemTable(s)) then Record.Snapshot(SnapshotFiles(MemTable(s), order)) else End
  }

  lemma SnapshotIs(s: State, order: seq<Name>, fs: seq<FileMeta>)
    requires HandlesValid(MemTable(s)) && Walks(order, MemTable(s)) && fs == SnapshotFiles(MemTable(s), order)
    ensures [] + [Record.Snapshot(fs)] == [SnapshotRecord(s, order)]
  {
  }

  /** The fresh zone is empty, and an end record may then come to the old one. */
  lemma StagesEnded(a: seq<Zoned.Zone>, b: seq<Zoned.Zone>, ims: seq<seq<Zoned.Zone>>, from: nat, now: seq<Zoned.Zone>, c: nat, n: nat, super: seq<Byte>, bs: nat)
    requires bs > 0 && c < |a| && n < |a| && c != n && |b| == |a| && b == a[n := b[n]] && b[n].data == [] && from < |ims| && ims[from] == b
    requires EndedAt(b, now, c, bs) && forall k :: from < k < |ims| ==> EndedAt(b, ims[k], c, bs)
    ensures AllOld(a, ims, from, now, c, n, super, bs) && now[n].data == []
  {
    hide MetaLog.Frame, MetaLog.Frames, Encoded;
  }

  lemma StageSuper(a: seq<Zoned.Zone>, ims: seq<seq<Zoned.Zone>>, from: nat, b: seq<Zoned.Zone>, d: seq<Zoned.Zone>, c: nat, n: nat, super: seq<Byte>, bs: nat)
    requires bs > 0 && AllOld(a, ims, from, b, c, n, super, bs) && |d| == |b| && d == b[n := d[n]] && LogHolds(d[n], super, [], bs)
    ensures AllOld(a, ims + [d], from, d, c, n, super, bs)
  {
    hide Ended;
  }

  /** Who holds a zone does not matter. */
  lemma StageFreed(a: seq<Zoned.Zone>, ims: seq<seq<Zoned.Zone>>, from: nat, b: seq<Zoned.Zone>, d: seq<Zoned.Zone>, c: nat, n: nat, super: seq<Byte>, bs: nat)
    requires bs > 0 && AllOld(a, ims, from, b, c, n, super, bs) && |d| == |b| && forall i :: 0 <= i < |b| ==> d[i].data == b[i].data
    ensures AllOld(a, ims, from, d, c, n, super, bs)
  {
    hide Ended;
  }

  /** The snapshot is written, and then the old zone is wiped. */
  lemma StageRetired(a: seq<Zoned.Zone>, ims: seq<seq<Zoned.Zone>>, from: nat, b: seq<Zoned.Zone>, d: seq<Zoned.Zone>, wiped: seq<Zoned.Zone>, e: seq<Zoned.Zone>,
    c: nat, n: nat, super: seq<Byte>, snap: Record, bs: nat)
    requires bs > 0 && AllOld(a, ims, from, b, c, n, super, bs) && OnlyAt(b, d, n)
    requires d[n].data == MetaLog.Frames(Encoded(super, [snap]), bs) && WipedAt(d, wiped, c) && WipedAt(d, e, c)
    ensures AllRolled(a, ims + [d] + [wiped], from, e, c, n, super, snap, bs)
  {
    hide Ended, Encoded, MetaLog.Frames;
    assert NewStage(a, d, c, n, super, snap, bs);
    assert NewStage(a, wiped, c, n, super, snap, bs);
  }

  /** A zone with a superblock. */
  lemma SuperOnly(z: Zoned.Zone, z': Zoned.Zone, super: seq<Byte>, bs: nat)
    requires bs > 0 && z.data == [] && z.wp == z.start
    requires var f := MetaLog.Frame(super[..|super| % W32], bs); |f| <= z.capacity && z' == Zoned.Appended(z, f)
    ensures LogHolds(z', super, [], bs)
  {
    hide MetaLog.Frame;
    var f := MetaLog.Frame(Cut(super), bs);
    assert Encoded(super, []) == [Cut(super)];
    assert MetaLog.Frames([Cut(super)], bs) == f + MetaLog.Frames([], bs) by { assert [Cut(super)][1..] == []; }
    assert [] + f == f && f + [] == f;
  }

  class AquaFS {
    const meta: ZonedDevice.Device
    /** The superblock but for its sequence number. */
    const head: seq<Byte>
    const tail: seq<Byte>
    var seqNo: nat
    var files: map<Name, Handle>
    var objs: seq<FileState>
    var nextId: nat
    var log: MetaLog.AquaMetaLog
    /** The records of the current zone, and what they say of every object. */
    ghost var records: seq<Record>
    ghost var saved: seq<FileMeta>
    /** A roll found no room for the superblock or the snapshot in the zone it had already switched to. */
    ghost var broken: bool
    /** The meta zones after each device write to them. */
    ghost var images: seq<seq<Zoned.Zone>>

    /** The superblock with its sequence number. */
    function Super(q: nat): (s: seq<Byte>)
      ensures |s| == |head| + 4 + |tail|
    {
      SuperBytes(head, tail, q)
    }

    ghost function State(): State
      reads this
    {
      FileOps.State(files, objs, nextId, records, saved)
    }

    ghost predicate LogOk()
      reads this`records, this`log, this`seqNo, meta, log
    {
      && MetaOk() && log.dev == meta && log.Valid() && LogHolds(meta.zones[log.zone], Super(seqNo), records, meta.bs)
    }

    /** The log is whole. Nothing is claimed of what is done to it after it has broken. */
    ghost predicate Valid()
      reads this`records, this`log, this`seqNo, this`broken, meta, log
    {
      !broken && LogOk()
    }

    /** What a mount leaves: the table it has recovered, over the log it has recovered it from. */
    constructor (meta: ZonedDevice.Device, head: seq<Byte>, tail: seq<Byte>, seqNo: nat, log: MetaLog.AquaMetaLog, s: State)
      requires meta.Valid() && |meta.zones| <= meta.active && (forall i :: 0 <= i < |meta.zones| ==> meta.zones[i].used == 0)
      requires log.dev == meta && log.Valid() && LogHolds(meta.zones[log.zone], SuperBytes(head, tail, seqNo), s.log, meta.bs) && Sane(s)
      ensures Valid() && !broken && State() == s && this.meta == meta && this.head == head && this.tail == tail && this.seqNo == seqNo
    {
      this.meta, this.head, this.tail, this.seqNo, this.log := meta, head, tail, seqNo, log;
      files, objs, nextId, records, saved, broken := s.files, s.objs, s.nextId, s.log, s.saved, false;
      images := [];
    }

    /** Writes one record at the end of the current zone, if it fits. */
    method AddRecord(r: Record) returns (ok: bool)
      requires LogOk()
      modifies this`records, this`images, meta`zones
      ensures LogOk() && records == if ok then old(records) + [r] else old(records)
      ensures ok == old(Room(r)) && (!ok ==> meta.zones == old(meta.zones))
      ensures OnlyAt(old(meta.zones), meta.zones, log.zone)
      ensures images == if ok then old(images) + [meta.zones] else old(images)
    {
      hide Zoned.ZonesOk, ZonedDevice.ActiveZones, MetaLog.Frame, EncodeRecord, LogHolds;
      ghost var z := meta.zones[log.zone];
      var st := log.AddRecord(EncodeRecord(r));
      ok := st == MetaLog.Ok;
      if ok {
        LogAppend(z, meta.zones[log.zone], Super(seqNo), records, r, meta.bs);
        records := records + [r];
        images := images + [meta.zones];
      }
    }

    /** The names of the table, each once, in some order. */
    method NamesInOrder() returns (order: seq<Name>)
      ensures Lists(order, MemTable(State()))
    {
      order := [];
      var todo := files.Keys;
      while todo != {}
        invariant todo <= files.Keys
        invariant forall n :: n in order <==> n in files && n !in todo
        invariant FileTable.Distinct(order)
        decreases |todo|
      {
        var n :| n in todo;
        assert n !in order;
        order := order + [n];
        todo := todo - {n};
      }
    }

    /** EncodeSnapshotTo, up to the encoding: the file under each name in turn. */
    method Snapshot(order: seq<Name>) returns (fs: seq<FileMeta>)
      requires HandlesValid(MemTable(State())) && Walks(order, MemTable(State()))
      ensures fs == SnapshotFiles(MemTable(State()), order)
    {
      fs := [];
      var i := 0;
      while i < |order|
        invariant 0 <= i <= |order|
        invariant fs + SnapshotFiles(MemTable(State()), order[i..]) == SnapshotFiles(MemTable(State()), order)
      {
        var n := order[i];
        assert n in order;
        SnapshotHead(MemTable(State()), order, i);
        fs := fs + [objs[files[n]].meta];
        i := i + 1;
      }
    }

    /** MetadataSynced for the file under each name. */
    method MarkSynced(order: seq<Name>)
      requires HandlesValid(MemTable(State())) && Walks(order, MemTable(State()))
      modifies this`objs
      ensures |objs| == |old(objs)|
      ensures forall h :: 0 <= h < |objs| ==>
        objs[h] == if HasName(old(State()), h) then old(objs)[h].(synced := |old(objs)[h].meta.extents|) else old(objs)[h]
    {
      var i := 0;
      while i < |order|
        invariant 0 <= i <= |order| && |objs| == |old(objs)|
        invariant forall h :: 0 <= h < |objs| ==>
          objs[h] == if AmongFirst(order, i, files, h) then old(objs)[h].(synced := |old(objs)[h].meta.extents|) else old(objs)[h]
      {
        var n := order[i];
        assert n in order;
        var h := files[n];
        assert h < |Metas(old(objs))|;
        objs := objs[h := objs[h].(synced := |objs[h].meta.extents|)];
        i := i + 1;
      }
      forall h | 0 <= h < |objs| ensures AmongFirst(order, |order|, files, h) <==> HasName(old(State()), h) {
        if HasName(old(State()), h) {
          var n :| n in files && files[n] == h;
          assert n in order;
          var j :| 0 <= j < |order| && order[j] == n;
        }
        if AmongFirst(order, |order|, files, h) {
          var j :| 0 <= j < |order| && order[j] in files && files[order[j]] == h;
          assert order[j] in files;
        }
      }
    }

    /** What a roll does to the zone it leaves: an end record if there is room, and then it is finished. */
    method EndOldLog(old_log: MetaLog.AquaMetaLog)
      requires MetaOk() && old_log.dev == meta && old_log.Valid()
      requires !Zoned.IsEmpty(meta.zones[old_log.zone])
      modifies this`images, meta`zones
      ensures MetaOk() && old_log.Valid() && OnlyAt(old(meta.zones), meta.zones, old_log.zone)
      ensures EndedAt(old(meta.zones), meta.zones, old_log.zone, meta.bs)
      ensures LeftFull(old(meta.zones)[old_log.zone], meta.zones[old_log.zone], meta.bs)
      ensures old(images) <= images
      ensures forall k :: |old(images)| <= k < |images| ==> EndedAt(old(meta.zones), images[k], old_log.zone, meta.bs)
    {
      hide Zoned.ZonesOk, Zoned.ZoneOk, ZonedDevice.ActiveZones, MetaLog.Frame, EncodeRecord;
      ghost var zs, i := meta.zones, old_log.zone;
      WpAhead(zs, i, meta.bs, meta.zoneSize);
      if meta.zones[old_log.zone].capacity > 0 {
        var _ := old_log.AddRecord(EncodeRecord(End));
        images := images + [meta.zones];
      }
      if meta.zones[old_log.zone].capacity > 0 {
        Zoned.FinishKeepsOk(meta.zones, i, meta.bs, meta.zoneSize);
        meta.Finish(old_log.zone);
        ZonedDevice.ActiveZonesBound(meta.zones);
        images := images + [meta.zones];
      }
    }

    /** RollMetaZoneLocked: a snapshot of the table at the head of a fresh zone, and the old zone goes. If it
        fails, either no zone was free and all is as before, or the log has moved to a zone without a
        snapshot, which is what `broken` means; the old zone is then given back with its records, full. Every
        device write on the way leaves the old log in place beside at most a lone superblock, or the
        snapshot in the new zone. */
    method RollMetaZoneLocked() returns (ok: bool, order: seq<Name>)
      requires LogOk() && !broken && HandlesValid(MemTable(State())) && |saved| == |objs|
      modifies this`log, this`objs, this`records, this`saved, this`broken, this`seqNo, this`images, meta`zones
      ensures broken ==> !ok
      ensures broken <==> old(RollBreaks())
      ensures !ok ==> NoLogRoom()
      ensures !broken ==> LogOk()
      ensures log == old(log) || fresh(log)
      ensures !ok ==> State() == old(State())
      ensures ok ==> Persists(old(State()), Rolled(order)) && State() == Roll(old(State()), order)
      ensures SameSizes(old(meta.zones), meta.zones)
      ensures old(images) <= images
      ensures var a, c, n, super := old(meta.zones), old(log).zone, FirstFree(old(meta.zones)), Super(old(seqNo) + 1);
        if n == |a| then images == old(images) && meta.zones == a
        else
          && c < |meta.zones| && !meta.zones[c].busy
          && (broken ==> c < |a| && LeftFull(a[c], meta.zones[c], meta.bs))
          && if broken then AllOld(a, images, |old(images)|, meta.zones, c, n, super, meta.bs)
             else ok && AllRolled(a, images, |old(images)|, meta.zones, c, n, super, SnapshotRecord(old(State()), order), meta.bs)
    {
      hide Zoned.ZonesOk, Zoned.ZoneOk, ZonedDevice.ActiveZones, MetaLog.Frame, EncodeRecord, LogHolds, Sane, Walks;
      hide AllOld, AllRolled, LeftFull, SnapshotRecord, SuperBytes, Roll, FirstFree, RollFits, SameSizes;
      order, ok := [], false;
      ghost var s, zs, from := State(), meta.zones, |images|;
      ghost var names := SomeWalk(MemTable(s));
      var switched, old_log := SwitchZone();
      if broken { SuperRefused(MemTable(s), Super(seqNo), zs[FirstFree(zs)].maxCapacity, meta.bs, names); }
      ghost var zs1 := meta.zones;
      SizesKept(zs, zs1, zs1);
      if !switched { return; }
      records := [];
      ok, order := FinishRoll(s, zs, from, old_log);
      SizesKept(zs, zs1, meta.zones);
      SizesKept(zs1, meta.zones, meta.zones);
      if broken { LeftFreed(zs[old_log.zone], zs1[old_log.zone], meta.zones[old_log.zone], meta.bs); }
      SizeAt(zs, zs1, log.zone);
    }

    /** The second half of a roll: the snapshot behind the superblock, and then the old zone goes. If the
        snapshot does not fit, the old zone is given back as it is. */
    method FinishRoll(ghost s: State, ghost a: seq<Zoned.Zone>, ghost from: nat, old_log: MetaLog.AquaMetaLog) returns (ok: bool, order: seq<Name>)
      requires LogOk() && !broken && records == [] && HandlesValid(MemTable(s)) && |s.saved| == |s.objs|
      requires State() == s.(log := [])
      requires old_log.dev == meta && old_log.Valid() && old_log != log && old_log.zone != log.zone
      requires AllOld(a, images, from, meta.zones, old_log.zone, log.zone, Super(seqNo), meta.bs)
      modifies this`objs, this`records, this`saved, this`broken, this`images, meta`zones
      ensures broken == !ok && (ok ==> LogOk())
      ensures ok <==> RollFits(MemTable(s), Super(seqNo), old(meta.zones)[log.zone].maxCapacity, meta.bs)
      ensures !ok ==> State() == s
      ensures ok ==> Persists(s, Rolled(order)) && State() == Roll(s, order)
      ensures SameSizes(old(meta.zones), meta.zones) && old(images) <= images && !meta.zones[old_log.zone].busy
      ensures old_log.zone < |old(meta.zones)| && (!ok ==> meta.zones[old_log.zone] == old(meta.zones)[old_log.zone].(busy := false))
      ensures if ok then AllRolled(a, images, from, meta.zones, old_log.zone, log.zone, Super(seqNo), SnapshotRecord(s, order), meta.bs)
        else AllOld(a, images, from, meta.zones, old_log.zone, log.zone, Super(seqNo), meta.bs)
    {
      hide Zoned.ZonesOk, Zoned.ZoneOk, ZonedDevice.ActiveZones, MetaLog.Frame, MetaLog.Frames, EncodeRecord, LogHolds, Sane, Walks, FileTable.Distinct;
      hide AllOld, AllRolled, SnapshotRecord, SuperBytes, Roll, RollFits, Fits, WipedAt, Encoded;
      ghost var zs1, was := meta.zones, images;
      ok, order := WriteSnapshotLocked(s);
      RollFitsIs(MemTable(s), Super(seqNo), order, zs1[log.zone].maxCapacity, meta.bs);
      if !ok {
        var _ := meta.Release(old_log.zone);
        StageFreed(a, images, from, zs1, meta.zones, old_log.zone, log.zone, Super(seqNo), meta.bs);
        assert SameSizes(zs1, meta.zones);
        records, broken := s.log, true;
        return;
      }
      ghost var zs2 := meta.zones;
      RetireZone(old_log);
      assert images == was + [zs2] + [images[|images| - 1]];
      StageRetired(a, was, from, zs1, zs2, images[|images| - 1], meta.zones, old_log.zone, log.zone, Super(seqNo), SnapshotRecord(s, order), meta.bs);
    }

    /** WriteSnapshotLocked, at the head of the log of table `s`. */
    method WriteSnapshotLocked(ghost s: State) returns (ok: bool, order: seq<Name>)
      requires LogOk() && records == [] && HandlesValid(MemTable(s)) && |s.saved| == |s.objs|
      requires State() == s.(log := [])
      modifies this`objs, this`records, this`saved, this`images, meta`zones
      ensures LogOk() && OnlyAt(old(meta.zones), meta.zones, log.zone)
      ensures !ok ==> State() == s.(log := [])
      ensures ok ==> Persists(s, Rolled(order)) && State() == Roll(s, order)
      ensures Lists(order, MemTable(s))
      ensures ok <==> Fits(Super(seqNo), [], Record.Snapshot(SnapshotFiles(MemTable(s), order)), old(meta.zones)[log.zone].maxCapacity, meta.bs)
      ensures images == if ok then old(images) + [meta.zones] else old(images)
      ensures !ok ==> meta.zones == old(meta.zones)
      ensures ok ==> meta.zones[log.zone].data == MetaLog.Frames(Encoded(Super(seqNo), [SnapshotRecord(s, order)]), meta.bs)
    {
      hide Zoned.ZonesOk, Zoned.ZoneOk, ZonedDevice.ActiveZones, MetaLog.Frame, EncodeRecord, LogHolds, Sane, Walks, Fits, SnapshotRecord, OnlyAt;
      hide SuperBytes, Encoded, MetaLog.Frames, FileTable.Distinct, Roll, SnapshotFiles;
      SameMem(s, []);
      order := NamesInOrder();
      var fs := Snapshot(order);
      RoomFits(Record.Snapshot(fs));
      ok := AddRecord(Record.Snapshot(fs));
      if !ok { return; }
      HoldsData(meta.zones[log.zone], Super(seqNo), records, meta.bs);
      SnapshotIs(s, order, fs);
      MarkSynced(order);
      saved := seq(|s.saved|, h requires 0 <= h < |s.saved| => if HasName(s, h) then s.objs[h].meta else s.saved[h]);
      SameNamed(s, []);
      RolledState(s, State(), order, fs);
    }

    /** The first half of a roll: a fresh zone with a superblock takes the place of the current one. */
    method SwitchZone() returns (switched: bool, old_log: MetaLog.AquaMetaLog)
      requires LogOk() && !broken
      modifies this`log, this`broken, this`seqNo, this`images, meta`zones
      ensures broken ==> !switched
      ensures !switched ==> NoLogRoom()
      ensures !switched && !broken ==> log == old(log) && meta.zones == old(meta.zones) && seqNo == old(seqNo)
      ensures var i := FirstFree(old(meta.zones));
        if i == |old(meta.zones)| then !switched && !broken
        else
          && switched == !broken && (switched ==> log.zone == i)
          && (broken <==> |MetaLog.Frame(Cut(Super(seqNo)), meta.bs)| > old(meta.zones)[i].maxCapacity)
          && old_log == old(log) && seqNo == old(seqNo) + 1
          && AllOld(old(meta.zones), images, |old(images)|, meta.zones, old_log.zone, i, Super(seqNo), meta.bs)
          && (broken ==> !meta.zones[old_log.zone].busy)
          && LeftFull(old(meta.zones)[old_log.zone], meta.zones[old_log.zone], meta.bs)
      ensures old(images) <= images && (FirstFree(old(meta.zones)) == |old(meta.zones)| ==> images == old(images))
      ensures log == old(log) || fresh(log)
      ensures SameSizes(old(meta.zones), meta.zones)
      ensures switched ==>
        && MetaOk() && log.dev == meta && log.Valid() && LogHolds(meta.zones[log.zone], Super(seqNo), [], meta.bs)
        && old_log.dev == meta && old_log.Valid() && old_log != log && old_log.zone != log.zone
    {
      hide Zoned.ZonesOk, Zoned.ZoneOk, ZonedDevice.ActiveZones, MetaLog.Frame, EncodeRecord, LogHolds, FirstFree, AllOld, EndedAt, LeftFull, SuperBytes, Cut, Encoded;
      ghost var zs, from := meta.zones, |images|;
      old_log, switched := log, false;
      LogWritten(zs[log.zone], Super(seqNo), records, meta.bs);
      var zone := meta.AllocateMetaZone();
      if zone.None? {
        NoneFree(zs);
        return;
      }
      FirstFreeIs(zs, meta.zones, zone.value);
      log := new MetaLog.AquaMetaLog(meta, zone.value);
      BlankZone(zs, meta.zones, zone.value, meta.bs, meta.zoneSize);
      images := images + [meta.zones];
      ghost var zs1 := meta.zones;
      EndOldLog(old_log);
      StagesEnded(zs, zs1, images, from, meta.zones, old_log.zone, zone.value, Super(seqNo + 1), meta.bs);
      SizesOnlyAt(zs1, meta.zones, old_log.zone);
      ghost var zs2, was := meta.zones, images;
      switched := WriteSuperblock(old_log);
      if switched {
        StageSuper(zs, was, from, zs2, meta.zones, old_log.zone, zone.value, Super(seqNo), meta.bs);
      } else {
        LeftFreed(zs[old_log.zone], zs2[old_log.zone], meta.zones[old_log.zone], meta.bs);
        StageFreed(zs, images, from, zs2, meta.zones, old_log.zone, zone.value, Super(seqNo), meta.bs);
      }
    }

    /** The superblock, with the next sequence number, in a fresh zone. If it does not fit, the zone before is
        given back as it is. */
    method WriteSuperblock(old_log: MetaLog.AquaMetaLog) returns (written: bool)
      requires MetaOk() && log.dev == meta && log.Valid() && old_log.dev == meta && old_log.Valid() && old_log.zone != log.zone
      requires meta.zones[log.zone].data == [] && meta.zones[log.zone].wp == meta.zones[log.zone].start
      requires !broken
      modifies this`seqNo, this`broken, this`images, meta`zones
      ensures seqNo == old(seqNo) + 1 && broken == !written
      ensures written == (|MetaLog.Frame(Cut(Super(seqNo)), meta.bs)| <= old(meta.zones)[log.zone].capacity)
      ensures |meta.zones| == |old(meta.zones)| && SameSizes(old(meta.zones), meta.zones)
      ensures written ==>
        && MetaOk() && log.Valid() && old_log.Valid() && LogHolds(meta.zones[log.zone], Super(seqNo), [], meta.bs)
        && meta.zones == old(meta.zones)[log.zone := meta.zones[log.zone]] && images == old(images) + [meta.zones]
      ensures !written ==>
        && images == old(images) && !meta.zones[old_log.zone].busy
        && meta.zones == old(meta.zones)[old_log.zone := old(meta.zones)[old_log.zone].(busy := false)]
    {
      hide Zoned.ZonesOk, Zoned.ZoneOk, ZonedDevice.ActiveZones, MetaLog.Frame, EncodeRecord, LogHolds;
      ghost var z0 := meta.zones[log.zone];
      seqNo := seqNo + 1;
      var st := log.AddRecord(Super(seqNo));
      assert Super(seqNo)[..|Super(seqNo)| % W32] == Cut(Super(seqNo));
      written := st == MetaLog.Ok;
      if !written {
        var _ := meta.Release(old_log.zone);
        broken := true;
        return;
      }
      SuperOnly(z0, meta.zones[log.zone], Super(seqNo), meta.bs);
      images := images + [meta.zones];
    }

    /** The old zone is wiped and given back. */
    method RetireZone(old_log: MetaLog.AquaMetaLog)
      requires MetaOk() && old_log.dev == meta && old_log.Valid() && old_log != log && old_log.zone != log.zone && log.zone < |meta.zones|
      modifies this`images, meta`zones
      ensures MetaOk() && SameSizes(old(meta.zones), meta.zones) && meta.zones[log.zone] == old(meta.zones)[log.zone]
      ensures WipedAt(old(meta.zones), meta.zones, old_log.zone) && !meta.zones[old_log.zone].busy
      ensures |images| == |old(images)| + 1 && old(images) <= images && WipedAt(old(meta.zones), images[|images| - 1], old_log.zone)
    {
      hide Zoned.ZonesOk, Zoned.ZoneOk, ZonedDevice.ActiveZones;
      Zoned.WipeKeepsOk(meta.zones, old_log.zone, meta.bs, meta.zoneSize);
      meta.Reset(old_log.zone);
      images := images + [meta.zones];
      ghost var zs := meta.zones;
      Zoned.UnusedIfEmpty(zs, old_log.zone, meta.bs, meta.zoneSize);
      var _ := meta.Release(old_log.zone);
      Zoned.HoldKeepsOk(zs, old_log.zone, false, zs[old_log.zone].lifetime, 0, meta.bs, meta.zoneSize);
      assert meta.zones == zs[old_log.zone := zs[old_log.zone].(busy := false, used := 0)];
      ZonedDevice.ActiveZonesBound(meta.zones);
    }

    /** PersistRecord. */
    method PersistRecord(r: Record) returns (ok: bool, ghost how: Persist)
      requires Valid() && HandlesValid(MemTable(State())) && |saved| == |objs|
      modifies this`log, this`objs, this`records, this`saved, this`broken, this`seqNo, this`images, meta`zones
      ensures (broken ==> !ok) && (!broken ==> Valid())
      ensures broken <==> !old(Room(r)) && old(RollBreaks())
      ensures ok && how.Appended? <==> old(Room(r))
      ensures !ok ==> NoLogRoom()
      ensures log == old(log) || fresh(log)
      ensures ok ==> Persists(old(State()), how) && State() == FileOps.PersistRecord(old(State()), r, how)
      ensures ok ==>
        && files == old(files) && nextId == old(nextId) && |objs| == |saved| == |old(objs)|
        && forall h :: 0 <= h < |objs| ==> objs[h] == old(objs)[h].(synced := objs[h].synced)
      ensures !ok ==> how == Failed && State() == old(State())
      ensures SameSizes(old(meta.zones), meta.zones)
    {
      hide LogOk, Roll, Walks, Room, NoLogRoom, SameSizes, OnlyAt, HandlesValid, RollFits, FirstFree;
      how := Appended;
      ghost var zs := meta.zones;
      ok := AddRecord(r);
      SizesOnlyAt(zs, meta.zones, log.zone);
      if !ok {
        var order;
        ghost var zs1 := meta.zones;
        ok, order := RollMetaZoneLocked();
        SizesKept(zs, zs1, meta.zones);
        how := if ok then Rolled(order) else Failed;
      }
      if ok { PersistShape(old(State()), r, how); }
    }

    /** SyncFileMetadataNoLock. */
    method SyncFileMetadataNoLock(h: Handle, replace: bool, mtime: U64) returns (st: Status, ghost how: Persist)
      requires Valid() && HandlesValid(MemTable(State())) && |saved| == |objs|
      requires h < |objs| && objs[h].synced <= |objs[h].meta.extents|
      modifies this`log, this`objs, this`records, this`saved, this`broken, this`seqNo, this`images, meta`zones
      ensures if broken then st == IOError else Valid()
      ensures st == IOError ==> NoLogRoom()
      ensures log == old(log) || fresh(log)
      ensures (State(), st) == SyncMeta(old(State()), h, replace, mtime, how)
    {
      hide LogOk, Roll, Walks, Room, NoLogRoom, RollBreaks;
      how := Failed;
      if objs[h].deleted { return OK, how; }
      if !replace { objs := objs[h := objs[h].(meta := objs[h].meta.(mtime := mtime))]; }
      assert objs == old(objs)[h := objs[h]];
      var u := UpdateOf(objs[h]);
      var ok;
      ok, how := PersistRecord(if replace then Replace(u) else Update(u));
      if !ok { return IOError, how; }
      objs := objs[h := objs[h].(synced := |objs[h].meta.extents|)];
      saved := saved[h := objs[h].meta];
      st := OK;
    }

    /** DeleteFileNoLock. */
    method DeleteFileNoLock(name: Name) returns (st: Status, ghost how: Persist)
      requires Valid() && Sane(State())
      modifies this`log, this`files, this`objs, this`records, this`saved, this`broken, this`seqNo, this`images, meta`zones
      ensures if broken then st == IOError else Valid()
      ensures st == IOError ==> NoLogRoom() || !LinkListed(old(State()), name)
      ensures log == old(log) || fresh(log)
      ensures (State(), st) == Delete(old(State()), name, how)
      ensures st == OK ==> (how.Appended? <==> old(RoomToDelete(name)))
      ensures SameSizes(old(meta.zones), meta.zones)
    {
      hide LogOk, Roll, Walks, Room, NoLogRoom, RollBreaks;
      how := Failed;
      if name !in files { return AuxFs, how; }
      var h := files[name];
      files := files - {name};
      if name !in objs[h].meta.links { return IOError, how; }
      objs := objs[h := WithLinks(objs[h], RemoveFirst(objs[h].meta.links, name))];
      var ok;
      ok, how := PersistRecord(Deletion(objs[h].meta.id, name));
      if !ok {
        files := files[name := h];
        objs := objs[h := WithLinks(objs[h], objs[h].meta.links + [name])];
        assert objs == old(objs)[h := WithLinks(old(objs)[h], RemoveFirst(old(objs)[h].meta.links, name) + [name])];
        return IOError, how;
      }
      if how.Appended? { saved := saved[h := saved[h].(links := RemoveFirst(saved[h].links, name))]; }
      if objs[h].meta.links == [] { objs := objs[h := objs[h].(deleted := true)]; }
      st := OK;
    }

    /** RenameFileNoLock. */
    method RenameFileNoLock(src: Name, dst: Name, mtime: U64) returns (st: Status, ghost howDelete: Persist, ghost how: Persist)
      requires Valid() && Inv(State())
      modifies this`log, this`files, this`objs, this`records, this`saved, this`broken, this`seqNo, this`images, meta`zones
      ensures if broken then st == IOError else Valid()
      ensures st == IOError ==> NoLogRoom() || src == dst
      ensures log == old(log) || fresh(log)
      ensures Sane(old(State())) && (State(), st) == Rename(old(State()), src, dst, howDelete, mtime, how)
    {
      hide LogOk, Roll, Walks, Delete, Rename, RenameTo, Inv, Sane, NoLogRoom, LinkListed, RemoveFirst, Room, RoomToDelete, SameSizes;
      InvSane(State());
      ghost var s := State();
      InvBounds(s);
      AllListed(s);
      NamedLiveIf(s, src);
      howDelete, how := Failed, Failed;
      if src !in files {
        RenameUnknown(s, src, dst, howDelete, mtime, how);
        return AuxFs, howDelete, how;
      }
      if dst in files {
        st, howDelete, how := RenameOver(src, dst, mtime);
      } else {
        st, how := MoveName(files[src], src, dst, mtime);
        RenameUnfold(s, src, dst, howDelete, mtime, how);
      }
    }

    /** RenameFileNoLock where a file has the new name: it goes first. */
    method RenameOver(src: Name, dst: Name, mtime: U64) returns (st: Status, ghost howDelete: Persist, ghost how: Persist)
      requires Valid() && Inv(State()) && src in files && dst in files
      modifies this`log, this`files, this`objs, this`records, this`saved, this`broken, this`seqNo, this`images, meta`zones
      ensures if broken then st == IOError else Valid()
      ensures st == IOError ==> NoLogRoom() || src == dst
      ensures log == old(log) || fresh(log)
      ensures Sane(old(State())) && (State(), st) == Rename(old(State()), src, dst, howDelete, mtime, how)
    {
      hide LogOk, Roll, Walks, Delete, Rename, RenameTo, Inv, Sane, NoLogRoom, LinkListed, RemoveFirst, Room, RoomToDelete, SameSizes;
      ghost var s := State();
      InvSane(s);
      InvBounds(s);
      var h := files[src];
      how := Failed;
      st, howDelete := ClearName(dst);
      RenameUnfold(s, src, dst, howDelete, mtime, how);
      if st != OK { return; }
      InvSane(State());
      InvBounds(State());
      DeleteLeaves(s, src, dst, howDelete);
      NamedLiveIf(State(), src);
      st, how := MoveName(h, src, dst, mtime);
      RenameUnfold(s, src, dst, howDelete, mtime, how);
    }

    method MoveName(h: Handle, src: Name, dst: Name, mtime: U64) returns (st: Status, ghost how: Persist)
      requires Valid() && Sane(State()) && h < |objs|
      modifies this`log, this`files, this`objs, this`records, this`saved, this`broken, this`seqNo, this`images, meta`zones
      ensures if broken then st == IOError else Valid()
      ensures st == IOError ==> NoLogRoom() || src !in old(objs)[h].meta.links
      ensures log == old(log) || fresh(log)
      ensures (State(), st) == RenameTo(old(State()), h, src, dst, mtime, how)
    {
      hide LogOk, SyncMeta, Persists, RemoveFirst, InsertNames, NoLogRoom;
      how := Failed;
      ghost var s := State();
      var links := objs[h].meta.links;
      if src !in links { return IOError, how; }
      objs := objs[h := WithLinks(objs[h], RemoveFirst(links, src) + [dst])];
      files := files - {src};
      InsertNamesAt(files, [dst], h);
      files := InsertNames(files, [dst], h);
      ghost var s1 := State();
      st, how := SyncFileMetadataNoLock(h, false, mtime);
      if st != OK {
        SyncMetaFails(s1, h, false, mtime, how);
        files := files - {dst};
        var now := objs[h].meta.links;
        DestListed(links, src, dst);
        if dst !in now { return; }
        objs := objs[h := WithLinks(objs[h], RemoveFirst(now, dst) + [src])];
        files := InsertNames(files, [src], h);
      }
    }

    /** LinkFile. */
    method LinkFile(name: Name, link: Name, mtime: U64) returns (st: Status, ghost how: Persist)
      requires Valid() && Sane(State())
      modifies this`log, this`files, this`objs, this`records, this`saved, this`broken, this`seqNo, this`images, meta`zones
      ensures broken ==> st == IOError
      ensures !broken ==> Valid()
      ensures st == IOError ==> NoLogRoom()
      ensures log == old(log) || fresh(log)
      ensures (State(), st) == Link(old(State()), name, link, mtime, how)
    {
      hide LogOk, SyncMeta, Persists, RemoveFirst, NoLogRoom;
      how := Failed;
      if link in files { return InvalidArgument, how; }
      if name !in files { return AuxFs, how; }
      var h := files[name];
      objs := objs[h := WithLinks(objs[h], objs[h].meta.links + [link])];
      files := files[link := h];
      ghost var s1 := State();
      st, how := SyncFileMetadataNoLock(h, false, mtime);
      if st != OK {
        SyncMetaFails(s1, h, false, mtime, how);
        var now := objs[h].meta.links;
        if link !in now { return; }
        objs := objs[h := WithLinks(objs[h], RemoveFirst(now, link))];
        files := files - {link};
      }
    }

    /** OpenWritableFile. Asked to reopen, it leaves a file of that name as it is; else such a file goes first. A
        log that is not written directly is sparse. A crash behind it leaves the new name exactly if the record
        of the creation fits behind the log: the log as it is, or, where a file has gone first, with the
        deletion behind it or rolled. */
    method OpenWritableFile(name: Name, direct: bool, reopen: bool, mtime: U64)
      returns (st: Status, ghost howDelete: Persist, ghost how: Persist)
      requires Valid() && Inv(State()) && nextId < W64
      modifies this`log, this`files, this`objs, this`nextId, this`records, this`saved, this`broken, this`seqNo, this`images, meta`zones
      ensures broken ==> st == IOError
      ensures !broken ==> Valid()
      ensures st == IOError ==> NoLogRoom()
      ensures log == old(log) || fresh(log)
      ensures reopen && name in old(files) ==> st == OK && State() == old(State()) && meta.zones == old(meta.zones)
      ensures !(reopen && name in old(files)) ==>
        && Sane(old(State())) && (State(), st) == Create(old(State()), name, IsLog(name) && !direct, howDelete, mtime, how)
        && (st == OK ==>
              && MadeInTable(MemTable(State()), old(nextId), name, IsLog(name) && !direct, mtime)
              && MadeOnRecord(records, old(nextId), name, IsLog(name) && !direct, mtime))
      ensures st == OK && name !in old(files) ==>
        && Replay(records).Recovered?
        && (name in Replay(records).table.files <==> old(Room(Creation(nextId, name, IsLog(name) && !direct, mtime))))
      ensures st == OK && name in old(files) && !reopen ==>
        && Replay(records).Recovered?
        && (howDelete.Appended? <==> old(RoomToDelete(name)))
        && (EqualSizes(old(meta.zones)) ==> (name in Replay(records).table.files <==>
             FitsZone(Super(old(seqNo)), Delete(old(State()), name, howDelete).0.log, Creation(old(nextId), name, IsLog(name) && !direct, mtime),
                      meta.zones, meta.bs)))
      ensures SameSizes(old(meta.zones), meta.zones)
    {
      hide LogOk, Delete, CreateNew, Inv, Sane, NoLogRoom, Room, RoomToDelete, FitsZone, SameSizes, Replay, MadeInTable, MadeOnRecord, IsLog;
      howDelete, how := Failed, Failed;
      ghost var s := State();
      InvSane(s);
      if reopen && name in files {
        st := OK;
        SizesKept(meta.zones, meta.zones, meta.zones);
        return;
      }
      var sparse := IsLog(name) && !direct;
      if name in files {
        st, howDelete, how := CreateOver(name, sparse, mtime);
      } else {
        InvBounds(s);
        st, how := CreateFile(name, sparse, mtime);
        DeleteKeepsNextId(s, name, howDelete);
        CreateCases(s, name, sparse, mtime, howDelete, how);
      }
    }

    /** OpenWritableFile where a file has the name. */
    method CreateOver(name: Name, sparse: bool, mtime: U64) returns (st: Status, ghost howDelete: Persist, ghost how: Persist)
      requires Valid() && Inv(State()) && nextId < W64 && name in files
      modifies this`log, this`files, this`objs, this`nextId, this`records, this`saved, this`broken, this`seqNo, this`images, meta`zones
      ensures broken ==> st == IOError
      ensures !broken ==> Valid()
      ensures st == IOError ==> NoLogRoom()
      ensures log == old(log) || fresh(log)
      ensures Sane(old(State())) && (State(), st) == Create(old(State()), name, sparse, howDelete, mtime, how)
      ensures st == OK ==>
        && Replay(records).Recovered?
        && (howDelete.Appended? <==> old(RoomToDelete(name)))
        && (EqualSizes(old(meta.zones)) ==> (name in Replay(records).table.files <==>
             FitsZone(Super(old(seqNo)), Delete(old(State()), name, howDelete).0.log, Creation(old(nextId), name, sparse, mtime), meta.zones, meta.bs)))
        && MadeInTable(MemTable(State()), old(nextId), name, sparse, mtime) && MadeOnRecord(records, old(nextId), name, sparse, mtime)
      ensures SameSizes(old(meta.zones), meta.zones)
    {
      hide MadeInTable, MadeOnRecord, MemTable;
      hide LogOk, Delete, CreateNew, Create, Inv, Sane, NoLogRoom, Room, RoomToDelete, Fits, FitsZone, SameSizes, EqualSizes, Replay, NewObject, UpdateOf;
      how := Failed;
      ghost var s, zs := State(), meta.zones;
      InvSane(s);
      st, howDelete := ClearName(name);
      DeleteKeepsNextId(s, name, howDelete);
      CreateCases(s, name, sparse, mtime, howDelete, how);
      if st != OK { return; }
      ghost var s0, zs0, i, q := State(), meta.zones, log.zone, seqNo;
      InvBounds(s0);
      RoomFits(Creation(nextId, name, sparse, mtime));
      st, how := CreateFile(name, sparse, mtime);
      SizesKept(zs, zs0, meta.zones);
      FitsAnySeq(head, tail, old(seqNo), q, s0.log, Creation(s0.nextId, name, sparse, mtime), meta.zones, meta.bs);
      if EqualSizes(zs) { SizesEqual(Super(q), s0.log, Creation(s0.nextId, name, sparse, mtime), zs, zs0, meta.zones, i, meta.bs); }
      CreateCases(s, name, sparse, mtime, howDelete, how);
    }

    /** A file of that name goes. */
    method ClearName(name: Name) returns (st: Status, ghost how: Persist)
      requires Valid() && Inv(State()) && name in files
      modifies this`log, this`files, this`objs, this`records, this`saved, this`broken, this`seqNo, this`images, meta`zones
      ensures broken ==> st == IOError
      ensures !broken ==> Valid()
      ensures st == IOError ==> NoLogRoom()
      ensures log == old(log) || fresh(log)
      ensures Sane(old(State())) && (State(), st) == Delete(old(State()), name, how)
      ensures nextId == old(nextId) && Inv(State()) && (st == OK ==> name !in files)
      ensures st == OK ==> (how.Appended? <==> old(RoomToDelete(name)))
      ensures SameSizes(old(meta.zones), meta.zones)
    {
      hide LogOk, Delete, Inv, Sane, NoLogRoom, Room;
      ghost var s := State();
      InvSane(s);
      InvBounds(s);
      AllListed(s);
      st, how := DeleteFileNoLock(name);
      DeleteKeepsNextId(s, name, how);
      DeleteStep(s, name, how);
    }

    /** Room behind the log is what the log leaves of its zone. */
    lemma RoomFits(r: Record)
      requires LogOk()
      ensures log.zone < |meta.zones| && meta.bs > 0
      ensures Room(r) <==> Fits(Super(seqNo), records, r, meta.zones[log.zone].maxCapacity, meta.bs)
    {
      hide Fits, LogHolds, EncodeRecord, MetaLog.Frame, Cut;
      assert Zoned.ZoneOk(meta.zones[log.zone], meta.bs, meta.zoneSize);
      RoomIsFit(meta.zones[log.zone], Super(seqNo), records, r, meta.bs, meta.zoneSize);
    }

    /** The new object is persisted before its name is in the table. */
    method CreateFile(name: Name, sparse: bool, mtime: U64) returns (st: Status, ghost how: Persist)
      requires Valid() && nextId < W64 && HandlesValid(MemTable(State())) && |saved| == |objs|
      modifies this`log, this`files, this`objs, this`nextId, this`records, this`saved, this`broken, this`seqNo, this`images, meta`zones
      ensures broken ==> st == IOError
      ensures !broken ==> Valid()
      ensures st == IOError ==> NoLogRoom()
      ensures log == old(log) || fresh(log)
      ensures (State(), st) == CreateNew(old(State()), name, sparse, mtime, how)
      ensures st == OK ==> (how.Appended? <==> old(Room(Creation(nextId, name, sparse, mtime))))
      ensures old(Inv(State())) && name !in old(files) && st == OK ==>
        && Replay(records).Recovered?
        && (name in Replay(records).table.files <==> old(Room(Creation(nextId, name, sparse, mtime))))
        && MadeInTable(MemTable(State()), old(nextId), name, sparse, mtime) && MadeOnRecord(records, old(nextId), name, sparse, mtime)
      ensures SameSizes(old(meta.zones), meta.zones)
    {
      hide MadeInTable, MadeOnRecord;
      hide LogOk, Roll, Walks, Room, NoLogRoom, RollBreaks, Inv, Replay, SameSizes;
      ghost var s := State();
      var o := NewObject(nextId, name, sparse, mtime);
      nextId := nextId + 1;
      assert Metas(objs) == MemTable(old(State())).metas;
      var ok;
      ok, how := PersistRecord(Update(UpdateOf(o)));
      if !ok { return IOError, how; }
      files := InsertNames(files, [name], |objs|);
      objs := objs + [o];
      saved := saved + [o.meta];
      st := OK;
      if Inv(s) && name !in s.files {
        CreateRecoveredIff(s, name, sparse, mtime, how);
        CreatedFound(s, name, sparse, mtime, how);
      }
    }

    /** SyncFileExtents, up to the zones' counts of live bytes. */
    method SyncFileExtents(h: Handle, extents: seq<Extent>) returns (st: Status, ghost how: Persist)
      requires Valid() && HandlesValid(MemTable(State())) && |saved| == |objs| && h < |objs|
      modifies this`log, this`objs, this`records, this`saved, this`broken, this`seqNo, this`images, meta`zones
      ensures broken ==> st == IOError
      ensures !broken ==> Valid()
      ensures st == IOError ==> NoLogRoom()
      ensures log == old(log) || fresh(log)
      ensures (State(), st) == ReplaceExtents(old(State()), h, extents, how)
    {
      hide LogOk, SyncMeta, Persists, NoLogRoom;
      objs := objs[h := objs[h].(meta := objs[h].meta.(extents := extents), synced := 0)];
      st, how := SyncFileMetadataNoLock(h, true, 0);
    }

    /** The record fits behind the log. */
    ghost predicate Room(r: Record)
      reads this`log, log, meta
      requires log.zone < |meta.zones| && meta.bs > 0
    {
      |MetaLog.Frame(Cut(EncodeRecord(r)), meta.bs)| <= meta.zones[log.zone].capacity
    }

    /** The record of the deletion of that name fits. */
    ghost predicate RoomToDelete(name: Name)
      reads this`files, this`objs, this`log, log, meta
      requires log.zone < |meta.zones| && meta.bs > 0
    {
      name in files && files[name] < |objs| && Room(Deletion(objs[files[name]].meta.id, name))
    }

    /** A roll would move the log to a zone that cannot take the superblock and the snapshot. */
    ghost predicate RollBreaks()
      reads this, meta
      requires HandlesValid(MemTable(State())) && meta.bs > 0
    {
      var i := FirstFree(meta.zones);
      i < |meta.zones| && !RollFits(MemTable(State()), Super(seqNo + 1), meta.zones[i].maxCapacity, meta.bs)
    }

    /** Why a record was not persisted: no meta zone is free to roll to, or the roll has failed. */
    ghost predicate NoLogRoom()
      reads this`broken, meta
    {
      broken || forall j :: 0 <= j < |meta.zones| ==> meta.zones[j].busy
    }

    ghost predicate MetaOk()
      reads meta
    {
      meta.Valid() && |meta.zones| <= meta.active && forall i :: 0 <= i < |meta.zones| ==> meta.zones[i].used == 0
    }
  }

  lemma NoneFree(zs: seq<Zoned.Zone>)
    requires forall j :: 0 <= j < |zs| ==> zs[j].busy
    ensures FirstFree(zs) == |zs|
  {
  }

  lemma FirstFreeIs(zs: seq<Zoned.Zone>, zs': seq<Zoned.Zone>, i: nat)
    requires i < |zs| == |zs'| && !zs[i].busy && zs' == zs[i := zs'[i]] && forall j :: 0 <= j < i ==> zs'[j].busy
    ensures FirstFree(zs) == i
  {
    assert forall j :: 0 <= j < i ==> zs'[j] == zs[j];
  }

  /** What is in the zone before the snapshot. */
  lemma SuperFirst(super: seq<Byte>, r: Record, size: nat, bs: nat)
    requires bs > 0
    ensures Fits(super, [], r, size, bs) ==> |MetaLog.Frame(Cut(super), bs)| <= size
  {
    hide EncodeRecord, MetaLog.Frame, Cut;
    EncodedSnoc(super, [], r);
    assert Encoded(super, []) == [Cut(super)];
    MetaLog.FramesSnoc([Cut(super)], Cut(EncodeRecord(r)), bs);
    assert MetaLog.Frames([Cut(super)], bs) == MetaLog.Frame(Cut(super), bs) + MetaLog.Frames([], bs) by { assert [Cut(super)][1..] == []; }
  }

  /** If not even the superblock fits, nothing does. */
  lemma SuperRefused(t: Table, super: seq<Byte>, size: nat, bs: nat, order: seq<Name>)
    requires bs > 0 && HandlesValid(t) && Lists(order, t) && |MetaLog.Frame(Cut(super), bs)| > size
    ensures !RollFits(t, super, size, bs)
  {
    hide Fits, MetaLog.Frame, SnapshotFiles;
    SuperFirst(super, Record.Snapshot(SnapshotFiles(t, order)), size, bs);
  }

  /** The meta zone that is allocated next, if any is free. */
  function FirstFree(zs: seq<Zoned.Zone>): (i: nat)
    ensures i <= |zs| && (i < |zs| ==> !zs[i].busy) && forall j :: 0 <= j < i ==> zs[j].busy
  {
    if zs == [] || !zs[0].busy then 0 else 1 + FirstFree(zs[1..])
  }

  lemma WpAhead(zs: seq<Zoned.Zone>, i: nat, bs: nat, zoneSize: nat)
    requires bs > 0 && Zoned.ZonesOk(zs, bs, zoneSize) && i < |zs|
    ensures zs[i].start <= zs[i].wp
  {
  }

  lemma LogWritten(z: Zoned.Zone, super: seq<Byte>, records: seq<Record>, bs: nat)
    requires LogHolds(z, super, records, bs)
    ensures !Zoned.IsEmpty(z)
  {
    var rs := Encoded(super, records);
    assert rs != [];
    FrameSize(rs[0], bs);
  }

  lemma FrameSize(r: seq<Byte>, bs: nat)
    requires bs > 0 && |r| < W32
    ensures |MetaLog.Frame(r, bs)| > 0
  {
  }

  lemma BlankZone(a: seq<Zoned.Zone>, b: seq<Zoned.Zone>, i: nat, bs: nat, zoneSize: nat)
    requires bs > 0 && zoneSize > 0 && Zoned.ZonesOk(a, bs, zoneSize) && i < |a|
    requires b == a[i := (if Zoned.IsEmpty(a[i]) then a[i] else Zoned.Wiped(a[i])).(busy := true)]
    ensures b[i].data == [] && b[i].wp == b[i].start && b[i].capacity == b[i].maxCapacity == a[i].maxCapacity
  {
  }

  lemma RolledState(s: State, t: State, order: seq<Name>, fs: seq<FileMeta>)
    requires HandlesValid(MemTable(s)) && Walks(order, MemTable(s)) && |s.saved| == |s.objs|
    requires fs == SnapshotFiles(MemTable(s), order)
    requires t.files == s.files && t.nextId == s.nextId && t.log == [Record.Snapshot(fs)]
    requires |t.objs| == |s.objs| && forall h :: 0 <= h < |s.objs| ==>
      t.objs[h] == if HasName(s, h) then s.objs[h].(synced := |s.objs[h].meta.extents|) else s.objs[h]
    requires t.saved == seq(|s.saved|, h requires 0 <= h < |s.saved| => if HasName(s, h) then s.objs[h].meta else s.saved[h])
    ensures Persists(s, Rolled(order)) && t == Roll(s, order)
  {
    assert t.objs == Roll(s, order).objs;
  }

  /** Persisting leaves the table and the files in memory, but for what counts as synced. */
  lemma PersistShape(s: State, r: Record, how: Persist)
    requires Persists(s, how) && |s.saved| == |s.objs|
    ensures var t := FileOps.PersistRecord(s, r, how);
      && t.files == s.files && t.nextId == s.nextId && |t.objs| == |t.saved| == |s.objs|
      && forall h :: 0 <= h < |s.objs| ==> t.objs[h] == s.objs[h].(synced := t.objs[h].synced)
  {
    PersistsCases(s, how);
  }

  lemma InvBounds(s: State)
    requires Inv(s)
    ensures HandlesValid(MemTable(s)) && |s.saved| == |s.objs|
    ensures forall n :: n in s.files ==> s.files[n] < |s.objs|
    ensures forall h :: 0 <= h < |s.objs| ==> s.objs[h].synced <= |s.objs[h].meta.extents|
  {
    hide Recoverable, Tracking, DeletedMarked;
    assert |MemTable(s).metas| == |s.objs|;
  }

  /** Another name still leads to its file. */
  lemma DeleteLeaves(s: State, src: Name, dst: Name, how: Persist)
    requires Inv(s) && src in s.files
    ensures Sane(s) && |Delete(s, dst, how).0.objs| == |s.objs|
    ensures Delete(s, dst, how).1 == OK && src != dst ==>
      src in Delete(s, dst, how).0.files && Delete(s, dst, how).0.files[src] == s.files[src]
  {
    hide Inv, Sane, Delete;
    InvSane(s);
    DeleteStep(s, dst, how);
    DeleteKeepsObjs(s, dst, how);
  }

  lemma DeleteKeepsObjs(s: State, name: Name, how: Persist)
    requires Sane(s)
    ensures |Delete(s, name, how).0.objs| == |s.objs|
  {
    hide Walks, RemoveFirst;
  }

  /** A metadata sync that fails has stamped the file at most. */
  lemma SyncMetaFails(s: State, h: Handle, replace: bool, mtime: U64, how: Persist)
    requires h < |s.objs| && |s.saved| == |s.objs| && s.objs[h].synced <= |s.objs[h].meta.extents|
    ensures var (t, st) := SyncMeta(s, h, replace, mtime, how);
      st != OK ==>
        && t.files == s.files && |t.objs| == |s.objs| && t.objs[h].meta.links == s.objs[h].meta.links
        && t.objs == s.objs[h := t.objs[h]]
  {
    hide FileOps.PersistRecord, Persists;
  }

  lemma RenameUnfold(s: State, src: Name, dst: Name, howDelete: Persist, mtime: U64, how: Persist)
    requires Sane(s) && src in s.files
    ensures dst in s.files ==>
      var (s0, st) := Delete(s, dst, howDelete);
      if st != OK then Rename(s, src, dst, howDelete, mtime, how) == (s0, st)
      else
        s.files[src] < |s0.objs| && |s0.saved| == |s0.objs| && s0.objs[s.files[src]].synced <= |s0.objs[s.files[src]].meta.extents|
        ==> Rename(s, src, dst, howDelete, mtime, how) == RenameTo(s0, s.files[src], src, dst, mtime, how)
    ensures dst !in s.files ==>
      s.files[src] < |s.objs| && |s.saved| == |s.objs| && s.objs[s.files[src]].synced <= |s.objs[s.files[src]].meta.extents|
      ==> Rename(s, src, dst, howDelete, mtime, how) == RenameTo(s, s.files[src], src, dst, mtime, how)
  {
    hide Delete, RenameTo;
  }

  lemma DestListed(links: seq<Name>, src: Name, dst: Name)
    ensures dst in RemoveFirst(links, src) + [dst]
  {
  }

  lemma SameMem(s: State, log: seq<Record>)
    ensures MemTable(s.(log := log)) == MemTable(s)
  {
  }

  lemma SameNamed(s: State, log: seq<Record>)
    ensures forall h :: HasName(s.(log := log), h) <==> HasName(s, h)
  {
  }

  /** Only one zone has changed, and in it neither its place nor who holds it. */
  predicate OnlyAt(a: seq<Zoned.Zone>, b: seq<Zoned.Zone>, i: nat) {
    && i < |a| == |b| && (forall j :: 0 <= j < |a| && j != i ==> b[j] == a[j])
    && b[i].start == a[i].start && b[i].busy == a[i].busy && b[i].used == a[i].used && b[i].maxCapacity == a[i].maxCapacity
  }

  predicate SameSizes(a: seq<Zoned.Zone>, b: seq<Zoned.Zone>) {
    |a| == |b| && forall i :: 0 <= i < |a| ==> b[i].maxCapacity == a[i].maxCapacity
  }

  /** ".log" */
  const LOG_SUFFIX: Name := [0x2e, 0x6c, 0x6f, 0x67]

  predicate IsLog(name: Name) { |name| >= |LOG_SUFFIX| && name[|name| - |LOG_SUFFIX|..] == LOG_SUFFIX }

  /** The sequence number takes four bytes whatever it is. */
  lemma FitsAnySeq(head: seq<Byte>, tail: seq<Byte>, p: nat, q: nat, records: seq<Record>, r: Record, zs: seq<Zoned.Zone>, bs: nat)
    requires bs > 0
    ensures FitsZone(SuperBytes(head, tail, p), records, r, zs, bs) <==> FitsZone(SuperBytes(head, tail, q), records, r, zs, bs)
  {
    hide SuperBytes;
    FramesLength(SuperBytes(head, tail, p), SuperBytes(head, tail, q), records + [r], bs);
  }

  lemma {:induction false} FramesLength(s: seq<Byte>, t: seq<Byte>, records: seq<Record>, bs: nat)
    requires bs > 0 && |s| == |t|
    ensures |MetaLog.Frames(Encoded(s, records), bs)| == |MetaLog.Frames(Encoded(t, records), bs)|
  {
    hide EncodeRecord, MetaLog.Frame;
    if records == [] {
      assert Encoded(s, []) == [Cut(s)] && Encoded(t, []) == [Cut(t)];
      assert [Cut(s)][1..] == [] && [Cut(t)][1..] == [];
    } else {
      var n := |records| - 1;
      var p, r := records[..n], records[n];
      assert records == p + [r];
      FramesLength(s, t, p, bs);
      EncodedSnoc(s, p, r);
      EncodedSnoc(t, p, r);
      MetaLog.FramesSnoc(Encoded(s, p), Cut(EncodeRecord(r)), bs);
      MetaLog.FramesSnoc(Encoded(t, p), Cut(EncodeRecord(r)), bs);
    }
  }

  lemma HoldsData(z: Zoned.Zone, super: seq<Byte>, records: seq<Record>, bs: nat)
    requires LogHolds(z, super, records, bs)
    ensures bs > 0 && z.data == MetaLog.Frames(Encoded(super, records), bs)
  {
  }

  lemma SizesKept(a: seq<Zoned.Zone>, b: seq<Zoned.Zone>, c: seq<Zoned.Zone>)
    ensures SameSizes(a, a) && (SameSizes(a, b) ==> |a| == |b|)
    ensures SameSizes(a, b) && SameSizes(b, c) ==> SameSizes(a, c)
  {
  }

  lemma SizeAt(a: seq<Zoned.Zone>, b: seq<Zoned.Zone>, i: nat)
    requires SameSizes(a, b) && i < |b|
    ensures b[i].maxCapacity == a[i].maxCapacity
  {
  }

  lemma SizesOnlyAt(a: seq<Zoned.Zone>, b: seq<Zoned.Zone>, i: nat)
    requires OnlyAt(a, b, i)
    ensures SameSizes(a, b)
  {
  }

  lemma SizesEqual(super: seq<Byte>, records: seq<Record>, r: Record, a: seq<Zoned.Zone>, b: seq<Zoned.Zone>, c: seq<Zoned.Zone>, i: nat, bs: nat)
    requires bs > 0 && SameSizes(a, b) && SameSizes(b, c) && EqualSizes(a) && i < |b|
    ensures Fits(super, records, r, b[i].maxCapacity, bs) <==> FitsZone(super, records, r, c, bs)
  {
    hide Fits;
  }

  predicate EqualSizes(zs: seq<Zoned.Zone>) {
    forall i, j :: 0 <= i < |zs| && 0 <= j < |zs| ==> zs[i].maxCapacity == zs[j].maxCapacity
  }

  /** The log with one more record behind it fits a zone of that size. */
  predicate Fits(super: seq<Byte>, records: seq<Record>, r: Record, size: nat, bs: nat)
    requires bs > 0
  {
    |MetaLog.Frames(Encoded(super, records + [r]), bs)| <= size
  }

  predicate FitsZone(super: seq<Byte>, records: seq<Record>, r: Record, zs: seq<Zoned.Zone>, bs: nat)
    requires bs > 0
  {
    zs != [] && Fits(super, records, r, zs[0].maxCapacity, bs)
  }

  // ---------------------------------------------------------------- when a roll can write its snapshot

  /** The order of a walk that visits each name once. */
  ghost predicate Lists(order: seq<Name>, t: Table) {
    Walks(order, t) && FileTable.Distinct(order)
  }

  /** The frames of the superblock and the snapshot fit an empty zone, in whatever order the table is walked. */
  ghost predicate RollFits(t: Table, super: seq<Byte>, size: nat, bs: nat)
    requires bs > 0 && HandlesValid(t)
  {
    forall order: seq<Name> :: Lists(order, t) ==> Fits(super, [], Record.Snapshot(SnapshotFiles(t, order)), size, bs)
  }

  lemma SomeWalk(t: Table) returns (order: seq<Name>)
    ensures Lists(order, t)
  {
    order := WalkOf(t.files.Keys);
  }

  lemma {:induction false} WalkOf(names: set<Name>) returns (order: seq<Name>)
    ensures FileTable.Distinct(order) && forall n :: n in order <==> n in names
    decreases |names|
  {
    order := [];
    if names != {} {
      var n :| n in names;
      order := WalkOf(names - {n});
      order := order + [n];
    }
  }

  function EntrySize(t: Table, n: Name): nat
    requires HandlesValid(t) && n in t.files
  {
    |PutLengthPrefixed(EncodeTo(File(t, n), 0))|
  }

  function ListSize(t: Table, order: seq<Name>): nat
    requires HandlesValid(t) && forall n :: n in order ==> n in t.files
  {
    if order == [] then 0 else EntrySize(t, order[0]) + ListSize(t, order[1..])
  }

  lemma {:induction false} ListSizeIs(t: Table, order: seq<Name>)
    requires HandlesValid(t) && forall n :: n in order ==> n in t.files
    ensures |EncodeFileList(SnapshotFiles(t, order))| == ListSize(t, order)
  {
    hide EncodeTo, PutLengthPrefixed;
    if order != [] {
      ListSizeIs(t, order[1..]);
      assert SnapshotFiles(t, order)[1..] == SnapshotFiles(t, order[1..]);
    }
  }

  function WithoutAt(order: seq<Name>, i: nat): seq<Name>
    requires i < |order|
  {
    order[..i] + order[i + 1..]
  }

  lemma {:induction false} ListSizeWithout(t: Table, order: seq<Name>, i: nat)
    requires HandlesValid(t) && i < |order| && forall n :: n in order ==> n in t.files
    ensures forall n :: n in WithoutAt(order, i) ==> n in t.files
    ensures ListSize(t, order) == EntrySize(t, order[i]) + ListSize(t, WithoutAt(order, i))
  {
    hide EntrySize;
    if i == 0 {
      assert WithoutAt(order, i) == order[1..];
    } else {
      ListSizeWithout(t, order[1..], i - 1);
      assert WithoutAt(order, i) == [order[0]] + WithoutAt(order[1..], i - 1);
      assert WithoutAt(order, i)[1..] == WithoutAt(order[1..], i - 1);
    }
  }

  /** The order does not matter. */
  lemma {:induction false} ListSizeSame(t: Table, a: seq<Name>, b: seq<Name>)
    requires HandlesValid(t) && FileTable.Distinct(a) && FileTable.Distinct(b)
    requires forall n :: n in a <==> n in b
    requires forall n :: n in a ==> n in t.files
    ensures ListSize(t, a) == ListSize(t, b)
  {
    hide EntrySize;
    assert b != [] ==> b[0] in b;
    if a != [] {
      assert a[0] in a;
      var i :| 0 <= i < |b| && b[i] == a[0];
      ListSizeWithout(t, b, i);
      OneLess(a, b, i);
      ListSizeSame(t, a[1..], WithoutAt(b, i));
    }
  }

  lemma OneLess(a: seq<Name>, b: seq<Name>, i: nat)
    requires a != [] && i < |b| && b[i] == a[0] && FileTable.Distinct(a) && FileTable.Distinct(b)
    requires forall n :: n in a <==> n in b
    ensures FileTable.Distinct(a[1..]) && FileTable.Distinct(WithoutAt(b, i))
    ensures forall n :: n in a[1..] <==> n in WithoutAt(b, i)
  {
    var c := WithoutAt(b, i);
    assert forall j :: 0 <= j < |c| ==> c[j] == b[if j < i then j else j + 1];
    forall n | n in a[1..] ensures n in c {
      assert n in a;
      var j :| 0 <= j < |b| && b[j] == n;
      assert c[if j < i then j else j - 1] == n;
    }
    forall n | n in c ensures n in a[1..] {
      var j :| 0 <= j < |c| && c[j] == n;
      assert n in b && n in a && n != a[0];
      var k :| 0 <= k < |a| && a[k] == n;
      assert a[1..][k - 1] == n;
    }
  }

  lemma SnapshotSize(t: Table, a: seq<Name>, b: seq<Name>)
    requires HandlesValid(t) && Lists(a, t) && Lists(b, t)
    ensures |EncodeRecord(Record.Snapshot(SnapshotFiles(t, a)))| == |EncodeRecord(Record.Snapshot(SnapshotFiles(t, b)))|
  {
    ListSizeIs(t, a);
    ListSizeIs(t, b);
    ListSizeSame(t, a, b);
    hide ListSize, EncodeFileList;
  }

  /** What fits depends on the length alone. */
  lemma FitsByLength(super: seq<Byte>, r: Record, q: Record, size: nat, bs: nat)
    requires bs > 0 && |EncodeRecord(r)| == |EncodeRecord(q)|
    ensures Fits(super, [], r, size, bs) <==> Fits(super, [], q, size, bs)
  {
    hide EncodeRecord, MetaLog.Frames, MetaLog.Frame;
    var c, d := Cut(EncodeRecord(r)), Cut(EncodeRecord(q));
    EncodedSnoc(super, [], r);
    EncodedSnoc(super, [], q);
    MetaLog.FramesSnoc(Encoded(super, []), c, bs);
    MetaLog.FramesSnoc(Encoded(super, []), d, bs);
  }

  /** One walk tells for all. */
  lemma RollFitsIs(t: Table, super: seq<Byte>, order: seq<Name>, size: nat, bs: nat)
    requires bs > 0 && HandlesValid(t) && Lists(order, t)
    ensures RollFits(t, super, size, bs) <==> Fits(super, [], Record.Snapshot(SnapshotFiles(t, order)), size, bs)
  {
    hide Fits, EncodeRecord, SnapshotFiles, FileTable.Distinct;
    forall a: seq<Name> | Lists(a, t)
      ensures Fits(super, [], Record.Snapshot(SnapshotFiles(t, order)), size, bs)
        <==> Fits(super, [], Record.Snapshot(SnapshotFiles(t, a)), size, bs)
    {
      SnapshotSize(t, order, a);
      FitsByLength(super, Record.Snapshot(SnapshotFiles(t, order)), Record.Snapshot(SnapshotFiles(t, a)), size, bs);
    }
  }

  /** The record of a new file. */
  function Creation(id: U64, name: Name, sparse: bool, mtime: U64): Record {
    Update(UpdateOf(NewObject(id, name, sparse, mtime)))
  }

  /** What a zone has left is what the log leaves of it. */
  lemma RoomIsFit(z: Zoned.Zone, super: seq<Byte>, records: seq<Record>, r: Record, bs: nat, zoneSize: nat)
    requires LogHolds(z, super, records, bs) && Zoned.ZoneOk(z, bs, zoneSize)
    ensures |MetaLog.Frame(Cut(EncodeRecord(r)), bs)| <= z.capacity <==> Fits(super, records, r, z.maxCapacity, bs)
  {
    hide EncodeRecord, MetaLog.Frames, MetaLog.Frame, Cut;
    EncodedSnoc(super, records, r);
    MetaLog.FramesSnoc(Encoded(super, records), Cut(EncodeRecord(r)), bs);
  }

  /** The file under a name lists it. */
  predicate LinkListed(s: State, name: Name) {
    name in s.files && s.files[name] < |s.objs| && name in s.objs[s.files[name]].meta.links
  }

  lemma NamedLiveIf(s: State, name: Name)
    requires Inv(s)
    ensures name in s.files ==> s.files[name] < |s.objs| && name in s.objs[s.files[name]].meta.links
  {
    hide Inv;
    if name in s.files { NamedLive(s, name); }
  }

  lemma AllListed(s: State)
    requires Inv(s)
    ensures forall n :: n in s.files ==> LinkListed(s, n)
  {
    hide Recoverable, Tracking, DeletedMarked, Sane;
    assert Linked(MemTable(s));
    forall n | n in s.files ensures LinkListed(s, n) {
      assert n in File(MemTable(s), n).links;
    }
  }

  predicate AmongFirst(order: seq<Name>, i: nat, files: map<Name, Handle>, h: nat)
    requires i <= |order|
  {
    exists j :: 0 <= j < i && order[j] in files && files[order[j]] == h
  }

  lemma SnapshotHead(t: Table, order: seq<Name>, i: nat)
    requires HandlesValid(t) && i < |order| && forall n :: n in order ==> n in t.files
    ensures order[i] in t.files && SnapshotFiles(t, order[i..]) == [File(t, order[i])] + SnapshotFiles(t, order[i + 1..])
  {
    assert order[i] in order;
    assert order[i..][1..] == order[i + 1..];
  }
}
