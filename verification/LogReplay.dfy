/** Mounting from the bytes of a metadata zone: AquaFS::RecoverFrom and the decoders it calls
    (AquaZFS/fs/fs_aquafs.cc), which rebuild the table that the records in the zone stand for. */
module LogReplay {
  import opened Coding
  import opened FileCodec
  import opened FileTable
  import opened LiveBytes
  import FileOps
  import Zoned
  import ZonedDevice
  import MetaLog
  import AquaFs

  datatype Outcome = Mounted | NotFound | Damaged

  /** RecoverFrom on the records of a log, still encoded. */
  function ReplayBytes(t: Table, rs: seq<seq<Byte>>, seen: bool, g: Geometry): Recovery
    decreases |rs|
  {
    if rs == [] then (if seen then Recovered(t) else NoSnapshot)
    else
      match DecodeRecord(rs[0], g)
      case Corruption => Corrupt
      case Ok(r) =>
        if r.End? then (if seen then Recovered(t) else NoSnapshot)
        else
          match ReplayRecord(t, r)
          case Corruption => Corrupt
          case Ok(t') => ReplayBytes(t', rs[1..], seen || r.Snapshot?, g)
  }

  function EncodedRecords(records: seq<Record>): (rs: seq<seq<Byte>>)
    ensures |rs| == |records|
  {
    seq(|records|, i requires 0 <= i < |records| => EncodeRecord(records[i]))
  }

  predicate AllStorable(records: seq<Record>, g: Geometry) {
    forall i :: 0 <= i < |records| ==> RecordStorable(records[i], g)
  }

  /** Replaying the encoded records is replaying the records. */
  lemma {:induction false} ReplayEncoded(t: Table, records: seq<Record>, seen: bool, g: Geometry)
    requires AllStorable(records, g)
    ensures ReplayBytes(t, EncodedRecords(records), seen, g) == ReplayFrom(t, records, seen)
    decreases |records|
  {
    hide DecodeRecord, EncodeRecord, RecordStorable, ReplayRecord;
    if records != [] {
      DecodeEncodeRecord(records[0], g);
      assert EncodedRecords(records)[1..] == EncodedRecords(records[1..]);
      if !records[0].End? && ReplayRecord(t, records[0]).Ok? {
        ReplayEncoded(ReplayRecord(t, records[0]).value, records[1..], seen || records[0].Snapshot?, g);
      }
    }
  }

  /** The table of AquaFS while it is being mounted, and the counts of live bytes in the IO zones, which
      the file objects keep. */
  class MountTable {
    const g: Geometry
    var files: map<Name, Handle>
    var metas: seq<FileMeta>
    var nextId: nat
    var used: seq<int>

    constructor (g: Geometry)
      ensures Now() == EMPTY && this.g == g && Whole()
    {
      this.g := g;
      files, metas, nextId := map[], [], 1;
      used := seq(|g.ioStarts|, i => 0);
    }

    ghost function Now(): Table
      reads this
    {
      Table(files, metas, nextId)
    }

    /** Names lead to objects, and every zone counts exactly the bytes of the objects that have a name. */
    ghost predicate Whole()
      reads this
    {
      Counting({}, [])
    }

    /** The same while a call holds some objects, and a temporary object has some extents. */
    ghost predicate Counting(held: set<Handle>, temp: seq<Extent>)
      reads this
    {
      HandlesValid(Now()) && Balanced(used, Now(), held, temp, g)
    }

    /** Adds a list of extents to the counts, or takes it off. */
    method Count(es: seq<Extent>, sign: int)
      requires |used| == |g.ioStarts|
      modifies this`used
      ensures Counted(old(used), used, es, sign, g)
    {
      var i := 0;
      while i < |es|
        invariant 0 <= i <= |es| && Counted(old(used), used, es[..i], sign, g)
      {
        assert es[..i + 1][..i] == es[..i];
        var z := ZoneIndex(g, es[i].start, 0);
        CountedNext(old(used), used, es[..i], es[i], sign, g);
        if z.Some? { used := used[z.value := used[z.value] + sign * es[i].length]; }
        assert es[..i + 1] == es[..i] + [es[i]];
        i := i + 1;
      }
      assert es[..i] == es;
    }

    /** The end of an object, if nothing refers to it any more. */
    method Release(h: Handle)
      requires h < |metas| && Counting({h}, [])
      modifies this`used
      ensures Whole()
    {
      hide ExtentsIn, AliveIn, Balanced, Counted;
      var named := exists n :: n in files && files[n] == h;
      assert named <==> Live(Now(), h);
      BalancedSize(used, Now(), {h}, [], g);
      ghost var before := used;
      if !named { Count(metas[h].extents, -1); }
      Released(before, used, Now(), h, g);
    }

    /** A decoded file enters the table: its extents are counted already. It goes again if no name is its own. */
    method AddFile(u: FileMeta, names: seq<Name>)
      requires Counting({}, u.extents)
      modifies this`files, this`metas, this`used
      ensures Whole()
      ensures Now() == Table(InsertNames(old(files), names, |old(metas)|), old(metas) + [u], old(nextId))
    {
      hide ExtentsIn, AliveIn, Balanced, Counted;
      var h := |metas|;
      ghost var t := Now();
      metas := metas + [u];
      Entered(used, t, u, g);
      InsertLinks(names, h);
      Release(h);
    }

    /** DecodeFileUpdateFrom. */
    method DecodeFileUpdateFrom(data: seq<Byte>, replace: bool) returns (ok: bool)
      requires Whole()
      modifies this
      ensures ok ==> Whole()
      ensures match DecodeFile(data, g)
        case Corruption => !ok
        case Ok(u) =>
          match ReplayUpdate(old(Now()), u, replace) { case Corruption => !ok case Ok(t) => ok && Now() == t }
    {
      hide DecodeFile, ExtentsIn, AliveIn, Balanced, Counted;
      var decoded := DecodeFrom(data, g);
      if decoded.Corruption? { return false; }
      var u := decoded.value;
      ghost var t, before := Now(), used;
      BalancedSize(used, t, {}, [], g);
      Count(u.extents, 1);
      if u.id >= nextId { nextId := u.id + 1; }
      Decoded(before, used, t, Now(), u.extents, g);
      FindIgnores(t, nextId, u.id, 0);
      var h := FindFile(u.id);
      if h.Some? {
        ok := MergeFile(h.value, u, replace);
        return;
      }
      if u.links == [] { return false; }
      AddFile(u, u.links[..1]);
      ok := true;
    }

    /** MergeUpdate of the object found, between erasing its names and entering those of the update. */
    method MergeFile(h: Handle, u: FileMeta, replace: bool) returns (ok: bool)
      requires h < |metas| && Live(Now(), h) && Counting({}, u.extents)
      modifies this`files, this`metas, this`used
      ensures ok ==> Whole()
      ensures match EraseNames(old(files), old(metas)[h].links)
        case Corruption => !ok
        case Ok(m) =>
          ok && Now() == Table(InsertNames(m, u.links, h), old(metas)[h := Merge(old(metas)[h], u, replace)], old(nextId))
    {
      hide ExtentsIn, AliveIn, Balanced, Counted;
      Holding(used, Now(), h, u.extents, g);
      ok := EraseLinks(metas[h].links, h, u.extents);
      if !ok { return; }
      MergeExtents(h, u, replace);
      InsertLinks(u.links, h);
      Release(h);
    }

    /** MergeUpdate with the end of the update: the merged object counts what it holds. */
    method MergeExtents(h: Handle, u: FileMeta, replace: bool)
      requires h < |metas| && Counting({h}, u.extents)
      modifies this`metas, this`used
      ensures Counting({h}, []) && metas == old(metas)[h := Merge(old(metas)[h], u, replace)]
    {
      hide ExtentsIn, AliveIn, Balanced, Counted;
      ghost var t, u0 := Now(), used;
      BalancedSize(used, t, {h}, u.extents, g);
      CountedNone(used, [], -1, g);
      if replace { Count(metas[h].extents, -1); }
      ghost var u1 := used;
      CountedSize(u0, u1, if replace then metas[h].extents else [], -1, g);
      Count(u.extents, 1);
      ghost var u2 := used;
      CountedSize(u1, u2, u.extents, 1, g);
      metas := metas[h := Merge(metas[h], u, replace)];
      Count(u.extents, -1);
      Merged(u0, u1, u2, used, t, h, u, replace, g);
    }

    /** The search of DecodeFileUpdateFrom for a file of that id among those that have a name. */
    method FindFile(id: nat) returns (h: Option<Handle>)
      ensures h == FindById(Now(), id, 0)
    {
      var k := 0;
      while k < |metas|
        invariant 0 <= k <= |metas| && FindById(Now(), id, 0) == FindById(Now(), id, k)
      {
        var named := exists n :: n in files && files[n] == k;
        assert named <==> Live(Now(), k);
        if metas[k].id == id && named { return Some(k); }
        k := k + 1;
      }
      return None;
    }

    /** Erases names; an object that loses its last one, other than the one held, is gone. */
    method EraseLinks(names: seq<Name>, h: Handle, ghost temp: seq<Extent>) returns (ok: bool)
      requires h < |metas| && Counting({h}, temp)
      modifies this`files, this`used
      ensures ok ==> Counting({h}, temp)
      ensures match EraseNames(old(files), names) { case Corruption => !ok case Ok(m) => ok && files == m }
    {
      hide ExtentsIn, AliveIn, Balanced, Counted;
      var i := 0;
      assert names[0..] == names;
      while i < |names|
        invariant 0 <= i <= |names| && Counting({h}, temp)
        invariant EraseNames(old(files), names) == EraseNames(files, names[i..])
      {
        assert names[i..][0] == names[i] && names[i..][1..] == names[i + 1..];
        if names[i] !in files { return false; }
        EraseName(names[i], h, temp);
        i := i + 1;
      }
      ok := true;
    }

    method EraseName(name: Name, h: Handle, ghost temp: seq<Extent>)
      requires name in files && Counting({h}, temp)
      modifies this`files, this`used
      ensures Counting({h}, temp) && files == old(files) - {name}
    {
      hide ExtentsIn, AliveIn, Balanced, Counted;
      ghost var t, before := Now(), used;
      BalancedSize(used, t, {h}, temp, g);
      var other := files[name];
      assert other < |metas|;
      files := files - {name};
      var named := exists n :: n in files && files[n] == other;
      assert named <==> Live(Now(), other);
      if other != h && !named { Count(metas[other].extents, -1); }
      Erased(before, used, t, Now(), name, h, temp, g);
    }

    method InsertLinks(names: seq<Name>, h: Handle)
      requires h < |metas| && Counting({h}, [])
      modifies this`files
      ensures Counting({h}, []) && files == InsertNames(old(files), names, h)
    {
      hide ExtentsIn, AliveIn, Balanced;
      ghost var t := Now();
      var i := 0;
      assert names[0..] == names;
      while i < |names|
        invariant 0 <= i <= |names|
        invariant InsertNames(old(files), names, h) == InsertNames(files, names[i..], h)
      {
        assert names[i..][0] == names[i] && names[i..][1..] == names[i + 1..];
        if names[i] !in files { files := files[names[i] := h]; }
        i := i + 1;
      }
      Inserted(used, t, Now(), names, h, g);
    }

    /** ClearFiles: every object that is alive goes. */
    method ClearFiles()
      requires Whole()
      modifies this`files, this`metas, this`used
      ensures Whole() && files == map[] && metas == []
    {
      hide ExtentsIn, Counted, Live;
      ghost var t, before := Now(), used;
      var h := 0;
      while h < |metas|
        invariant 0 <= h <= |metas| && Now() == t && |used| == |before|
        invariant forall z :: 0 <= z < |used| ==> used[z] == before[z] - AliveIn(t, {}, h, z, g)
      {
        var named := exists n :: n in files && files[n] == h;
        NamedIsLive(t, h);
        ghost var u0 := used;
        if named {
          Count(metas[h].extents, -1);
          CountedAt(u0, used, metas[h].extents, g);
        }
        h := h + 1;
      }
      files, metas := map[], [];
      NoExtents(g);
    }

    /** DecodeSnapshotFrom. */
    method DecodeSnapshotFrom(data: seq<Byte>) returns (ok: bool)
      requires Whole()
      modifies this
      ensures ok ==> Whole()
      ensures match DecodeFileList(data, g)
        case Corruption => !ok
        case Ok(fs) => ok && Now() == ReplaySnapshot(old(Now()), fs)
    {
      hide DecodeFile, GetLengthPrefixed, ExtentsIn, AliveIn, Balanced, Counted;
      var left := data;
      while true
        invariant Whole()
        invariant DecodeFileList(data, g).Ok? <==> DecodeFileList(left, g).Ok?
        invariant DecodeFileList(data, g).Ok? ==>
          ReplaySnapshot(old(Now()), DecodeFileList(data, g).value) == ReplaySnapshot(Now(), DecodeFileList(left, g).value)
        decreases |left|
      {
        var slice := GetLengthPrefixed(left);
        if slice.None? { return true; }
        LengthPrefixedShrinks(left);
        var decoded := DecodeFrom(slice.value.value, g);
        if decoded.Corruption? { return false; }
        ghost var t := Now();
        var rest := slice.value.rest;
        EnterSnapshotFile(decoded.value);
        if DecodeFileList(rest, g).Ok? { SnapshotNext(t, decoded.value, DecodeFileList(rest, g).value); }
        left := rest;
      }
    }

    /** One file of a snapshot. */
    method EnterSnapshotFile(f: FileMeta)
      requires Whole()
      modifies this
      ensures Whole()
      ensures Now() == Table(InsertNames(old(files), f.links, |old(metas)|), old(metas) + [f], AtLeast(old(nextId), f.id + 1))
    {
      hide ExtentsIn, AliveIn, Balanced, Counted, InsertNames;
      ghost var t, before := Now(), used;
      BalancedSize(used, t, {}, [], g);
      Count(f.extents, 1);
      if f.id >= nextId { nextId := f.id + 1; }
      Decoded(before, used, t, Now(), f.extents, g);
      AddFile(f, f.links);
    }

    /** DecodeFileDeletionFrom. */
    method DecodeFileDeletionFrom(id: nat, name: Name) returns (ok: bool)
      requires Whole()
      modifies this
      ensures ok ==> Whole()
      ensures match ReplayDeletion(old(Now()), id, name) { case Corruption => !ok case Ok(t) => ok && Now() == t }
    {
      hide ExtentsIn, AliveIn, Balanced, Counted;
      if name !in files || files[name] >= |metas| { return false; }
      var h := files[name];
      if metas[h].id != id { return false; }
      assert Live(Now(), h);
      Holding(used, Now(), h, [], g);
      EraseName(name, h, []);
      if name !in metas[h].links { return false; }
      ghost var t := Now();
      metas := metas[h := metas[h].(links := RemoveFirst(metas[h].links, name))];
      Relinked(used, t, Now(), h, g);
      Release(h);
      ok := true;
    }

    /** What one record does to the table. */
    method Apply(record: seq<Byte>) returns (ok: bool, end: bool, snapshot: bool)
      requires Whole()
      modifies this
      ensures ok ==> Whole()
      ensures match DecodeRecord(record, g)
        case Corruption => !ok
        case Ok(r) =>
          if r.End? then ok && end && Now() == old(Now())
          else
            match ReplayRecord(old(Now()), r)
            case Corruption => !ok
            case Ok(t) => ok && !end && snapshot == r.Snapshot? && Now() == t
    {
      hide DecodeFile, DecodeFileList, GetFixed32, GetFixed64, GetLengthPrefixed, ReplayUpdate, ReplayDeletion, ReplaySnapshot, Balanced;
      ok, end, snapshot := true, false, false;
      var tag := GetFixed32(record);
      if tag.None? || tag.value.value == END_RECORD { return true, true, false; }
      var data := GetLengthPrefixed(tag.value.rest);
      if data.None? { return false, false, false; }
      var kind, d := tag.value.value, data.value.value;
      if kind == COMPLETE_FILES_SNAPSHOT {
        ClearFiles();
        ok := DecodeSnapshotFrom(d);
        snapshot := true;
      } else if kind == FILE_UPDATE {
        ok := DecodeFileUpdateFrom(d, false);
      } else if kind == FILE_REPLACE {
        ok := DecodeFileUpdateFrom(d, true);
      } else if kind == FILE_DELETION {
        var id := GetFixed64(d);
        if id.None? { return false, false, false; }
        var name := GetLengthPrefixed(id.value.rest);
        if name.None? { return false, false, false; }
        ok := DecodeFileDeletionFrom(id.value.value, name.value.value);
      } else {
        ok := false;
      }
    }

    /** RecoverFrom. Unless a read fails, it ends as the replay of the records in the zone does; and when it
        succeeds every zone's count is what the files recovered have in it. */
    method RecoverFrom(log: MetaLog.AquaMetaLog) returns (r: Outcome)
      requires log.Valid() && Zoned.Aligned(log.readPos, log.dev.bs) && Whole()
      modifies this, log`readPos, log.dev`faults
      ensures log.dev.faults >= old(log.dev.faults) && (r.Mounted? ==> Whole())
      ensures var found := MetaLog.ReadAll(log.dev.zones[log.zone], old(log.readPos), log.dev.bs);
        found.Contents? && log.dev.faults == old(log.dev.faults) ==>
          match ReplayBytes(old(Now()), found.records, false, g)
          case Recovered(t) => r == Mounted && Now() == t
          case NoSnapshot => r == NotFound
          case Corrupt => r == Damaged
    {
      hide Zoned.ZonesOk, ZonedDevice.ActiveZones, DecodeRecord, ReplayRecord, MetaLog.ParseAt, Zoned.Aligned, MetaLog.ReadAll, Balanced;
      ghost var z, bs := log.dev.zones[log.zone], log.dev.bs;
      ghost var all := MetaLog.ReadAll(z, log.readPos, bs);
      ghost var want := ReplayBytes(Now(), if all.Contents? then all.records else [], false, g);
      var seen, done := false, false;
      while !done
        invariant log.Valid() && log.dev.faults >= old(log.dev.faults) && Zoned.Aligned(log.readPos, bs)
        invariant log.dev.zones == old(log.dev.zones) && Whole()
        invariant all.Contents? && log.dev.faults == old(log.dev.faults) ==>
          if done then want == (if seen then Recovered(Now()) else NoSnapshot)
          else
            var left := MetaLog.ReadAll(z, log.readPos, bs);
            left.Contents? && want == ReplayBytes(Now(), left.records, seen, g)
        decreases !done, z.wp - log.readPos
      {
        ghost var pos := log.readPos;
        if MetaLog.ReadAll(z, pos, bs).Contents? { MetaLog.ReadAllStep(z, pos, bs); }
        var st, record := log.ReadRecord();
        if st != MetaLog.Ok { return Damaged; }
        var ok, end, snapshot := Apply(record);
        if record == [] { NothingEnds(g); }
        if !ok { return Damaged; }
        if end {
          done := true;
        } else {
          seen := seen || snapshot;
        }
      }
      r := if seen then Mounted else NotFound;
    }
  }

  lemma NothingEnds(g: Geometry)
    ensures DecodeRecord([], g) == Ok(End)
  {
  }

  lemma {:induction false} FindIgnores(t: Table, nextId: nat, id: nat, k: nat)
    ensures FindById(t.(nextId := nextId), id, k) == FindById(t, id, k)
    decreases |t.metas| - k
  {
    if k < |t.metas| {
      assert Live(t.(nextId := nextId), k) <==> Live(t, k);
      FindIgnores(t, nextId, id, k + 1);
    }
  }

  lemma SnapshotNext(t: Table, f: FileMeta, fs: seq<FileMeta>)
    ensures ReplaySnapshot(t, [f] + fs)
      == ReplaySnapshot(Table(InsertNames(t.files, f.links, |t.metas|), t.metas + [f], AtLeast(t.nextId, f.id + 1)), fs)
  {
    assert ([f] + fs)[1..] == fs;
  }

  /** Behind the superblock, a zone that holds a log reads back as that log, unless a record is too long to
      be read. */
  lemma ZoneReadsBack(z: Zoned.Zone, super: seq<Byte>, records: seq<Record>, bs: nat)
    requires AquaFs.LogHolds(z, super, records, bs) && MetaLog.Sized(EncodedRecords(records))
    ensures MetaLog.ReadAll(z, z.start + |MetaLog.Frame(AquaFs.Cut(super), bs)|, bs)
      == if MetaLog.AllReadable(EncodedRecords(records)) then MetaLog.Contents(EncodedRecords(records)) else MetaLog.Broken
  {
    hide MetaLog.Frame, MetaLog.Readable, MetaLog.ReadAll, MetaLog.AllReadable, EncodeRecord;
    var rs, all := EncodedRecords(records), AquaFs.Encoded(super, records);
    var n := |MetaLog.Frame(AquaFs.Cut(super), bs)|;
    NoneEmpty(records);
    assert all[0] == AquaFs.Cut(super);
    assert all[1..] == rs;
    assert z.data == MetaLog.Frame(all[0], bs) + MetaLog.Frames(rs, bs);
    assert z.data[n..] == MetaLog.Frames(rs, bs);
    MetaLog.ReadBack(z, z.start + n, rs, bs);
  }

  lemma NoneEmpty(records: seq<Record>)
    ensures forall i :: 0 <= i < |records| ==> EncodedRecords(records)[i] != []
  {
    hide EncodeRecord;
    forall i | 0 <= i < |records| ensures EncodedRecords(records)[i] != [] { NotEmpty(records[i]); }
  }

  lemma NotEmpty(r: Record)
    ensures EncodeRecord(r) != []
  {
    hide PutLengthPrefixed;
  }

  /** What mounting makes of a zone: the superblock is passed over, the rest replayed. */
  function MountZone(z: Zoned.Zone, super: seq<Byte>, bs: nat, g: Geometry): Recovery
    requires bs > 0
  {
    var found := MetaLog.ReadAll(z, z.start + |MetaLog.Frame(AquaFs.Cut(super), bs)|, bs);
    if found.Contents? then ReplayBytes(EMPTY, found.records, false, g) else Corrupt
  }

  /** A crash between any two operations of AquaFS (whose Valid gives LogHolds): mounting the current zone
      rebuilds the table as last persisted, as long as every record fits the widths of its encoding, if and
      only if each is short enough to be read; else the log counts as damaged. */
  lemma MountRebuilds(z: Zoned.Zone, super: seq<Byte>, s: FileOps.State, bs: nat, g: Geometry)
    requires bs > 0 && AquaFs.LogHolds(z, super, s.log, bs) && FileOps.Inv(s)
    requires AllStorable(s.log, g) && MetaLog.Sized(EncodedRecords(s.log))
    ensures var r := MountZone(z, super, bs, g);
      if !MetaLog.AllReadable(EncodedRecords(s.log)) then r == Corrupt
      else r.Recovered? && Linked(r.table) && SameTable(r.table, FileOps.SavedTable(s))
  {
    hide MetaLog.Frame, MetaLog.AllReadable, EncodeRecord, MetaLog.ReadAll, ReplayBytes, FileOps.Sane, Linked;
    hide FileOps.Tracking, FileOps.DeletedMarked, SameTable, AquaFs.LogHolds, AllStorable, RecordStorable, ReplayFrom;
    ZoneReadsBack(z, super, s.log, bs);
    ReplayEncoded(EMPTY, s.log, false, g);
  }
}
