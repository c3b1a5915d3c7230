/** The live files of a device and what the metadata log says of them, over whole runs. The log is apart from
    the objects: a deletion takes the record off the log before the object may free its zones, a migration
    puts the new list on the log before the old places are freed, and a crash leaves the log and the
    zones, nothing else. */
module Store {
  import opened Coding
  import opened Zoned
  import opened Extents
  import opened ZonedDevice
  import opened FileSteps
  import opened Recovery
  import opened Migration
  import opened Images
  import opened Space

  /** What the log says of one file. */
  datatype Logged = Logged(saved: Saved, sparse: bool)

  /** The live objects with their file ids, and the log. */
  datatype Store = Store(now: System, ids: seq<nat>, log: map<nat, Logged>)

  function RecordOf(x: Entry): Logged { Logged(x.file.saved, x.file.sparse) }

  /** The log has the object's own record; or, while a migration has swapped the list and not yet recorded
      it, an older one, all of whose extents the object still holds. */
  predicate Backed(r: Logged, x: Entry) {
    || r == RecordOf(x)
    || (&& r.sparse == x.file.sparse && x.file.extentStart.None? && r.saved.extentStart.None?
        && r.saved.size == TotalLength(r.saved.extents)
        && forall e :: e in r.saved.extents ==> e in Held(x))
  }

  predicate Different(ids: seq<nat>) {
    forall i, j :: 0 <= i < j < |ids| ==> ids[i] != ids[j]
  }

  predicate LogBacked(s: Store) {
    && |s.ids| == |s.now.entries| && Different(s.ids)
    && (forall id :: id in s.log ==> id in s.ids)
    && (forall i :: 0 <= i < |s.ids| && s.ids[i] in s.log ==> Backed(s.log[s.ids[i]], s.now.entries[i]))
  }

  predicate StoreInv(s: Store, g: Grid) {
    Inv(s.now, g) && LogBacked(s)
  }

  // ---------------------------------------------------------------- the reset and the log

  /** No byte that the log reaches, by a listed extent or by recovery, lies in a zone the reset would wipe. */
  lemma ResetSparesLog(s: Store, i: nat, z: nat, g: Grid)
    requires StoreInv(s, g) && i < |s.ids| && s.ids[i] in s.log && z < |s.now.zones| && Unused(s.now.zones[z])
    ensures forall e :: e in s.log[s.ids[i]].saved.extents ==> e.zone != z
    ensures s.log[s.ids[i]].saved.extentStart.Some? ==>
      s.log[s.ids[i]] == RecordOf(s.now.entries[i]) && s.now.entries[i].file.home != z
  {
    hide Inv, Unused, Different;
    var x := s.now.entries[i];
    ResetSpares(s.now, i, z, g);
    assert Backed(s.log[s.ids[i]], x);
    forall e | e in s.log[s.ids[i]].saved.extents ensures e.zone != z {
      if s.log[s.ids[i]] == RecordOf(x) {
        var k :| 0 <= k < |x.file.saved.extents| && x.file.saved.extents[k] == e;
      } else {
        var k :| 0 <= k < |Held(x)| && Held(x)[k] == e;
      }
    }
  }

  /** An object that goes while the log still has its record exposes the bytes of that record: a zone that
      only it had live bytes in is then free for the reset. */
  lemma EarlyDestroyExposes(s: Store, i: nat, e: Extent, g: Grid)
    requires StoreInv(s, g) && i < |s.ids| && s.ids[i] in s.log
    requires s.log[s.ids[i]] == RecordOf(s.now.entries[i]) && e in s.log[s.ids[i]].saved.extents
    requires e.zone < |s.now.zones| && !s.now.zones[e.zone].busy
    requires s.now.zones[e.zone].used == EntryUse(s.now.entries[i], e.zone)
    ensures var x := s.now.entries[i];
      && (forall z :: 0 <= z < |s.now.zones| ==> UsedBy(x.file.extents, z) + UsedBy(x.extra, z) <= s.now.zones[z].used)
      && Unused(Uncounted(s.now.zones, x.file.extents, x.extra)[e.zone])
  {
    hide FileOk, AllSeparate, Separate, ZonesOk, UsedBy, ExtentsOk, TotalUse;
    var x, zs := s.now.entries[i], s.now.zones;
    DropKeeps(s.now, i, g);
    SavedHeld(zs, x, g);
    assert ExtentOk(zs, e) by { SomeExtent(zs, x.file.saved.extents, e); }
    NotEmpty(zs, e, g);
  }

  lemma SomeExtent(zs: seq<Zone>, es: seq<Extent>, e: Extent)
    requires ExtentsOk(zs, es) && e in es
    ensures ExtentOk(zs, e)
  {
    var k :| 0 <= k < |es| && es[k] == e;
  }

  // ---------------------------------------------------------------- crash and mount

  /** What mounting makes of a record: recovery, and the snapshot that mounting then writes. */
  function MountRecord(zs: seq<Zone>, r: Logged, g: Grid): Entry
    requires g.bs > 0
  {
    var found := Recover(zs, r.saved, r.sparse, g);
    var es := if found.Recovered? then found.extents else [];
    var n := if found.Recovered? then found.size else 0;
    Entry(File(es, None, None, 0, n, r.sparse, false, Saved(es, None, n), 0), [])
  }

  function MountAll(zs: seq<Zone>, log: map<nat, Logged>, order: seq<nat>, g: Grid): (xs: seq<Entry>)
    requires g.bs > 0 && forall id :: id in order ==> id in log
    ensures |xs| == |order|
  {
    seq(|order|, k requires 0 <= k < |order| => MountRecord(zs, log[order[k]], g))
  }

  /** Nobody holds a zone, and the counts are made afresh from what was recovered. */
  function Rebooted(zs: seq<Zone>, xs: seq<Entry>): seq<Zone> {
    seq(|zs|, z requires 0 <= z < |zs| => zs[z].(busy := false, used := TotalUse(xs, z)))
  }

  /** The order lists the records of the log, each once. */
  ghost predicate Lists(order: seq<nat>, log: map<nat, Logged>) {
    Different(order) && forall id :: id in order <==> id in log
  }

  /** A crash and the mount after it: only zones and log count. */
  function Remounted(s: Store, order: seq<nat>, g: Grid): Store
    requires g.bs > 0 && Lists(order, s.log)
  {
    var xs := MountAll(s.now.zones, s.log, order, g);
    Store(System(Rebooted(s.now.zones, xs), xs), order,
      map id | id in s.log :: RecordOf(MountRecord(s.now.zones, s.log[id], g)))
  }

  /** The recorded start lies in the zone written to; or that zone was full when the record was made, and
      the zone behind it is there and empty. */
  predicate EdgeClear(zs: seq<Zone>, r: Saved, home: nat, g: Grid) {
    Inside(zs, r, home, g)
    || (r.extentStart.Some?
        && var next := ZoneAt(zs, g.zoneSize, r.extentStart.value, 0); next.Some? && IsEmpty(zs[next.value]))
  }

  predicate EdgesClear(s: Store, g: Grid)
    requires |s.ids| == |s.now.entries|
  {
    forall i :: 0 <= i < |s.ids| && s.ids[i] in s.log ==>
      EdgeClear(s.now.zones, s.log[s.ids[i]].saved, s.now.entries[i].file.home, g)
  }

  /** What recovery finds of a file: what the object holds, and else only bytes behind its recorded start. */
  predicate OwnFind(zs: seq<Zone>, x: Entry, found: Found) {
    && found.Recovered? && ExtentsOk(zs, found.extents) && found.size == TotalLength(found.extents)
    && forall e :: e in found.extents ==> e in Held(x) || BehindStart(x.file, e)
  }

  predicate BehindStart(f: File, e: Extent) {
    f.saved.extentStart.Some? && e.zone == f.home && e.start >= f.saved.extentStart.value
  }

  lemma {:induction false} EmptyUncounted(zs: seq<Zone>, es: seq<Extent>, z: nat, g: Grid)
    requires g.bs > 0 && ZonesOk(zs, g.bs, g.zoneSize) && ExtentsOk(zs, es) && z < |zs| && IsEmpty(zs[z])
    ensures UsedBy(es, z) == 0
  {
    if es != [] {
      var n := |es| - 1;
      ExtentsOkPrefix(zs, es, n);
      EmptyUncounted(zs, es[..n], z, g);
      assert ExtentOk(zs, es[n]);
      NotEmpty(zs, es[n], g);
    }
  }

  lemma {:induction false} EmptyTotal(zs: seq<Zone>, xs: seq<Entry>, z: nat, g: Grid)
    requires g.bs > 0 && ZonesOk(zs, g.bs, g.zoneSize) && z < |zs| && IsEmpty(zs[z])
    requires forall i :: 0 <= i < |xs| ==> ExtentsOk(zs, xs[i].file.extents) && ExtentsOk(zs, xs[i].extra)
    ensures TotalUse(xs, z) == 0
  {
    if xs != [] {
      var n := |xs| - 1;
      EmptyTotal(zs, xs[..n], z, g);
      EmptyUncounted(zs, xs[n].file.extents, z, g);
      EmptyUncounted(zs, xs[n].extra, z, g);
    }
  }

  lemma RebootedOk(zs: seq<Zone>, xs: seq<Entry>, g: Grid)
    requires g.bs > 0 && ZonesOk(zs, g.bs, g.zoneSize)
    requires forall i :: 0 <= i < |xs| ==> ExtentsOk(zs, xs[i].file.extents) && ExtentsOk(zs, xs[i].extra)
    ensures ZonesOk(Rebooted(zs, xs), g.bs, g.zoneSize) && Grown(zs, Rebooted(zs, xs))
  {
    hide TotalUse, ExtentsOk;
    var b := Rebooted(zs, xs);
    forall z | 0 <= z < |zs| ensures ZoneOk(b[z], g.bs, g.zoneSize) {
      assert ZoneOk(zs[z], g.bs, g.zoneSize);
      if IsEmpty(zs[z]) { EmptyTotal(zs, xs, z, g); }
    }
  }

  lemma SparseOwn(zs: seq<Zone>, x: Entry, g: Grid)
    requires GridOk(g) && FileOk(zs, x.file, g)
    ensures OwnFind(zs, x, Recovered(Logical(x.file), TotalLength(Logical(x.file))))
  {
    hide Covered;
    forall e | e in Logical(x.file) ensures e in Held(x) {
      var k :| 0 <= k < |Logical(x.file)| && Logical(x.file)[k] == e;
      assert Held(x)[k] == e;
    }
  }

  lemma SavedHeld(zs: seq<Zone>, x: Entry, g: Grid)
    requires GridOk(g) && FileOk(zs, x.file, g)
    ensures ExtentsOk(zs, x.file.saved.extents) && forall e :: e in x.file.saved.extents ==> e in Held(x)
  {
    hide FileOk, ExtentOk;
    var f := x.file;
    SavedListed(zs, f, g);
    forall i | 0 <= i < |f.saved.extents| ensures ExtentOk(zs, f.saved.extents[i]) && f.saved.extents[i] == Held(x)[i] {
      LogicalOk(zs, f, i, g);
    }
  }

  lemma RunOwn(zs: seq<Zone>, x: Entry, g: Grid)
    requires GridOk(g) && ZonesOk(zs, g.bs, g.zoneSize) && FileOk(zs, x.file, g) && Inside(zs, x.file.saved, x.file.home, g)
    requires x.file.saved.extentStart.Some? && !x.file.sparse
    ensures OwnFind(zs, x, Recover(zs, x.file.saved, false, g))
  {
    hide HeadersOk, TotalLength, UsedBy, ZonesOk, BlockMultiples;
    var f := x.file;
    var s, k := f.saved, |f.saved.extents|;
    var p, wp := s.extentStart.value, zs[f.home].wp;
    HomeFound(zs, f.home, p, g);
    ChainForward(Logical(f)[k..], f.home, 0, p, wp, g.bs);
    SavedHeld(zs, x, g);
    if wp > p { RunBytes(zs, f.home, p); }
  }

  /** The recorded start is the first address of an empty zone: nothing is added. */
  lemma EdgeOwn(zs: seq<Zone>, x: Entry, g: Grid)
    requires GridOk(g) && ZonesOk(zs, g.bs, g.zoneSize) && FileOk(zs, x.file, g)
    requires !Inside(zs, x.file.saved, x.file.home, g) && EdgeClear(zs, x.file.saved, x.file.home, g)
    ensures OwnFind(zs, x, Recover(zs, x.file.saved, x.file.sparse, g))
  {
    hide HeadersOk, UsedBy, ZonesOk, BlockMultiples, ExtentsOk;
    var f := x.file;
    SavedHeld(zs, x, g);
    EdgeIs(zs, f, g);
  }

  lemma EdgeIs(zs: seq<Zone>, f: File, g: Grid)
    requires GridOk(g) && ZonesOk(zs, g.bs, g.zoneSize) && FileOk(zs, f, g)
    requires !Inside(zs, f.saved, f.home, g) && EdgeClear(zs, f.saved, f.home, g)
    ensures Recover(zs, f.saved, f.sparse, g) == Recovered(f.saved.extents, f.saved.size)
    ensures f.saved.size == TotalLength(f.saved.extents)
  {
    hide HeadersOk, UsedBy, BlockMultiples, ExtentsOk, Segments;
    var p, next := f.saved.extentStart.value, ZoneAt(zs, g.zoneSize, f.saved.extentStart.value, 0).value;
    ChainForward(Logical(f)[|f.saved.extents|..], f.home, HeaderSize(f.sparse), p, zs[f.home].wp, g.bs);
    assert ZoneOk(zs[f.home], g.bs, g.zoneSize);
    InOrder(zs, f.home, next, g.bs, g.zoneSize);
    InOrder(zs, next, f.home, g.bs, g.zoneSize);
  }

  lemma RecoverOwn(zs: seq<Zone>, r: Logged, x: Entry, g: Grid)
    requires GridOk(g) && ZonesOk(zs, g.bs, g.zoneSize) && FileOk(zs, x.file, g) && ExtentsOk(zs, x.extra)
    requires Backed(r, x) && EdgeClear(zs, r.saved, x.file.home, g)
    ensures OwnFind(zs, x, Recover(zs, r.saved, r.sparse, g))
  {
    hide FileOk, ZonesOk, Segments, ExtentsOk;
    var s := x.file.saved;
    if r != RecordOf(x) {
      HeldOk(zs, x, g);
      SubsetOk(zs, Held(x), r.saved.extents);
    } else if s.extentStart.None? {
      NothingOpenHere(zs, x, g);
      SparseOwn(zs, x, g);
    } else if !Inside(zs, s, x.file.home, g) {
      EdgeOwn(zs, x, g);
    } else if x.file.sparse {
      SparseHere(zs, x, g);
      SparseOwn(zs, x, g);
    } else {
      RunOwn(zs, x, g);
    }
  }

  lemma NothingOpenHere(zs: seq<Zone>, x: Entry, g: Grid)
    requires GridOk(g) && FileOk(zs, x.file, g) && x.file.saved.extentStart.None?
    ensures Recover(zs, x.file.saved, x.file.sparse, g) == Recovered(Logical(x.file), TotalLength(Logical(x.file)))
  {
    hide Covered;
    NothingOpen(zs, x.file.saved, Logical(x.file), x.file.sparse, x.file.home, g);
  }

  lemma SparseHere(zs: seq<Zone>, x: Entry, g: Grid)
    requires GridOk(g) && ZonesOk(zs, g.bs, g.zoneSize) && FileOk(zs, x.file, g)
    requires x.file.sparse && Inside(zs, x.file.saved, x.file.home, g)
    ensures Recover(zs, x.file.saved, true, g) == Recovered(Logical(x.file), TotalLength(Logical(x.file)))
  {
    hide Covered, ZonesOk;
    SparseRecovery(zs, x.file.saved, Logical(x.file), x.file.home, g);
  }

  /** The mounted object of a record is sound. */
  lemma MountedOk(zs: seq<Zone>, r: Logged, x: Entry, g: Grid)
    requires GridOk(g) && OwnFind(zs, x, Recover(zs, r.saved, r.sparse, g))
    ensures var y := MountRecord(zs, r, g);
      && FileOk(zs, y.file, g) && Held(y) == y.file.extents == Recover(zs, r.saved, r.sparse, g).extents
      && ExtentsOk(zs, y.file.extents) && y.extra == []
  {
    hide Recover, ExtentsOk, TotalLength;
    var f := MountRecord(zs, r, g).file;
    ZeroAligned(g.bs);
    assert Logical(f) == f.extents;
    assert f.extents[|f.extents|..] == [];
  }

  /** What two files recover does not overlap. */
  lemma FoundApart(zs: seq<Zone>, x: Entry, y: Entry, d: Extent, e: Extent)
    requires Separate(x, y)
    requires (d in Held(x) || BehindStart(x.file, d)) && (e in Held(y) || BehindStart(y.file, e))
    ensures Disjoint(d, e)
  {
    if d in Held(x) {
      var i :| 0 <= i < |Held(x)| && Held(x)[i] == d;
      if e in Held(y) {
        var j :| 0 <= j < |Held(y)| && Held(y)[j] == e;
      }
    } else if e in Held(y) {
      var j :| 0 <= j < |Held(y)| && Held(y)[j] == e;
    }
  }

  lemma MountedSeparate(zs: seq<Zone>, r: Logged, q: Logged, x: Entry, y: Entry, g: Grid)
    requires GridOk(g) && Separate(x, y)
    requires OwnFind(zs, x, Recover(zs, r.saved, r.sparse, g)) && OwnFind(zs, y, Recover(zs, q.saved, q.sparse, g))
    ensures Separate(MountRecord(zs, r, g), MountRecord(zs, q, g))
  {
    hide Recover, ExtentsOk, Separate, BehindStart, FileOk;
    var x', y' := MountRecord(zs, r, g), MountRecord(zs, q, g);
    MountedOk(zs, r, x, g);
    MountedOk(zs, q, y, g);
    forall i, j | 0 <= i < |Held(x')| && 0 <= j < |Held(y')| ensures Disjoint(Held(x')[i], Held(y')[j]) {
      FoundApart(zs, x, y, Held(x')[i], Held(y')[j]);
    }
    SeparateClosed(x', y');
  }

  lemma SeparateClosed(x: Entry, y: Entry)
    requires AllDisjoint(Held(x), Held(y)) && x.file.active.None? && y.file.active.None?
    requires x.file.saved.extentStart.None? && y.file.saved.extentStart.None?
    ensures Separate(x, y)
  {
  }

  /** The object behind a record of the log. */
  lemma Behind(s: Store, id: nat) returns (i: nat)
    requires LogBacked(s) && id in s.log
    ensures i < |s.ids| == |s.now.entries| && s.ids[i] == id && Backed(s.log[id], s.now.entries[i])
  {
    assert id in s.ids;
    i :| 0 <= i < |s.ids| && s.ids[i] == id;
  }

  /** The state a mount makes, file by file. */
  lemma MountedFiles(s: Store, order: seq<nat>, g: Grid)
    requires StoreInv(s, g) && EdgesClear(s, g) && Lists(order, s.log)
    ensures var t := Remounted(s, order, g).now;
      && AllOk(t, g) && ZonesOk(t.zones, g.bs, g.zoneSize)
      && (forall k :: 0 <= k < |order| ==> Bytes(t.zones, t.entries[k].file) == Bytes(s.now.zones, t.entries[k].file))
  {
    hide FileOk, ZonesOk, AllSeparate, Balanced, Recover, ExtentsOk, Bytes, TotalUse, OwnFind, Backed, EdgeClear, Different;
    var zs, xs := s.now.zones, MountAll(s.now.zones, s.log, order, g);
    var b := Rebooted(zs, xs);
    NoneOk(zs);
    NoneOk(b);
    forall k | 0 <= k < |xs|
      ensures ExtentsOk(zs, xs[k].file.extents) && xs[k].extra == [] && xs[k].file.extentStart.None? && FileOk(zs, xs[k].file, g)
    {
      assert order[k] in order;
      var i := Behind(s, order[k]);
      RecoverOwn(zs, s.log[order[k]], s.now.entries[i], g);
      MountedOk(zs, s.log[order[k]], s.now.entries[i], g);
    }
    RebootedOk(zs, xs, g);
    forall k | 0 <= k < |xs|
      ensures FileOk(b, xs[k].file, g) && ExtentsOk(b, xs[k].extra) && Bytes(b, xs[k].file) == Bytes(zs, xs[k].file)
    {
      FileKept(zs, b, xs[k].file, g);
    }
  }

  /** A crash at any moment and a mount: if every edge is clear, all is as it must be again. */
  lemma MountKeeps(s: Store, order: seq<nat>, g: Grid)
    requires StoreInv(s, g) && EdgesClear(s, g) && Lists(order, s.log)
    ensures StoreInv(Remounted(s, order, g), g)
  {
    hide FileOk, ZonesOk, Separate, Recover, ExtentsOk, Bytes, TotalUse, OwnFind, Backed, EdgeClear;
    var zs, t := s.now.zones, Remounted(s, order, g);
    MountedFiles(s, order, g);
    forall i, j | 0 <= i < j < |order| ensures Separate(t.now.entries[i], t.now.entries[j]) {
      assert order[i] in order && order[j] in order;
      var k := Behind(s, order[i]);
      var l := Behind(s, order[j]);
      RecoverOwn(zs, s.log[order[i]], s.now.entries[k], g);
      RecoverOwn(zs, s.log[order[j]], s.now.entries[l], g);
      SeparateAt(s.now.entries, k, l);
      MountedSeparate(zs, s.log[order[i]], s.log[order[j]], s.now.entries[k], s.now.entries[l], g);
    }
    forall i | 0 <= i < |order| ensures order[i] in t.log && Backed(t.log[order[i]], t.now.entries[i]) {
      assert order[i] in order;
      assert t.log[order[i]] == RecordOf(t.now.entries[i]);
      BackedSelf(t.now.entries[i]);
    }
  }

  lemma BackedSelf(x: Entry)
    ensures Backed(RecordOf(x), x)
  {
  }

  /** Mounting gives a file back what it held, in content and size, exactly when: nothing was open; or its
      recorded start lies in the zone written to and it is sparse or wrote whole blocks since; or that
      zone was full when the record was made and the zone behind it is empty. No other file matters. */
  lemma MountExact(s: Store, order: seq<nat>, i: nat, k: nat, g: Grid)
    requires StoreInv(s, g) && Lists(order, s.log) && i < |s.ids| && k < |order| && order[k] == s.ids[i]
    requires s.log[s.ids[i]] == RecordOf(s.now.entries[i])
    ensures var f, t, zs := s.now.entries[i].file, Remounted(s, order, g).now, s.now.zones;
      var n := |f.saved.extents|;
      && n <= |Logical(f)|
      && ((&& Recover(zs, f.saved, f.sparse, g).Recovered? && ExtentsOk(t.zones, t.entries[k].file.extents)
           && Bytes(t.zones, t.entries[k].file) == Bytes(zs, f) && t.entries[k].file.size == f.size)
          <==>
          (|| f.saved.extentStart.None?
           || (Inside(zs, f.saved, f.home, g) && (f.sparse || BlockMultiples(Logical(f)[n..], g.bs)))
           || (!Inside(zs, f.saved, f.home, g) && EdgeClear(zs, f.saved, f.home, g))))
  {
    hide FileOk, ZonesOk, AllSeparate, Balanced, Recover, ExtentsOk, TotalUse, Inside, Different, BlockMultiples;
    var x, zs, xs := s.now.entries[i], s.now.zones, MountAll(s.now.zones, s.log, order, g);
    assert order[k] in order;
    var b := Rebooted(zs, xs);
    ExactCondition(zs, x.file, g);
    var y := xs[k];
    assert y == MountRecord(zs, RecordOf(x), g);
    SameBytes(zs, b, y.file.extents);
    assert Logical(y.file) == y.file.extents;
  }

  // ---------------------------------------------------------------- an edge that is not clear

  /** The recorded start is the address behind the filled zone: the first of the next zone, if there is one. */
  lemma EdgePlace(zs: seq<Zone>, f: File, g: Grid)
    requires GridOk(g) && ZonesOk(zs, g.bs, g.zoneSize) && FileOk(zs, f, g) && !Inside(zs, f.saved, f.home, g)
    ensures f.saved.extentStart.Some?
    ensures var p := f.saved.extentStart.value; var next := ZoneAt(zs, g.zoneSize, p, 0);
      next.Some? ==> zs[next.value].start == p && ZoneOk(zs[next.value], g.bs, g.zoneSize)
  {
    hide HeadersOk, UsedBy, BlockMultiples, ExtentsOk;
    var p := f.saved.extentStart.value;
    var next := ZoneAt(zs, g.zoneSize, p, 0);
    ChainForward(Logical(f)[|f.saved.extents|..], f.home, HeaderSize(f.sparse), p, zs[f.home].wp, g.bs);
    assert ZoneOk(zs[f.home], g.bs, g.zoneSize);
    if next.Some? {
      InOrder(zs, f.home, next.value, g.bs, g.zoneSize);
      InOrder(zs, next.value, f.home, g.bs, g.zoneSize);
    }
  }

  /** What recovery makes of it: it fails where there is no next zone; else it adds extents in that zone only,
      and for a file that is not sparse one extent with all that was written there. */
  lemma EdgeFound(zs: seq<Zone>, f: File, g: Grid)
    requires GridOk(g) && ZonesOk(zs, g.bs, g.zoneSize) && FileOk(zs, f, g)
    requires !Inside(zs, f.saved, f.home, g) && !EdgeClear(zs, f.saved, f.home, g)
    ensures f.saved.extentStart.Some?
    ensures var next, found := ZoneAt(zs, g.zoneSize, f.saved.extentStart.value, 0), Recover(zs, f.saved, f.sparse, g);
      && (next.None? ==> found == Failed)
      && (next.Some? && !f.sparse ==>
            found.Recovered? && found.extents == f.saved.extents + [Whole(zs, next.value)])
      && (next.Some? && found.Recovered? ==>
            forall e :: e in found.extents ==> e in f.saved.extents || e.zone == next.value)
  {
    hide FileOk, ZonesOk, Segments, ExtentsOk, Covered;
    EdgePlace(zs, f, g);
    var p := f.saved.extentStart.value;
    var next := ZoneAt(zs, g.zoneSize, p, 0);
    if next.Some? && f.sparse {
      var z := zs[next.value];
      if z.wp > p && Segments(z, next.value, p, z.wp, g.bs).Some? { SegmentsPlace(z, next.value, p, z.wp, g.bs); }
    }
  }

  /** All that was written in a zone. */
  function Whole(zs: seq<Zone>, n: nat): Extent
    requires n < |zs|
  {
    Extent(zs[n].start, if zs[n].wp >= zs[n].start then zs[n].wp - zs[n].start else 0, n)
  }

  predicate AllIn(es: seq<Extent>, zone: nat) { forall i :: 0 <= i < |es| ==> es[i].zone == zone }

  lemma AllInCons(e: Extent, es: seq<Extent>, zone: nat)
    requires e.zone == zone && AllIn(es, zone)
    ensures AllIn([e] + es, zone)
  {
  }

  lemma {:induction false} SegmentsPlace(z: Zone, zone: nat, from: nat, to: nat, bs: nat)
    requires bs > 0 && Segments(z, zone, from, to, bs).Some?
    ensures AllIn(Segments(z, zone, from, to, bs).value, zone)
    decreases if from < to then to - from else 0
  {
    hide Padded, GetFixed64, AllIn;
    if from < to {
      var m := GetFixed64(z.data[from - z.start..]).value.value;
      var next := from + Padded(SPARSE_HEADER_SIZE + m, bs);
      Beyond(m, bs);
      SegmentsPlace(z, zone, next, to, bs);
      AllInCons(Extent(from + SPARSE_HEADER_SIZE, m, zone), Segments(z, zone, next, to, bs).value, zone);
    } else {
      assert AllIn([], zone) by { NoneIn(zone); }
    }
  }

  lemma NoneIn(zone: nat)
    ensures AllIn([], zone)
  {
  }

  lemma Beyond(m: nat, bs: nat)
    requires bs > 0
    ensures Padded(SPARSE_HEADER_SIZE + m, bs) > 0
  {
    PaddedMore(SPARSE_HEADER_SIZE + m, bs);
  }

  /** Data in a zone lies in all that was written there. */
  lemma WholeMeets(zs: seq<Zone>, n: nat, e: Extent, g: Grid)
    requires g.bs > 0 && ZonesOk(zs, g.bs, g.zoneSize) && n < |zs| && ExtentOk(zs, e)
    ensures Disjoint(Whole(zs, n), e) <==> e.zone != n
  {
    assert ZoneOk(zs[n], g.bs, g.zoneSize);
  }

  /** Which files it then overlaps: none without data in that zone; and, if it is not sparse, every file with
      data there. */
  lemma EdgeOverlaps(zs: seq<Zone>, r: Logged, x: Entry, y: Entry, n: nat, g: Grid)
    requires GridOk(g) && ZonesOk(zs, g.bs, g.zoneSize) && FileOk(zs, x.file, g) && Separate(x, y)
    requires !Inside(zs, x.file.saved, x.file.home, g) && !EdgeClear(zs, x.file.saved, x.file.home, g)
    requires x.file.saved.extentStart.Some? && ZoneAt(zs, g.zoneSize, x.file.saved.extentStart.value, 0) == Some(n)
    requires OwnFind(zs, y, Recover(zs, r.saved, r.sparse, g))
    ensures var xs := MountRecord(zs, RecordOf(x), g).file.extents; var ys := MountRecord(zs, r, g).file.extents;
      && ((forall e :: e in ys ==> e.zone != n) ==> AllDisjoint(xs, ys))
      && (!x.file.sparse ==> (AllDisjoint(xs, ys) <==> forall e :: e in ys ==> e.zone != n))
  {
    hide FileOk, ZonesOk, Recover, ExtentsOk, Separate, Held, BehindStart;
    var xs, ys := MountRecord(zs, RecordOf(x), g).file.extents, MountRecord(zs, r, g).file.extents;
    EdgeFound(zs, x.file, g);
    SavedHeld(zs, x, g);
    if forall e :: e in ys ==> e.zone != n {
      forall i, j | 0 <= i < |xs| && 0 <= j < |ys| ensures Disjoint(xs[i], ys[j]) {
        assert xs[i] in xs && ys[j] in ys;
        if xs[i].zone != n { FoundApart(zs, x, y, xs[i], ys[j]); }
      }
    }
    if !x.file.sparse && AllDisjoint(xs, ys) {
      forall e | e in ys ensures e.zone != n {
        var j :| 0 <= j < |ys| && ys[j] == e;
        assert xs[|xs| - 1] == Whole(zs, n);
        assert Disjoint(xs[|xs| - 1], ys[j]);
        assert ExtentOk(zs, e) by { SomeExtent(zs, ys, e); }
        WholeMeets(zs, n, e, g);
      }
    }
  }

  // ---------------------------------------------------------------- formatted

  /** A device of empty zones without a file satisfies the invariant of all runs. */
  lemma FormattedStore(zs: seq<Zone>, g: Grid)
    requires GridOk(g) && ZonesOk(zs, g.bs, g.zoneSize) && forall z :: 0 <= z < |zs| ==> IsEmpty(zs[z])
    ensures StoreInv(Store(System(zs, []), [], map[]), g)
  {
    forall z | 0 <= z < |zs| ensures zs[z].used == TotalUse([], z) {
      assert ZoneOk(zs[z], g.bs, g.zoneSize);
    }
  }

  lemma ExactCondition(zs: seq<Zone>, f: File, g: Grid)
    requires GridOk(g) && ZonesOk(zs, g.bs, g.zoneSize) && FileOk(zs, f, g)
    ensures |f.saved.extents| <= |Logical(f)| && ExtentsOk(zs, Logical(f)) && f.size == TotalLength(Logical(f))
    ensures Exact(zs, Recover(zs, f.saved, f.sparse, g), Logical(f)) <==>
      || f.saved.extentStart.None?
      || (Inside(zs, f.saved, f.home, g) && (f.sparse || BlockMultiples(Logical(f)[|f.saved.extents|..], g.bs)))
      || (!Inside(zs, f.saved, f.home, g) && EdgeClear(zs, f.saved, f.home, g))
  {
    hide Recover, ZonesOk;
    RecoveryExact(zs, f.saved, Logical(f), f.sparse, f.home, g);
  }

  /** Flags and counts are not bytes. */
  lemma SameBytes(a: seq<Zone>, b: seq<Zone>, es: seq<Extent>)
    requires |a| == |b| && forall i :: 0 <= i < |a| ==> b[i].start == a[i].start && b[i].data == a[i].data
    ensures (ExtentsOk(b, es) <==> ExtentsOk(a, es)) && ListBytes(b, es) == ListBytes(a, es)
  {
    hide ExtentsOk, Content;
    if ExtentsOk(a, es) { ContentKept(a, b, es); }
    if ExtentsOk(b, es) { ContentKept(b, a, es); }
  }

  // ---------------------------------------------------------------- whole runs

  datatype Step =
    | Write(i: nat, file: File)
    | Create(id: nat, sparse: bool, direct: bool)
    | Reopen(i: nat, direct: bool)
    | Persist(i: nat)
    | Unlink(i: nat)
    | Destroy(i: nat)
    | Copy(i: nat, k: nat, to: Extent)
    | Swap(i: nat, list: seq<Extent>, extra: seq<Extent>)
    | Free(i: nat)
    | ResetUnused
    | Crash(order: seq<nat>)

  /** The log follows an object's record, if it has one. */
  function Follow(s: Store, i: nat, x: Entry): map<nat, Logged>
    requires i < |s.ids|
  {
    if s.ids[i] in s.log then s.log[s.ids[i] := RecordOf(x)] else s.log
  }

  /** One step of the whole. Write is any method of a writer, with the records it persists; Create, Persist
      and Unlink a new file, a record of a file, and a deletion; Copy, Swap, Persist (of the replace record, the
      first record after a swap) and Free a migration;
      Destroy the end of an object, which comes after the deletion is on the log; Crash a crash and the
      mount after it. */
  ghost predicate Takes(s: Store, step: Step, t: Store, g: Grid)
    requires g.bs > 0 && |s.ids| == |s.now.entries|
  {
    var zs, xs := s.now.zones, s.now.entries;
    match step
    case Write(i, h) =>
      && i < |xs| && (s.ids[i] in s.log ==> s.log[s.ids[i]] == RecordOf(xs[i]))
      && ZonesOk(t.now.zones, g.bs, g.zoneSize) && FileOk(t.now.zones, h, g) && Moved(zs, xs[i].file, t.now.zones, h)
      && var x := Entry(h, xs[i].extra);
         t == Store(System(t.now.zones, xs[i := x]), s.ids, Follow(s, i, x))
    case Create(id, sparse, direct) =>
      && id !in s.ids && (sparse ==> !direct)
      && t == Store(System(zs, xs + [Entry(NewFile(sparse, direct), [])]), s.ids + [id], s.log)
    case Reopen(i, direct) =>
      && i < |xs| && xs[i].file.extentStart.None? && (xs[i].file.sparse ==> !direct)
      && t == s.(now := System(zs, xs[i := Entry(xs[i].file.(direct := direct), xs[i].extra)]))
    case Persist(i) => i < |xs| && t == s.(log := s.log[s.ids[i] := RecordOf(xs[i])])
    case Unlink(i) => i < |xs| && t == s.(log := s.log - {s.ids[i]})
    case Destroy(i) =>
      && i < |xs| && s.ids[i] !in s.log
      && (forall z :: 0 <= z < |zs| ==> UsedBy(xs[i].file.extents, z) + UsedBy(xs[i].extra, z) <= zs[z].used)
      && t == Store(System(Uncounted(zs, xs[i].file.extents, xs[i].extra), xs[..i] + xs[i + 1..]),
                    s.ids[..i] + s.ids[i + 1..], s.log)
    case Copy(i, k, e') =>
      i < |xs| && Copying(s.now, i, k, t.now.zones, e', g) && t == s.(now := AfterCopy(s.now, i, t.now.zones, e'))
    case Swap(i, fs, extra) =>
      && i < |xs| && Relisting(s.now, i, fs, extra, g)
      && (s.ids[i] in s.log ==>
            s.log[s.ids[i]] == RecordOf(xs[i]) && forall e :: e in xs[i].file.saved.extents ==> e in fs + extra)
      && t == s.(now := System(zs, xs[i := Entry(Relisted(xs[i].file, fs), extra)]))
    case Free(i) =>
      && i < |xs| && (s.ids[i] in s.log ==> s.log[s.ids[i]] == RecordOf(xs[i]))
      && (forall z :: 0 <= z < |zs| ==> UsedBy(xs[i].extra, z) + UsedBy([], z) <= zs[z].used)
      && t == s.(now := System(Uncounted(zs, xs[i].extra, []), xs[i := Entry(xs[i].file, [])]))
    case ResetUnused => t == s.(now := System(AllWiped(zs), xs))
    case Crash(order) => EdgesClear(s, g) && Lists(order, s.log) && t == Remounted(s, order, g)
  }

  lemma WriteKeeps(s: Store, i: nat, b: seq<Zone>, h: File, g: Grid)
    requires StoreInv(s, g) && i < |s.ids| && (s.ids[i] in s.log ==> s.log[s.ids[i]] == RecordOf(s.now.entries[i]))
    requires ZonesOk(b, g.bs, g.zoneSize) && FileOk(b, h, g) && Moved(s.now.zones, s.now.entries[i].file, b, h)
    ensures var x := Entry(h, s.now.entries[i].extra);
      StoreInv(Store(System(b, s.now.entries[i := x]), s.ids, Follow(s, i, x)), g)
  {
    hide Inv, Moved, FileOk, ZonesOk, Backed;
    var x := Entry(h, s.now.entries[i].extra);
    FileStepKeeps(s.now, i, b, h, g);
    BackedSelf(x);
  }

  lemma ReopenKeeps(s: System, i: nat, direct: bool, g: Grid)
    requires Inv(s, g) && i < |s.entries| && s.entries[i].file.extentStart.None? && (s.entries[i].file.sparse ==> !direct)
    ensures Inv(System(s.zones, s.entries[i := Entry(s.entries[i].file.(direct := direct), s.entries[i].extra)]), g)
  {
    hide ZonesOk, ExtentsOk, TotalLength, Separate, UsedBy;
    var x, x' := s.entries[i], Entry(s.entries[i].file.(direct := direct), s.entries[i].extra);
    ReopenedOk(s.zones, x.file, direct, g);
    forall j | 0 <= j < |s.entries| && j != i ensures Separate(x', s.entries[j]) {
      SeparateAt(s.entries, i, j);
      ReopenedSeparate(x, x', s.entries[j]);
    }
    SeparateUpdate(s.entries, i, x');
    forall z | 0 <= z < |s.zones| ensures s.zones[z].used == TotalUse(s.entries[i := x'], z) {
      TotalUseUpdate(s.entries, i, x', z);
    }
  }

  lemma ReopenedOk(zs: seq<Zone>, f: File, direct: bool, g: Grid)
    requires GridOk(g) && FileOk(zs, f, g) && f.extentStart.None? && (f.sparse ==> !direct)
    ensures FileOk(zs, f.(direct := direct), g) && Logical(f.(direct := direct)) == Logical(f)
  {
    hide ExtentsOk, TotalLength;
    ZeroAligned(g.bs);
    assert Logical(f) == f.extents == f.saved.extents;
    assert f.extents[|f.saved.extents|..] == [];
  }

  lemma ReopenedSeparate(x: Entry, x': Entry, y: Entry)
    requires Separate(x, y) && Held(x') == Held(x)
    requires x'.file.saved == x.file.saved && x'.file.home == x.file.home && x'.file.active == x.file.active
    ensures Separate(x', y)
  {
  }

  lemma SwapKeeps(s: Store, i: nat, fs: seq<Extent>, extra: seq<Extent>, g: Grid)
    requires StoreInv(s, g) && i < |s.ids| && Relisting(s.now, i, fs, extra, g)
    requires s.ids[i] in s.log ==>
      s.log[s.ids[i]] == RecordOf(s.now.entries[i]) && forall e :: e in s.now.entries[i].file.saved.extents ==> e in fs + extra
    ensures StoreInv(s.(now := System(s.now.zones, s.now.entries[i := Entry(Relisted(s.now.entries[i].file, fs), extra)])), g)
  {
    hide Inv, Relisting, Different;
    var x, x' := s.now.entries[i], Entry(Relisted(s.now.entries[i].file, fs), extra);
    RelistKeeps(s.now, i, fs, extra, g);
    SwapClosed(s.now, i, fs, extra, g);
    if s.ids[i] in s.log { assert Backed(s.log[s.ids[i]], x'); }
    forall j | 0 <= j < |s.ids| && s.ids[j] in s.log ensures Backed(s.log[s.ids[j]], s.now.entries[i := x'][j]) {
    }
  }

  lemma SwapClosed(s: System, i: nat, fs: seq<Extent>, extra: seq<Extent>, g: Grid)
    requires Inv(s, g) && Relisting(s, i, fs, extra, g)
    ensures var f := s.entries[i].file;
      && f.extentStart.None? && f.saved.extentStart.None? && f.saved.size == TotalLength(f.saved.extents)
      && Held(Entry(Relisted(f, fs), extra)) == fs + extra
  {
    hide AllSeparate, Balanced, ZonesOk;
    ClosedState(s.zones, s.entries[i].file, g);
    ClosedSize(s.zones, s.entries[i].file, g);
  }

  lemma ClosedSize(zs: seq<Zone>, f: File, g: Grid)
    requires GridOk(g) && FileOk(zs, f, g) && f.extentStart.None?
    ensures f.saved.size == TotalLength(f.saved.extents)
  {
    hide TotalLength, Chain;
  }

  /** More extents held, and the same record. */
  lemma BackedMore(r: Logged, x: Entry, x': Entry)
    requires Backed(r, x) && x'.file == x.file && (forall e :: e in Held(x) ==> e in Held(x'))
    ensures Backed(r, x')
  {
  }

  lemma CopyBacked(s: Store, i: nat, b: seq<Zone>, e': Extent)
    requires LogBacked(s) && i < |s.ids|
    ensures LogBacked(s.(now := AfterCopy(s.now, i, b, e')))
  {
    hide Backed, Different;
    var x := s.now.entries[i];
    var x' := Entry(x.file, x.extra + [e']);
    assert Held(x') == Held(x) + [e'];
    if s.ids[i] in s.log { BackedMore(s.log[s.ids[i]], x, x'); }
  }

  lemma DestroyBacked(s: Store, i: nat, zs: seq<Zone>)
    requires LogBacked(s) && i < |s.ids| && s.ids[i] !in s.log
    ensures LogBacked(Store(System(zs, s.now.entries[..i] + s.now.entries[i + 1..]), s.ids[..i] + s.ids[i + 1..], s.log))
  {
    hide Backed;
    var ids, xs := s.ids[..i] + s.ids[i + 1..], s.now.entries[..i] + s.now.entries[i + 1..];
    assert forall j :: 0 <= j < |ids| ==> ids[j] == s.ids[if j < i then j else j + 1] && xs[j] == s.now.entries[if j < i then j else j + 1];
    forall id | id in s.log ensures id in ids {
      var j :| 0 <= j < |s.ids| && s.ids[j] == id;
      assert ids[if j < i then j else j - 1] == id;
    }
  }

  lemma CreateBacked(s: Store, id: nat, x: Entry)
    requires LogBacked(s) && id !in s.ids
    ensures LogBacked(Store(System(s.now.zones, s.now.entries + [x]), s.ids + [id], s.log))
  {
    hide Backed;
  }

  lemma PersistBacked(s: Store, i: nat)
    requires LogBacked(s) && i < |s.ids|
    ensures LogBacked(s.(log := s.log[s.ids[i] := RecordOf(s.now.entries[i])]))
  {
    hide Backed;
    BackedSelf(s.now.entries[i]);
  }

  lemma StepKeeps(s: Store, step: Step, t: Store, g: Grid)
    requires StoreInv(s, g) && Takes(s, step, t, g)
    ensures StoreInv(t, g)
  {
    hide Inv, Moved, Copying, Relisting, AllWiped, Uncounted, FileOk, EdgesClear, Backed, Different, Lists;
    var xs := s.now.entries;
    match step
    case Write(i, h) => WriteKeeps(s, i, t.now.zones, h, g);
    case Create(id, sparse, direct) =>
      CreateKeeps(s.now, sparse, direct, g);
      CreateBacked(s, id, Entry(NewFile(sparse, direct), []));
    case Reopen(i, direct) =>
      ReopenKeeps(s.now, i, direct, g);
      ReopenBacked(s, i, direct);
    case Persist(i) => PersistBacked(s, i);
    case Unlink(i) =>
    case Destroy(i) =>
      DropKeeps(s.now, i, g);
      DestroyBacked(s, i, t.now.zones);
    case Copy(i, k, e') =>
      CopyKeeps(s.now, i, k, t.now.zones, e', g);
      CopyBacked(s, i, t.now.zones, e');
    case Swap(i, fs, extra) => SwapKeeps(s, i, fs, extra, g);
    case Free(i) =>
      FreeKeeps(s.now, i, g);
      BackedSelf(Entry(xs[i].file, []));
    case ResetUnused => ResetKeeps(s.now, g);
    case Crash(order) => MountKeeps(s, order, g);
  }

  lemma ReopenBacked(s: Store, i: nat, direct: bool)
    requires LogBacked(s) && i < |s.ids|
    ensures LogBacked(s.(now := System(s.now.zones, s.now.entries[i := Entry(s.now.entries[i].file.(direct := direct), s.now.entries[i].extra)])))
  {
    hide Different;
    var x := s.now.entries[i];
    var x' := Entry(x.file.(direct := direct), x.extra);
    if s.ids[i] in s.log { ReopenedBacked(s.log[s.ids[i]], x, x'); }
  }

  lemma ReopenedBacked(r: Logged, x: Entry, x': Entry)
    requires Backed(r, x) && x'.extra == x.extra
    requires x'.file == x.file.(direct := x'.file.direct) && (x.file.extentStart.None? ==> Held(x') == Held(x))
    ensures Backed(r, x')
  {
  }

  ghost predicate Run(states: seq<Store>, steps: seq<Step>, g: Grid)
    requires g.bs > 0
  {
    && |states| == |steps| + 1
    && forall i :: 0 <= i < |steps| ==> |states[i].ids| == |states[i].now.entries| && Takes(states[i], steps[i], states[i + 1], g)
  }

  /** In every state of every run: extents of different files do not overlap, each lies inside one zone below
      its write pointer, every zone's count is the sum of the extents in it, and all that the log says of
      a file is held by a live object. */
  lemma {:induction false} RunKeeps(states: seq<Store>, steps: seq<Step>, n: nat, g: Grid)
    requires g.bs > 0 && Run(states, steps, g) && StoreInv(states[0], g) && n <= |steps|
    ensures StoreInv(states[n], g)
  {
    if n > 0 {
      RunKeeps(states, steps, n - 1, g);
      StepKeeps(states[n - 1], steps[n - 1], states[n], g);
    }
  }
}
