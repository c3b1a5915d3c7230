/** All files of one device together: no step of one file, of the garbage collector or of the reset of
    unused zones touches the bytes of another, and every zone's count of live bytes is the sum of the extents
    in it (AquaZFS/fs/zbd_aquafs.cc, io_aquafs.cc, fs_aquafs.cc). */
module Space {
  import opened Coding
  import opened Zoned
  import opened Extents
  import opened ZonedDevice
  import opened FileSteps
  import opened Recovery
  import opened Migration
  import opened Images

  /** A live file object; `extra` are extents that are counted in their zones but not in its list: copies
      a migration has made, and afterwards the old places it has not freed yet. */
  datatype Entry = Entry(file: File, extra: seq<Extent>)

  datatype System = System(zones: seq<Zone>, entries: seq<Entry>)

  /** All extents an entry holds, with what it has pending. */
  function Held(x: Entry): seq<Extent> { Logical(x.file) + x.extra }

  predicate Disjoint(d: Extent, e: Extent) {
    d.zone != e.zone || d.start + d.length <= e.start || e.start + e.length <= d.start
  }

  predicate AllDisjoint(ds: seq<Extent>, es: seq<Extent>) {
    forall i, j :: 0 <= i < |ds| && 0 <= j < |es| ==> Disjoint(ds[i], es[j])
  }

  /** Nothing of `es` lies in the part of a zone that recovery would give to this file. */
  predicate ClearOf(f: File, es: seq<Extent>) {
    f.saved.extentStart.Some? ==>
      forall j :: 0 <= j < |es| && es[j].zone == f.home ==> es[j].start + es[j].length <= f.saved.extentStart.value
  }

  /** Two files keep out of each other's way. */
  predicate Separate(x: Entry, y: Entry) {
    && AllDisjoint(Held(x), Held(y))
    && ClearOf(x.file, Held(y)) && ClearOf(y.file, Held(x))
    && (x.file.active.Some? ==> x.file.active != y.file.active)
    && (x.file.saved.extentStart.Some? && y.file.saved.extentStart.Some? ==> x.file.home != y.file.home)
  }

  function EntryUse(x: Entry, z: nat): nat { UsedBy(x.file.extents, z) + UsedBy(x.extra, z) }

  function TotalUse(xs: seq<Entry>, z: nat): nat {
    if xs == [] then 0 else TotalUse(xs[..|xs| - 1], z) + EntryUse(xs[|xs| - 1], z)
  }

  lemma {:induction false} TotalUseUpdate(xs: seq<Entry>, i: nat, x: Entry, z: nat)
    requires i < |xs|
    ensures TotalUse(xs[i := x], z) == TotalUse(xs, z) - EntryUse(xs[i], z) + EntryUse(x, z)
    decreases |xs|
  {
    var n := |xs| - 1;
    if i == n {
      assert xs[i := x][..n] == xs[..n];
    } else {
      TotalUseUpdate(xs[..n], i, x, z);
      assert xs[i := x][..n] == xs[..n][i := x];
    }
  }

  lemma {:induction false} TotalUseWithout(xs: seq<Entry>, i: nat, z: nat)
    requires i < |xs|
    ensures TotalUse(xs[..i] + xs[i + 1..], z) == TotalUse(xs, z) - EntryUse(xs[i], z)
    decreases |xs|
  {
    var n := |xs| - 1;
    if i == n {
      assert xs[..i] + xs[i + 1..] == xs[..n];
    } else {
      TotalUseWithout(xs[..n], i, z);
      assert (xs[..i] + xs[i + 1..])[..n - 1] == xs[..n][..i] + xs[..n][i + 1..];
    }
  }

  /** The counts are conserved. */
  predicate Balanced(s: System) {
    forall z :: 0 <= z < |s.zones| ==> s.zones[z].used == TotalUse(s.entries, z)
  }

  predicate AllOk(s: System, g: Grid)
    requires g.bs > 0
  {
    forall i :: 0 <= i < |s.entries| ==> FileOk(s.zones, s.entries[i].file, g) && ExtentsOk(s.zones, s.entries[i].extra)
  }

  predicate AllSeparate(xs: seq<Entry>) {
    forall i, j :: 0 <= i < j < |xs| ==> Separate(xs[i], xs[j])
  }

  predicate Inv(s: System, g: Grid) {
    && GridOk(g) && ZonesOk(s.zones, g.bs, g.zoneSize)
    && AllOk(s, g) && AllSeparate(s.entries) && Balanced(s)
  }

  // ---------------------------------------------------------------- a step of one file

  /** Where a file writes, or has written its last, nobody else can. */
  lemma HomeHeld(a: seq<Zone>, y: File, g: Grid)
    requires GridOk(g) && FileOk(a, y, g) && y.saved.extentStart.Some?
    ensures y.home < |a| && (a[y.home].busy || IsFull(a[y.home]))
    ensures y.active.Some? ==> y.active == Some(y.home) && a[y.home].busy
    ensures y.active.None? ==> IsFull(a[y.home])
  {
    hide Covered;
  }

  lemma HomeUnchanged(a: seq<Zone>, f: File, b: seq<Zone>, h: File, x: Entry, y: Entry, g: Grid)
    requires GridOk(g) && FileOk(a, f, g) && Moved(a, f, b, h) && x.file == f
    requires FileOk(a, y.file, g) && Separate(x, y) && y.file.saved.extentStart.Some?
    ensures y.file.home < |a| == |b| && b[y.file.home] == a[y.file.home] && f.active != Some(y.file.home)
  {
    hide Covered, AllDisjoint, ClearOf, ExtentsOk;
    HomeHeld(a, y.file, g);
  }

  /** What a step adds to a file lies clear of another file's extents ... */
  lemma FreshApart(a: seq<Zone>, f: File, h: File, e: Extent, d: Extent, g: Grid)
    requires GridOk(g) && FileOk(a, f, g) && IsFresh(a, f, e) && ExtentOk(a, d)
    requires ClearOf(f, [d])
    ensures Disjoint(d, e)
  {
    hide Covered, ExtentsOk, UsedBy, TotalLength;
    if f.active == Some(e.zone) && d.zone == e.zone && f.extentStart.Some? {
      PersistBelow(a, f, g);
      assert [d][0] == d;
    }
  }

  lemma HeldApart(a: seq<Zone>, f: File, b: seq<Zone>, h: File, x: Entry, y: Entry, g: Grid)
    requires GridOk(g) && FileOk(a, f, g) && Moved(a, f, b, h) && x.file == f
    requires ExtentsOk(a, Held(y)) && AllDisjoint(Held(x), Held(y)) && ClearOf(f, Held(y))
    ensures AllDisjoint(Held(Entry(h, x.extra)), Held(y))
  {
    hide FileOk, OthersUntouched, Ledger, HoldsMove, SavedMoves;
    var hs, ys := Held(Entry(h, x.extra)), Held(y);
    forall i, j | 0 <= i < |hs| && 0 <= j < |ys| ensures Disjoint(hs[i], ys[j]) {
      if i < |f.extents| {
        assert hs[i] == f.extents[i] == Held(x)[i];
      } else if i < |Logical(h)| {
        assert hs[i] == Logical(h)[i] && IsFresh(a, f, hs[i]);
        assert ExtentOk(a, ys[j]);
        assert ClearOf(f, [ys[j]]);
        FreshApart(a, f, h, hs[i], ys[j], g);
      } else {
        var k := i - |Logical(h)|;
        assert hs[i] == x.extra[k] == Held(x)[|Logical(f)| + k];
      }
    }
  }

  /** ... and of what recovery would give to that file. */
  lemma ClearKept(a: seq<Zone>, f: File, b: seq<Zone>, h: File, x: Entry, y: Entry, g: Grid)
    requires GridOk(g) && FileOk(a, f, g) && FileOk(b, h, g) && Moved(a, f, b, h) && x.file == f
    requires FileOk(a, y.file, g) && Separate(x, y)
    ensures ClearOf(y.file, Held(Entry(h, x.extra)))
  {
    if y.file.saved.extentStart.Some? {
      HomeUnchanged(a, f, b, h, x, y, g);
      assert ClearOf(y.file, Held(x));
      ClearWithin(a, f, b, h, x, y.file, g);
    }
  }

  lemma ClearWithin(a: seq<Zone>, f: File, b: seq<Zone>, h: File, x: Entry, y: File, g: Grid)
    requires GridOk(g) && FileOk(b, h, g) && AddsFresh(a, f, h) && x.file == f
    requires y.saved.extentStart.Some? && ClearOf(y, Held(x))
    requires y.home < |a| == |b| && b[y.home] == a[y.home] && f.active != Some(y.home)
    ensures ClearOf(y, Held(Entry(h, x.extra)))
  {
    hide FileOk, IsFresh, ExtentOk;
    var hs := Held(Entry(h, x.extra));
    forall i | 0 <= i < |hs| && hs[i].zone == y.home
      ensures hs[i].start + hs[i].length <= y.saved.extentStart.value
    {
      if i < |f.extents| {
        assert hs[i] == f.extents[i] == Held(x)[i];
      } else if i < |Logical(h)| {
        assert hs[i] == Logical(h)[i] && IsFresh(a, f, hs[i]);
        LogicalOk(b, h, i, g);
        FreshElsewhere(a, f, b, hs[i], y.home);
      } else {
        var k := i - |Logical(h)|;
        assert hs[i] == x.extra[k] == Held(x)[|Logical(f)| + k];
      }
    }
  }

  lemma FreshElsewhere(a: seq<Zone>, f: File, b: seq<Zone>, e: Extent, z: nat)
    requires IsFresh(a, f, e) && ExtentOk(b, e) && z < |a| == |b| && b[z] == a[z] && f.active != Some(z)
    ensures e.zone != z
  {
  }

  lemma LogicalOk(b: seq<Zone>, h: File, i: nat, g: Grid)
    requires g.bs > 0 && FileOk(b, h, g) && i < |Logical(h)|
    ensures ExtentOk(b, Logical(h)[i])
  {
    hide Covered;
  }

  lemma ClearMoved(a: seq<Zone>, f: File, b: seq<Zone>, h: File, y: Entry)
    requires Moved(a, f, b, h) && ExtentsOk(a, Held(y)) && ClearOf(f, Held(y))
    ensures ClearOf(h, Held(y))
  {
    hide OthersUntouched, Ledger, AddsFresh, HoldsMove;
  }

  lemma HoldsApart(a: seq<Zone>, f: File, b: seq<Zone>, h: File, x: Entry, y: Entry, g: Grid)
    requires GridOk(g) && FileOk(a, f, g) && Moved(a, f, b, h) && x.file == f
    requires FileOk(a, y.file, g) && Separate(x, y)
    ensures h.active.Some? ==> h.active != y.file.active
    ensures h.saved.extentStart.Some? && y.file.saved.extentStart.Some? ==> h.home != y.file.home
  {
    hide Covered, AllDisjoint, ClearOf, ExtentsOk, UsedBy, AddsFresh, Ledger;
    if y.file.saved.extentStart.Some? { HomeHeld(a, y.file, g); }
  }

  /** A step of one file keeps it separate from every other file, and leaves that one's bytes in place. */
  lemma OthersApart(a: seq<Zone>, f: File, b: seq<Zone>, h: File, x: Entry, y: Entry, g: Grid)
    requires GridOk(g) && FileOk(a, f, g) && FileOk(b, h, g) && Moved(a, f, b, h) && x.file == f
    requires FileOk(a, y.file, g) && ExtentsOk(a, y.extra) && Separate(x, y)
    ensures Separate(Entry(h, x.extra), y)
    ensures FileOk(b, y.file, g) && Bytes(b, y.file) == Bytes(a, y.file) && ExtentsOk(b, y.extra)
  {
    hide FileOk, Ledger, AddsFresh, HoldsMove, SavedMoves, AllDisjoint, ClearOf, ExtentsOk, Content, Bytes, UsedBy;
    HeldOk(a, y, g);
    HeldApart(a, f, b, h, x, y, g);
    ClearKept(a, f, b, h, x, y, g);
    ClearMoved(a, f, b, h, y);
    HoldsApart(a, f, b, h, x, y, g);
    OtherKept(a, f, b, h, x, y, g);
    ContentKept(a, b, y.extra);
  }

  lemma OtherKept(a: seq<Zone>, f: File, b: seq<Zone>, h: File, x: Entry, y: Entry, g: Grid)
    requires GridOk(g) && FileOk(a, f, g) && Moved(a, f, b, h) && x.file == f
    requires FileOk(a, y.file, g) && Separate(x, y)
    ensures FileOk(b, y.file, g) && Bytes(b, y.file) == Bytes(a, y.file)
  {
    assert y.file.extentStart.Some? ==> y.file.saved.extentStart.Some? by { hide Covered; }
    hide FileOk, Ledger, AddsFresh, HoldsMove, SavedMoves, Separate, ExtentsOk, Bytes;
    if y.file.saved.extentStart.Some? { HomeUnchanged(a, f, b, h, x, y, g); }
    FileKept(a, b, y.file, g);
  }

  lemma HeldOk(a: seq<Zone>, y: Entry, g: Grid)
    requires g.bs > 0 && FileOk(a, y.file, g) && ExtentsOk(a, y.extra)
    ensures ExtentsOk(a, Held(y))
  {
    hide Covered;
  }

  lemma SeparateSym(x: Entry, y: Entry)
    requires Separate(x, y)
    ensures Separate(y, x)
  {
    forall i, j | 0 <= i < |Held(y)| && 0 <= j < |Held(x)| ensures Disjoint(Held(y)[i], Held(x)[j]) {
      assert Disjoint(Held(x)[j], Held(y)[i]);
    }
  }

  lemma SeparateAt(xs: seq<Entry>, i: nat, j: nat)
    requires AllSeparate(xs) && i < |xs| && j < |xs| && i != j
    ensures Separate(xs[i], xs[j])
  {
    if i > j { SeparateSym(xs[j], xs[i]); }
  }

  /** One entry replaced by another that is separate from all the rest. */
  lemma SeparateUpdate(xs: seq<Entry>, i: nat, x: Entry)
    requires AllSeparate(xs) && i < |xs|
    requires forall j :: 0 <= j < |xs| && j != i ==> Separate(x, xs[j])
    ensures AllSeparate(xs[i := x])
  {
    hide Separate;
    var ys := xs[i := x];
    forall j, k | 0 <= j < k < |ys| ensures Separate(ys[j], ys[k]) {
      if k == i { SeparateSym(x, xs[j]); }
    }
  }

  /** A step of one file, with whatever the allocator did for it. */
  lemma FileStepKeeps(s: System, i: nat, b: seq<Zone>, h: File, g: Grid)
    requires Inv(s, g) && i < |s.entries| && ZonesOk(b, g.bs, g.zoneSize)
    requires FileOk(b, h, g) && Moved(s.zones, s.entries[i].file, b, h)
    ensures Inv(System(b, s.entries[i := Entry(h, s.entries[i].extra)]), g)
    ensures forall j :: 0 <= j < |s.entries| && j != i ==>
      Bytes(b, s.entries[j].file) == Bytes(s.zones, s.entries[j].file)
  {
    hide FileOk, Moved, Separate, Bytes, ZonesOk, ExtentsOk;
    var a, x, xs := s.zones, s.entries[i], s.entries;
    var y := Entry(h, x.extra);
    forall j | 0 <= j < |xs| && j != i
      ensures Separate(y, xs[j]) && FileOk(b, xs[j].file, g) && ExtentsOk(b, xs[j].extra)
      ensures Bytes(b, xs[j].file) == Bytes(a, xs[j].file)
    {
      SeparateAt(xs, i, j);
      OthersApart(a, x.file, b, h, x, xs[j], g);
    }
    SeparateUpdate(xs, i, y);
    MovedGrown(a, x.file, b, h, x.extra);
    LedgerBalance(s, i, b, h);
  }

  lemma MovedGrown(a: seq<Zone>, f: File, b: seq<Zone>, h: File, es: seq<Extent>)
    requires Moved(a, f, b, h) && ExtentsOk(a, es)
    ensures ExtentsOk(b, es)
  {
    hide ExtentsOk, Ledger, AddsFresh, HoldsMove, SavedMoves;
    ContentKept(a, b, es);
  }

  lemma LedgerBalance(s: System, i: nat, b: seq<Zone>, h: File)
    requires i < |s.entries| && Balanced(s) && Moved(s.zones, s.entries[i].file, b, h)
    ensures Balanced(System(b, s.entries[i := Entry(h, s.entries[i].extra)]))
  {
    hide OthersUntouched, AddsFresh, HoldsMove, SavedMoves, UsedBy;
    var y := Entry(h, s.entries[i].extra);
    forall z | 0 <= z < |b| ensures b[z].used == TotalUse(s.entries[i := y], z) {
      TotalUseUpdate(s.entries, i, y, z);
    }
  }

  // ---------------------------------------------------------------- unused zones

  lemma {:induction false} TotalUseMember(xs: seq<Entry>, i: nat, z: nat)
    requires i < |xs|
    ensures TotalUse(xs, z) >= EntryUse(xs[i], z)
    decreases |xs|
  {
    if i < |xs| - 1 { TotalUseMember(xs[..|xs| - 1], i, z); }
  }

  lemma UsedWhere(es: seq<Extent>, k: nat)
    requires k < |es| && es[k].length > 0
    ensures UsedBy(es, es[k].zone) > 0
  {
    UsedByMember(es, k);
  }

  /** No byte that a live file holds, lists in its record, or would be given by recovery lies in a zone that
      the reset of unused zones would wipe. */
  lemma ResetSpares(s: System, i: nat, z: nat, g: Grid)
    requires Inv(s, g) && i < |s.entries| && z < |s.zones| && Unused(s.zones[z])
    ensures forall k :: 0 <= k < |Held(s.entries[i])| ==> Held(s.entries[i])[k].zone != z
    ensures s.entries[i].file.saved.extentStart.Some? ==> s.entries[i].file.home != z
    ensures forall k :: 0 <= k < |s.entries[i].file.saved.extents| ==> s.entries[i].file.saved.extents[k].zone != z
  {
    hide ZonesOk, Separate, FileOk, UsedBy, TotalUse, ExtentOk;
    var x := s.entries[i];
    var f := x.file;
    TotalUseMember(s.entries, i, z);
    assert UsedBy(f.extents, z) == 0 && UsedBy(x.extra, z) == 0;
    HomeUsed(s.zones, f, z, g);
    ExtraPositive(s.zones, x.extra);
    var n := |Logical(f)|;
    forall k | 0 <= k < |Held(x)| ensures Held(x)[k].zone != z {
      if k < |f.extents| {
        LogicalOk(s.zones, f, k, g);
        assert f.extents[k].length > 0 by { Positive(s.zones, f.extents[k]); }
        if f.extents[k].zone == z { UsedWhere(f.extents, k); }
      } else if k >= n {
        if x.extra[k - n].zone == z { UsedWhere(x.extra, k - n); }
      }
    }
    SavedListed(s.zones, f, g);
    forall k | 0 <= k < |f.saved.extents| ensures f.saved.extents[k].zone != z {
      assert f.saved.extents[k] == Held(x)[k];
    }
  }

  lemma Positive(zs: seq<Zone>, e: Extent)
    requires ExtentOk(zs, e)
    ensures e.length > 0
  {
  }

  lemma ExtraPositive(zs: seq<Zone>, es: seq<Extent>)
    requires ExtentsOk(zs, es)
    ensures forall k :: 0 <= k < |es| ==> es[k].length > 0
  {
  }

  lemma SavedListed(a: seq<Zone>, f: File, g: Grid)
    requires g.bs > 0 && FileOk(a, f, g)
    ensures |f.saved.extents| <= |f.extents|
    ensures forall k :: 0 <= k < |f.saved.extents| ==> f.saved.extents[k] == f.extents[k]
  {
    hide Chain, HeadersOk, TotalLength;
    forall k | 0 <= k < |f.saved.extents| ensures f.saved.extents[k] == f.extents[k] {
      assert f.saved.extents[k] == Logical(f)[..|f.saved.extents|][k];
    }
  }

  /** The zone a file writes to is busy; one it has filled and given up holds bytes of it. */
  lemma HomeUsed(a: seq<Zone>, f: File, z: nat, g: Grid)
    requires GridOk(g) && FileOk(a, f, g) && z < |a| && Unused(a[z]) && UsedBy(f.extents, z) == 0
    ensures f.saved.extentStart.Some? ==> f.home != z
    ensures f.active != Some(z)
    ensures forall k :: |f.extents| <= k < |Logical(f)| ==> Logical(f)[k].zone != z
  {
    hide Covered;
  }

  /** So the reset changes nothing for any file. */
  lemma ResetKeeps(s: System, g: Grid)
    requires Inv(s, g)
    ensures Inv(System(AllWiped(s.zones), s.entries), g)
    ensures forall i :: 0 <= i < |s.entries| ==>
      Bytes(AllWiped(s.zones), s.entries[i].file) == Bytes(s.zones, s.entries[i].file)
  {
    hide FileOk, Bytes, Separate, ZonesOk, ExtentsOk;
    var b := AllWiped(s.zones);
    forall i | 0 <= i < |s.entries|
      ensures FileOk(b, s.entries[i].file, g) && ExtentsOk(b, s.entries[i].extra)
      ensures Bytes(b, s.entries[i].file) == Bytes(s.zones, s.entries[i].file)
    {
      ResetKeepsOne(s, i, g);
    }
    WipeAllOk(s.zones, g);
  }

  lemma WipeAllOk(a: seq<Zone>, g: Grid)
    requires g.bs > 0 && ZonesOk(a, g.bs, g.zoneSize)
    ensures ZonesOk(AllWiped(a), g.bs, g.zoneSize)
  {
    ZeroAligned(g.bs);
  }

  lemma ResetKeepsOne(s: System, i: nat, g: Grid)
    requires Inv(s, g) && i < |s.entries|
    ensures var b := AllWiped(s.zones);
      && FileOk(b, s.entries[i].file, g) && ExtentsOk(b, s.entries[i].extra)
      && Bytes(b, s.entries[i].file) == Bytes(s.zones, s.entries[i].file)
  {
    hide FileOk, Bytes, Separate, ZonesOk, ExtentsOk, Balanced, AllSeparate, Unused, AllWiped, TotalUse;
    var a, b, x := s.zones, AllWiped(s.zones), s.entries[i];
    HeldUnwiped(s, i, g);
    ContentUnder(a, b, x.extra);
    HomeOf(a, x.file, g);
    SomeTogether(a, x.file, g);
    FileKept(a, b, x.file, g);
  }

  lemma HeldUnwiped(s: System, i: nat, g: Grid)
    requires Inv(s, g) && i < |s.entries|
    ensures var a, b, x := s.zones, AllWiped(s.zones), s.entries[i];
      && GrownUnder(a, b, x.extra) && GrownUnder(a, b, Logical(x.file))
      && (x.file.saved.extentStart.Some? ==> x.file.home < |a| == |b| && b[x.file.home] == a[x.file.home])
  {
    hide FileOk, Separate, ZonesOk, ExtentsOk, Balanced, AllSeparate, Unused, TotalUse;
    var a, b, x := s.zones, AllWiped(s.zones), s.entries[i];
    var n := |Logical(x.file)|;
    forall k | 0 <= k < |Held(x)| && Held(x)[k].zone < |a| ensures b[Held(x)[k].zone] == a[Held(x)[k].zone] {
      var z := Held(x)[k].zone;
      if Unused(a[z]) { ResetSpares(s, i, z, g); }
    }
    assert forall k :: 0 <= k < n ==> Held(x)[k] == Logical(x.file)[k];
    assert forall k :: 0 <= k < |x.extra| ==> Held(x)[n + k] == x.extra[k];
    HomeOf(a, x.file, g);
    var z := x.file.home;
    if x.file.saved.extentStart.Some? && Unused(a[z]) { ResetSpares(s, i, z, g); }
  }

  lemma SomeTogether(a: seq<Zone>, f: File, g: Grid)
    requires g.bs > 0 && FileOk(a, f, g)
    ensures f.extentStart.Some? <==> f.saved.extentStart.Some?
  {
    hide Covered;
  }

  // ---------------------------------------------------------------- garbage collection

  /** A copy of one extent by the collector, complete and not too long, for a file nobody writes. */
  predicate Copying(s: System, i: nat, k: nat, b: seq<Zone>, e': Extent, g: Grid) {
    && 0 < g.bs < W32 && i < |s.entries| && k < |s.entries[i].file.extents|
    && s.entries[i].file.extentStart.None? && ZonesOk(b, g.bs, g.zoneSize)
    && Relocated(s.zones, s.entries[i].file.extents[k], b, e', true, g.bs)
    && e' != s.entries[i].file.extents[k] && e'.length < W32
  }

  function AfterCopy(s: System, i: nat, b: seq<Zone>, e': Extent): System
    requires i < |s.entries|
  {
    System(b, s.entries[i := Entry(s.entries[i].file, s.entries[i].extra + [e'])])
  }

  lemma CopyTarget(s: System, i: nat, k: nat, b: seq<Zone>, e': Extent, y: File, g: Grid)
    requires Inv(s, g) && Copying(s, i, k, b, e', g) && FileOk(s.zones, y, g)
    ensures Grown(s.zones, b) && e'.zone < |b| == |s.zones|
    ensures y.saved.extentStart.Some? ==> y.home < |b| && e'.zone != y.home && b[y.home] == s.zones[y.home]
    ensures e'.start == s.zones[e'.zone].start + |s.zones[e'.zone].data|
  {
    hide FileOk, ZonesOk, AllSeparate, Balanced, AllOk;
    if y.saved.extentStart.Some? { HomeHeld(s.zones, y, g); }
  }

  lemma CopyKeepsFile(s: System, i: nat, k: nat, b: seq<Zone>, e': Extent, y: File, g: Grid)
    requires Inv(s, g) && Copying(s, i, k, b, e', g) && FileOk(s.zones, y, g)
    ensures FileOk(b, y, g) && Bytes(b, y) == Bytes(s.zones, y)
  {
    hide FileOk, ZonesOk, AllSeparate, Balanced, AllOk, Bytes, Relocated;
    CopyTarget(s, i, k, b, e', y, g);
    SomeTogether(s.zones, y, g);
    FileKept(s.zones, b, y, g);
  }

  lemma CopyGood(s: System, i: nat, k: nat, b: seq<Zone>, e': Extent, g: Grid)
    requires Inv(s, g) && Copying(s, i, k, b, e', g)
    ensures |b| == |s.zones| && ExtentOk(b, e')
    ensures forall z :: 0 <= z < |b| ==> b[z].used == s.zones[z].used + if z == e'.zone then e'.length else 0
  {
    hide ZonesOk, AllSeparate, Balanced;
    var f := s.entries[i].file;
    LogicalOk(s.zones, f, k, g);
    RelocatedBytes(s.zones, f.extents[k], b, e', g.bs);
  }

  lemma CopySeparate(s: System, i: nat, k: nat, b: seq<Zone>, e': Extent, j: nat, g: Grid)
    requires Inv(s, g) && Copying(s, i, k, b, e', g) && j < |s.entries| && j != i
    ensures Separate(AfterCopy(s, i, b, e').entries[i], s.entries[j])
  {
    hide FileOk, ZonesOk, Balanced, Relocated, ExtentsOk;
    var x, y := s.entries[i], s.entries[j];
    SeparateAt(s.entries, i, j);
    CopyTarget(s, i, k, b, e', y.file, g);
    HeldOk(s.zones, y, g);
    var x' := Entry(x.file, x.extra + [e']);
    assert Held(x') == Held(x) + [e'];
    forall m, n | 0 <= m < |Held(x')| && 0 <= n < |Held(y)| ensures Disjoint(Held(x')[m], Held(y)[n]) {
      if m < |Held(x)| {
        assert Disjoint(Held(x)[m], Held(y)[n]);
      } else {
        Behind(s.zones, Held(y), n);
      }
    }
  }

  lemma Behind(a: seq<Zone>, es: seq<Extent>, n: nat)
    requires ExtentsOk(a, es) && n < |es|
    ensures es[n].zone < |a| && es[n].start + es[n].length <= a[es[n].zone].start + |a[es[n].zone].data|
  {
    assert ExtentOk(a, es[n]);
  }

  lemma CopyKeeps(s: System, i: nat, k: nat, b: seq<Zone>, e': Extent, g: Grid)
    requires Inv(s, g) && Copying(s, i, k, b, e', g)
    ensures Inv(AfterCopy(s, i, b, e'), g)
    ensures forall j :: 0 <= j < |s.entries| ==> Bytes(b, s.entries[j].file) == Bytes(s.zones, s.entries[j].file)
  {
    hide FileOk, ZonesOk, Separate, Relocated, ExtentsOk, Bytes, UsedBy, ExtentOk;
    var x' := AfterCopy(s, i, b, e').entries[i];
    CopyGood(s, i, k, b, e', g);
    forall j | 0 <= j < |s.entries|
      ensures FileOk(b, s.entries[j].file, g) && Bytes(b, s.entries[j].file) == Bytes(s.zones, s.entries[j].file)
      ensures ExtentsOk(b, s.entries[j].extra) && (j != i ==> Separate(x', s.entries[j]))
    {
      CopyTarget(s, i, k, b, e', s.entries[j].file, g);
      CopyKeepsFile(s, i, k, b, e', s.entries[j].file, g);
      ContentKept(s.zones, b, s.entries[j].extra);
      if j != i { CopySeparate(s, i, k, b, e', j, g); }
    }
    SeparateUpdate(s.entries, i, x');
    SnocContent(b, s.entries[i].extra, e');
    forall z | 0 <= z < |b| ensures b[z].used == TotalUse(s.entries[i := x'], z) {
      TotalUseUpdate(s.entries, i, x', z);
      Snoc(s.entries[i].extra, e', z);
    }
  }

  /** The new list is recorded: what is in it was held before, and so is what is now to be freed. */
  predicate Relisting(s: System, i: nat, fs: seq<Extent>, extra: seq<Extent>, g: Grid) {
    && g.bs > 0 && i < |s.entries| && s.entries[i].file.extentStart.None?
    && FileOk(s.zones, Relisted(s.entries[i].file, fs), g)
    && (forall e :: e in fs + extra ==> e in Held(s.entries[i]))
    && (forall z :: 0 <= z < |s.zones| ==> UsedBy(fs, z) + UsedBy(extra, z) == EntryUse(s.entries[i], z))
  }

  /** An entry that holds nothing its predecessor did not. */
  lemma SeparateFewer(x: Entry, x': Entry, y: Entry)
    requires Separate(x, y) && (forall e :: e in Held(x') ==> e in Held(x))
    requires x'.file.active.None? && x'.file.saved.extentStart.None?
    ensures Separate(x', y)
  {
    forall i, j | 0 <= i < |Held(x')| && 0 <= j < |Held(y)| ensures Disjoint(Held(x')[i], Held(y)[j]) {
      assert Held(x')[i] in Held(x);
    }
    if y.file.saved.extentStart.Some? {
      forall i | 0 <= i < |Held(x')| && Held(x')[i].zone == y.file.home
        ensures Held(x')[i].start + Held(x')[i].length <= y.file.saved.extentStart.value
      {
        assert Held(x')[i] in Held(x);
      }
    }
  }

  lemma RelistKeeps(s: System, i: nat, fs: seq<Extent>, extra: seq<Extent>, g: Grid)
    requires Inv(s, g) && Relisting(s, i, fs, extra, g)
    ensures Inv(System(s.zones, s.entries[i := Entry(Relisted(s.entries[i].file, fs), extra)]), g)
  {
    hide FileOk, ZonesOk, Separate, ExtentsOk, UsedBy;
    var x, x' := s.entries[i], Entry(Relisted(s.entries[i].file, fs), extra);
    ClosedState(s.zones, x.file, g);
    assert Held(x') == fs + extra;
    forall j | 0 <= j < |s.entries| && j != i ensures Separate(x', s.entries[j]) {
      SeparateAt(s.entries, i, j);
      SeparateFewer(x, x', s.entries[j]);
    }
    SeparateUpdate(s.entries, i, x');
    HeldOk(s.zones, x, g);
    SubsetOk(s.zones, Held(x), extra);
    forall z | 0 <= z < |s.zones| ensures s.zones[z].used == TotalUse(s.entries[i := x'], z) {
      TotalUseUpdate(s.entries, i, x', z);
    }
  }

  lemma ClosedState(a: seq<Zone>, f: File, g: Grid)
    requires g.bs > 0 && FileOk(a, f, g) && f.extentStart.None?
    ensures f.active.None? && f.saved.extentStart.None? && Logical(f) == f.extents
  {
    hide Covered;
  }

  lemma SubsetOk(zs: seq<Zone>, es: seq<Extent>, fs: seq<Extent>)
    requires ExtentsOk(zs, es) && (forall e :: e in fs ==> e in es)
    ensures ExtentsOk(zs, fs)
  {
    forall i | 0 <= i < |fs| ensures ExtentOk(zs, fs[i]) {
      assert fs[i] in es;
      var k :| 0 <= k < |es| && es[k] == fs[i];
    }
  }

  /** What MigrateFileExtents promises of its file and the zones, as a step of the whole. */
  predicate Migrating(s: System, i: nat, b: seq<Zone>, fs: seq<Extent>, g: Grid) {
    && g.bs > 0 && i < |s.entries| && s.entries[i].file.extentStart.None?
    && ZonesOk(b, g.bs, g.zoneSize) && Grown(s.zones, b)
    && HoldersKept(s.zones, b) && Placed(s.zones, s.entries[i].file.extents, fs)
    && Recounted(s.zones, s.entries[i].file.extents, b, fs)
    && FileOk(b, Relisted(s.entries[i].file, fs), g)
  }

  /** A whole migration keeps all files apart, and the bytes of every other file. */
  lemma MigrationKeeps(s: System, i: nat, b: seq<Zone>, fs: seq<Extent>, g: Grid)
    requires Inv(s, g) && Migrating(s, i, b, fs, g)
    ensures Inv(System(b, s.entries[i := Entry(Relisted(s.entries[i].file, fs), s.entries[i].extra)]), g)
    ensures forall j :: 0 <= j < |s.entries| && j != i ==> Bytes(b, s.entries[j].file) == Bytes(s.zones, s.entries[j].file)
  {
    hide FileOk, ZonesOk, Separate, ExtentsOk, UsedBy, Bytes, HoldersKept, Placed;
    var x, x' := s.entries[i], Entry(Relisted(s.entries[i].file, fs), s.entries[i].extra);
    ClosedState(s.zones, x.file, g);
    forall j | 0 <= j < |s.entries| && j != i
      ensures Separate(x', s.entries[j]) && FileOk(b, s.entries[j].file, g) && ExtentsOk(b, s.entries[j].extra)
      ensures Bytes(b, s.entries[j].file) == Bytes(s.zones, s.entries[j].file)
    {
      var y := s.entries[j];
      SeparateAt(s.entries, i, j);
      HeldOk(s.zones, y, g);
      MigratedSeparate(s.zones, x, x', y, g);
      HomeKept(s.zones, b, y.file, g);
      FileKept(s.zones, b, y.file, g);
      ContentKept(s.zones, b, y.extra);
    }
    SeparateUpdate(s.entries, i, x');
    ContentKept(s.zones, b, x.extra);
    forall z | 0 <= z < |b| ensures b[z].used == TotalUse(s.entries[i := x'], z) {
      TotalUseUpdate(s.entries, i, x', z);
    }
  }

  lemma HomeKept(a: seq<Zone>, b: seq<Zone>, y: File, g: Grid)
    requires GridOk(g) && FileOk(a, y, g) && HoldersKept(a, b)
    ensures y.extentStart.Some? ==> y.home < |a| == |b| && SameZone(a[y.home], b[y.home])
  {
    hide Covered;
    SomeTogether(a, y, g);
    if y.saved.extentStart.Some? { HomeHeld(a, y, g); }
  }

  lemma MigratedSeparate(a: seq<Zone>, x: Entry, x': Entry, y: Entry, g: Grid)
    requires GridOk(g) && Separate(x, y) && FileOk(a, y.file, g) && ExtentsOk(a, Held(y))
    requires x.file.active.None? && Logical(x.file) == x.file.extents && x'.extra == x.extra
    requires x'.file == Relisted(x.file, x'.file.extents) && x.file.extentStart.None?
    requires Placed(a, x.file.extents, x'.file.extents)
    ensures Separate(x', y)
  {
    hide FileOk;
    var es, fs := x.file.extents, x'.file.extents;
    assert Held(x') == fs + x.extra && Held(x) == es + x.extra;
    forall m, n | 0 <= m < |Held(x')| && 0 <= n < |Held(y)| ensures Disjoint(Held(x')[m], Held(y)[n]) {
      Behind(a, Held(y), n);
      if m < |fs| {
        if fs[m] == es[m] { assert Held(x)[m] == es[m]; }
      } else {
        assert Held(x')[m] == Held(x)[|es| + (m - |fs|)];
      }
    }
    if y.file.saved.extentStart.Some? {
      HomeHeld(a, y.file, g);
      forall m | 0 <= m < |Held(x')| && Held(x')[m].zone == y.file.home
        ensures Held(x')[m].start + Held(x')[m].length <= y.file.saved.extentStart.value
      {
        if m < |fs| {
          if fs[m] == es[m] { assert Held(x)[m] == es[m]; }
        } else {
          assert Held(x')[m] == Held(x)[|es| + (m - |fs|)];
        }
      }
    }
  }

  /** The zones with an entry's counts taken off. */
  function Uncounted(zs: seq<Zone>, es: seq<Extent>, fs: seq<Extent>): seq<Zone>
    requires forall z :: 0 <= z < |zs| ==> UsedBy(es, z) + UsedBy(fs, z) <= zs[z].used
  {
    seq(|zs|, z requires 0 <= z < |zs| => zs[z].(used := zs[z].used - UsedBy(es, z) - UsedBy(fs, z)))
  }

  lemma UncountedKeeps(s: System, es: seq<Extent>, fs: seq<Extent>, g: Grid)
    requires GridOk(g) && ZonesOk(s.zones, g.bs, g.zoneSize) && AllOk(s, g)
    requires forall z :: 0 <= z < |s.zones| ==> UsedBy(es, z) + UsedBy(fs, z) <= s.zones[z].used
    ensures var b := Uncounted(s.zones, es, fs);
      && ZonesOk(b, g.bs, g.zoneSize) && AllOk(System(b, s.entries), g)
      && forall j :: 0 <= j < |s.entries| ==> Bytes(b, s.entries[j].file) == Bytes(s.zones, s.entries[j].file)
  {
    hide FileOk, UsedBy, Bytes, ExtentsOk;
    var b := Uncounted(s.zones, es, fs);
    assert Grown(s.zones, b);
    forall j | 0 <= j < |s.entries|
      ensures FileOk(b, s.entries[j].file, g) && ExtentsOk(b, s.entries[j].extra)
      ensures Bytes(b, s.entries[j].file) == Bytes(s.zones, s.entries[j].file)
    {
      HomeOf(s.zones, s.entries[j].file, g);
      SomeTogether(s.zones, s.entries[j].file, g);
      FileKept(s.zones, b, s.entries[j].file, g);
      ContentKept(s.zones, b, s.entries[j].extra);
    }
  }

  /** The old places are freed ... */
  lemma FreeKeeps(s: System, i: nat, g: Grid)
    requires Inv(s, g) && i < |s.entries|
    ensures forall z :: 0 <= z < |s.zones| ==> UsedBy(s.entries[i].extra, z) + UsedBy([], z) <= s.zones[z].used
    ensures Inv(System(Uncounted(s.zones, s.entries[i].extra, []), s.entries[i := Entry(s.entries[i].file, [])]), g)
  {
    hide FileOk, Separate, ExtentsOk, ZonesOk;
    var x, x' := s.entries[i], Entry(s.entries[i].file, []);
    forall z | 0 <= z < |s.zones| ensures UsedBy(x.extra, z) + UsedBy([], z) <= s.zones[z].used {
      TotalUseMember(s.entries, i, z);
    }
    UncountedKeeps(s, x.extra, [], g);
    var b := Uncounted(s.zones, x.extra, []);
    forall j | 0 <= j < |s.entries| && j != i ensures Separate(x', s.entries[j]) {
      SeparateAt(s.entries, i, j);
      SeparateShorter(x, s.entries[j]);
    }
    SeparateUpdate(s.entries, i, x');
    forall z | 0 <= z < |b| ensures b[z].used == TotalUse(s.entries[i := x'], z) {
      TotalUseUpdate(s.entries, i, x', z);
    }
    NoneOk(b);
  }

  lemma NoneOk(zs: seq<Zone>)
    ensures ExtentsOk(zs, [])
  {
  }

  lemma SeparateShorter(x: Entry, y: Entry)
    requires Separate(x, y)
    ensures Separate(Entry(x.file, []), y)
  {
    var x' := Entry(x.file, []);
    forall i, j | 0 <= i < |Held(x')| && 0 <= j < |Held(y)| ensures Disjoint(Held(x')[i], Held(y)[j]) {
      assert Held(x')[i] == Held(x)[i];
    }
    if y.file.saved.extentStart.Some? {
      forall i | 0 <= i < |Held(x')| && Held(x')[i].zone == y.file.home
        ensures Held(x')[i].start + Held(x')[i].length <= y.file.saved.extentStart.value
      {
        assert Held(x')[i] == Held(x)[i];
      }
    }
  }

  /** ... or all places, when a file goes. */
  lemma DropKeeps(s: System, i: nat, g: Grid)
    requires Inv(s, g) && i < |s.entries|
    ensures forall z :: 0 <= z < |s.zones| ==> UsedBy(s.entries[i].file.extents, z) + UsedBy(s.entries[i].extra, z) <= s.zones[z].used
    ensures Inv(System(Uncounted(s.zones, s.entries[i].file.extents, s.entries[i].extra), s.entries[..i] + s.entries[i + 1..]), g)
  {
    hide FileOk, Separate, ExtentsOk, ZonesOk;
    var x, xs := s.entries[i], s.entries[..i] + s.entries[i + 1..];
    forall z | 0 <= z < |s.zones| ensures UsedBy(x.file.extents, z) + UsedBy(x.extra, z) <= s.zones[z].used {
      TotalUseMember(s.entries, i, z);
    }
    UncountedKeeps(s, x.file.extents, x.extra, g);
    var b := Uncounted(s.zones, x.file.extents, x.extra);
    assert forall j :: 0 <= j < |xs| ==> xs[j] == s.entries[if j < i then j else j + 1];
    forall z | 0 <= z < |b| ensures b[z].used == TotalUse(xs, z) { TotalUseWithout(s.entries, i, z); }
  }

  // ---------------------------------------------------------------- new files

  lemma CreateKeeps(s: System, sparse: bool, direct: bool, g: Grid)
    requires Inv(s, g) && (sparse ==> !direct)
    ensures Inv(System(s.zones, s.entries + [Entry(NewFile(sparse, direct), [])]), g)
  {
    hide ZonesOk, ExtentOk;
    var x := Entry(NewFile(sparse, direct), []);
    var xs := s.entries + [x];
    ZeroAligned(g.bs);
    NewFileOk(s.zones, sparse, direct, g);
    forall i, j | 0 <= i < j < |xs| ensures Separate(xs[i], xs[j]) {
      assert Held(x) == [];
    }
    forall z | 0 <= z < |s.zones| ensures s.zones[z].used == TotalUse(xs, z) {
      assert xs[..|xs| - 1] == s.entries;
    }
  }

  lemma NewFileOk(zs: seq<Zone>, sparse: bool, direct: bool, g: Grid)
    requires GridOk(g) && (sparse ==> !direct)
    ensures FileOk(zs, NewFile(sparse, direct), g)
  {
    ZeroAligned(g.bs);
  }

  lemma InvSays(s: System, i: nat, j: nat, g: Grid)
    requires Inv(s, g) && i < |s.entries| && j < |s.entries| && i != j
    ensures AllDisjoint(Held(s.entries[i]), Held(s.entries[j])) && ExtentsOk(s.zones, Held(s.entries[i]))
    ensures forall k :: 0 <= k < |Held(s.entries[i])| ==>
      var e := Held(s.entries[i])[k];
      s.zones[e.zone].start <= e.start && e.start + e.length <= s.zones[e.zone].wp
  {
    hide FileOk, Balanced;
    SeparateAt(s.entries, i, j);
    HeldOk(s.zones, s.entries[i], g);
    forall k | 0 <= k < |Held(s.entries[i])|
      ensures var e := Held(s.entries[i])[k]; s.zones[e.zone].start <= e.start && e.start + e.length <= s.zones[e.zone].wp
    {
      var e := Held(s.entries[i])[k];
      assert ExtentOk(s.zones, e);
      assert ZoneOk(s.zones[e.zone], g.bs, g.zoneSize);
    }
  }
}
