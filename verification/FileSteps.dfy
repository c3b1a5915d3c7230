/** The steps of a file being written (ZoneFile in AquaZFS/fs/io_aquafs.cc), as relations between
    values, and what every one of them keeps. */
module FileSteps {
  import opened Coding
  import opened Zoned
  import opened Extents
  import opened ZonedDevice

  /** What the last persisted record says; None stands for NO_EXTENT. */
  datatype Saved = Saved(extents: seq<Extent>, extentStart: Option<nat>, size: nat)

  /** The fields of a ZoneFile, the kind of writer it has, its persisted view, and the zone that the
      recorded extent start lies in (or ends). */
  datatype File = File(
    extents: seq<Extent>,
    active: Option<nat>,
    extentStart: Option<nat>,
    filePos: nat,
    size: nat,
    sparse: bool,
    direct: bool,
    saved: Saved,
    home: nat)

  /** Bytes a direct writer has put in the active zone since the last extent. */
  function Pending(f: File): nat {
    if f.direct && f.active.Some? && f.filePos < f.size then f.size - f.filePos else 0
  }

  /** The extents, with the pending bytes as one more: what PushExtent would leave. */
  function Logical(f: File): seq<Extent> {
    if Pending(f) == 0 || f.extentStart.None? then f.extents
    else f.extents + [Extent(f.extentStart.value, Pending(f), f.active.value)]
  }

  function HeaderSize(sparse: bool): nat {
    if sparse then SPARSE_HEADER_SIZE else 0
  }

  /** The zone takes writes right behind its data. */
  predicate Written(z: Zone) { z.wp == z.start + |z.data| }

  /** The length of a sparse write stands in front of it. */
  predicate HeaderOk(zs: seq<Zone>, e: Extent) {
    && e.zone < |zs| && e.length < W64
    && zs[e.zone].start + SPARSE_HEADER_SIZE <= e.start <= zs[e.zone].start + |zs[e.zone].data|
    && var at := e.start - zs[e.zone].start;
       zs[e.zone].data[at - SPARSE_HEADER_SIZE..at] == PutFixed64(e.length)
  }

  predicate HeadersOk(zs: seq<Zone>, es: seq<Extent>) {
    forall i :: 0 <= i < |es| ==> HeaderOk(zs, es[i])
  }

  /** The device holds, from the recorded extent start to the write pointer, the writes behind the
      extents that the record does not know of. */
  predicate Covered(zs: seq<Zone>, s: Saved, es: seq<Extent>, sparse: bool, home: nat, bs: nat)
    requires bs > 0
  {
    && |s.extents| <= |es| && es[..|s.extents|] == s.extents
    && TotalLength(s.extents) <= s.size
    && match s.extentStart
       case None => es == s.extents && s.size == TotalLength(s.extents)
       case Some(p) =>
         && home < |zs| && Written(zs[home]) && zs[home].start <= p
         && Chain(es[|s.extents|..], home, HeaderSize(sparse), p, zs[home].wp, bs)
         && (sparse ==> HeadersOk(zs, es[|s.extents|..]))
         && p + (s.size - TotalLength(s.extents)) <= zs[home].wp
  }

  predicate FileOk(zs: seq<Zone>, f: File, g: Grid)
    requires g.bs > 0
  {
    && ExtentsOk(zs, Logical(f))
    && f.size == TotalLength(Logical(f))
    && f.filePos <= f.size
    && |f.saved.extents| <= |f.extents|
    && (f.sparse ==> !f.direct)
    && Aligned(Pending(f), g.bs)
    && (f.direct ==> BlockMultiples(Logical(f)[|f.saved.extents|..], g.bs))
    && (f.active.Some? ==> f.active.value == f.home)
    && (f.extentStart.None? <==> f.saved.extentStart.None?)
    && (f.extentStart.None? ==> f.active.None?)
    && (f.extentStart.Some? ==> AtHome(zs, f))
    && Covered(zs, f.saved, Logical(f), f.sparse, f.home, g.bs)
  }

  /** The zone the file writes to, or has filled and given up. */
  predicate AtHome(zs: seq<Zone>, f: File)
    requires f.extentStart.Some?
  {
    && f.home < |zs| && Written(zs[f.home]) && zs[f.home].start <= f.extentStart.value
    && f.extentStart.value + Pending(f) == zs[f.home].wp
    && (if f.active.Some? then zs[f.home].busy else IsFull(zs[f.home]))
    && (IsFull(zs[f.home]) ==> UsedBy(Logical(f), f.home) > 0)
  }

  // ---------------------------------------------------------------- what a step may do

  /** Zones that others hold, and full ones, are as they were; the rest has only grown. */
  predicate OthersUntouched(a: seq<Zone>, f: File, b: seq<Zone>) {
    && Grown(a, b)
    && forall i :: 0 <= i < |a| && f.active != Some(i) && (a[i].busy || IsFull(a[i])) ==> b[i] == a[i]
  }

  /** Every zone's count of live bytes moved with the file's extents. */
  predicate Ledger(a: seq<Zone>, f: File, b: seq<Zone>, g: File) {
    && |a| == |b|
    && forall i :: 0 <= i < |a| ==> b[i].used + UsedBy(f.extents, i) == a[i].used + UsedBy(g.extents, i)
  }

  /** Past everything written, or in the part of the active zone that the file has to itself. */
  predicate IsFresh(a: seq<Zone>, f: File, e: Extent) {
    && e.zone < |a|
    && (|| e.start >= a[e.zone].start + |a[e.zone].data|
        || (f.active == Some(e.zone) && f.extentStart.Some? && e.start >= f.extentStart.value))
  }

  predicate AddsFresh(a: seq<Zone>, f: File, g: File) {
    && f.extents <= g.extents
    && forall k :: |f.extents| <= k < |Logical(g)| ==> IsFresh(a, f, Logical(g)[k])
  }

  /** A zone nobody held, taken at its write pointer or later. */
  predicate TakenAt(a: seq<Zone>, j: nat, p: nat) {
    j < |a| && !a[j].busy && !IsFull(a[j]) && p >= a[j].start + |a[j].data|
  }

  /** The busy flags moved with the file's active zone. */
  predicate HoldsMove(a: seq<Zone>, f: File, b: seq<Zone>, g: File) {
    && |a| == |b|
    && (forall i :: 0 <= i < |a| ==>
          b[i].busy == (g.active == Some(i) || (a[i].busy && f.active != Some(i))))
    && (g.active.Some? && f.active != g.active ==>
          g.extentStart.Some? && TakenAt(a, g.active.value, g.extentStart.value))
    && (g.active.Some? && f.active == g.active ==>
          f.extentStart.Some? && g.extentStart.Some? && f.extentStart.value <= g.extentStart.value)
  }

  predicate SavedMoves(a: seq<Zone>, f: File, g: File) {
    g.saved.extentStart.Some? ==>
      || (f.saved.extentStart.Some? && f.home == g.home && f.saved.extentStart.value <= g.saved.extentStart.value)
      || TakenAt(a, g.home, g.saved.extentStart.value)
  }

  /** One step, or several, of a file that leaves every other file alone. */
  predicate Moved(a: seq<Zone>, f: File, b: seq<Zone>, g: File) {
    && OthersUntouched(a, f, b) && Ledger(a, f, b, g) && AddsFresh(a, f, g)
    && HoldsMove(a, f, b, g) && SavedMoves(a, f, g)
    && f.sparse == g.sparse && f.direct == g.direct
  }

  lemma MovedNot(a: seq<Zone>, f: File, grid: Grid)
    requires grid.bs > 0 && FileOk(a, f, grid)
    ensures Moved(a, f, a, f)
  {
  }

  lemma MovedTwice(a: seq<Zone>, f: File, b: seq<Zone>, g: File, c: seq<Zone>, h: File, grid: Grid)
    requires grid.bs > 0 && FileOk(a, f, grid) && FileOk(b, g, grid)
    requires Moved(a, f, b, g) && Moved(b, g, c, h)
    ensures Moved(a, f, c, h)
  {
    UntouchedTwice(a, f, b, g, c);
    FreshTwice(a, f, b, g, h);
    SavedBelow(a, f, grid);
    HoldsTwice(a, f, b, g, c, h);
    SavedTwice(a, f, b, g, h);
  }

  lemma SavedBelow(a: seq<Zone>, f: File, grid: Grid)
    requires grid.bs > 0 && FileOk(a, f, grid)
    ensures f.saved.extentStart.Some? ==> f.home < |a| && f.saved.extentStart.value <= a[f.home].start + |a[f.home].data|
    ensures f.active.Some? ==>
      && f.active.value == f.home < |a| && f.extentStart.Some? && f.saved.extentStart.Some? && a[f.home].busy
      && f.extentStart.value <= a[f.home].start + |a[f.home].data|
  {
    if f.saved.extentStart.Some? {
      ChainForward(Logical(f)[|f.saved.extents|..], f.home, HeaderSize(f.sparse),
        f.saved.extentStart.value, a[f.home].wp, grid.bs);
    }
  }

  lemma UntouchedTwice(a: seq<Zone>, f: File, b: seq<Zone>, g: File, c: seq<Zone>)
    requires OthersUntouched(a, f, b) && HoldsMove(a, f, b, g) && OthersUntouched(b, g, c)
    ensures OthersUntouched(a, f, c)
  {
  }

  lemma FreshTwice(a: seq<Zone>, f: File, b: seq<Zone>, g: File, h: File)
    requires OthersUntouched(a, f, b) && HoldsMove(a, f, b, g) && AddsFresh(a, f, g) && AddsFresh(b, g, h)
    ensures AddsFresh(a, f, h)
  {
    forall k | |f.extents| <= k < |Logical(h)| ensures IsFresh(a, f, Logical(h)[k]) {
      if k < |g.extents| {
        assert Logical(h)[k] == Logical(g)[k];
      } else {
        assert IsFresh(b, g, Logical(h)[k]);
      }
    }
  }

  lemma HoldsTwice(a: seq<Zone>, f: File, b: seq<Zone>, g: File, c: seq<Zone>, h: File)
    requires OthersUntouched(a, f, b) && HoldsMove(a, f, b, g) && HoldsMove(b, g, c, h)
    requires f.active.Some? ==>
      && f.extentStart.Some? && f.active.value < |a| && a[f.active.value].busy
      && f.extentStart.value <= a[f.active.value].start + |a[f.active.value].data|
    ensures HoldsMove(a, f, c, h)
  {
  }

  lemma SavedTwice(a: seq<Zone>, f: File, b: seq<Zone>, g: File, h: File)
    requires OthersUntouched(a, f, b) && HoldsMove(a, f, b, g) && SavedMoves(a, f, g) && SavedMoves(b, g, h)
    requires f.active.Some? ==>
      && f.active.value == f.home && f.saved.extentStart.Some?
      && f.home < |a| && f.saved.extentStart.value <= a[f.home].start + |a[f.home].data|
    ensures SavedMoves(a, f, h)
  {
  }

  // ---------------------------------------------------------------- the steps

  /** What the file holds, pending bytes included. */
  function Bytes(zs: seq<Zone>, f: File): seq<Byte> {
    ListBytes(zs, Logical(f))
  }

  function ListBytes(zs: seq<Zone>, es: seq<Extent>): seq<Byte> {
    if ExtentsOk(zs, es) then Content(zs, es) else []
  }

  /** PersistMetadata. */
  function Persisted(f: File): File {
    f.(saved := Saved(f.extents, f.extentStart, f.size))
  }

  /** AllocateNewZone, once the device has given zone j. */
  function Opened(zs: seq<Zone>, f: File, j: nat): File
    requires j < |zs|
  {
    Persisted(f.(active := Some(j), extentStart := Some(zs[j].wp), filePos := f.size, home := j))
  }

  /** The same but for the count of live bytes. */
  predicate SameZone(x: Zone, y: Zone) {
    y == x.(used := y.used)
  }

  lemma CoveredKept(a: seq<Zone>, b: seq<Zone>, s: Saved, es: seq<Extent>, sparse: bool, home: nat, bs: nat)
    requires bs > 0 && Covered(a, s, es, sparse, home, bs) && GrownUnder(a, b, es)
    requires s.extentStart.Some? ==> b[home].wp == a[home].wp && b[home].data == a[home].data && b[home].start == a[home].start
    ensures Covered(b, s, es, sparse, home, bs)
  {
    hide Chain, TotalLength, HeadersOk;
    if s.extentStart.Some? && sparse { HeadersKept(a, b, es[|s.extents|..]); }
  }

  lemma HeadersKept(a: seq<Zone>, b: seq<Zone>, es: seq<Extent>)
    requires GrownUnder(a, b, es) && HeadersOk(a, es)
    ensures HeadersOk(b, es)
  {
    forall i | 0 <= i < |es| ensures HeaderOk(b, es[i]) {
      var e := es[i];
      var at := e.start - a[e.zone].start;
      assert HeaderOk(a, e);
      SlicePrefix(a[e.zone].data, b[e.zone].data, at - SPARSE_HEADER_SIZE, at);
    }
  }

  lemma SlicePrefix(s: seq<Byte>, t: seq<Byte>, i: nat, j: nat)
    requires s <= t && i <= j <= |s|
    ensures s[i..j] == t[i..j]
  {
  }

  /** A file is untouched by anything that leaves the zone it writes to alone and its bytes in place. */
  lemma FileKept(a: seq<Zone>, b: seq<Zone>, f: File, g: Grid)
    requires GridOk(g) && FileOk(a, f, g) && GrownUnder(a, b, Logical(f))
    requires f.extentStart.Some? ==> SameZone(a[f.home], b[f.home])
    ensures FileOk(b, f, g) && Bytes(b, f) == Bytes(a, f)
  {
    hide Covered, UsedBy, TotalLength, Content, ExtentsOk;
    ContentUnder(a, b, Logical(f));
    CoveredKept(a, b, f.saved, Logical(f), f.sparse, f.home, g.bs) by { HomeOf(a, f, g); }
  }

  lemma HomeOf(a: seq<Zone>, f: File, g: Grid)
    requires g.bs > 0 && FileOk(a, f, g)
    ensures f.saved.extentStart.Some? ==> f.home < |a|
  {
    hide Covered;
  }

  lemma FinishedGrown(a: seq<Zone>, b: seq<Zone>, zoneSize: nat, r: Outcome)
    requires FinishedBut(a, b, zoneSize, r)
    requires r.Took? && r.zone < |a| ==> b[r.zone].start == a[r.zone].start && b[r.zone].data == a[r.zone].data
    ensures Grown(a, b)
  {
  }

  lemma GivenUp(a: seq<Zone>, f: File, b: seq<Zone>, r: Outcome, g: Grid)
    requires GridOk(g) && FileOk(a, f, g) && f.active.None? && !r.Took?
    requires FinishedBut(a, b, g.zoneSize, r)
    ensures FileOk(b, f, g) && Moved(a, f, b, f) && Bytes(b, f) == Bytes(a, f)
  {
    FinishedGrown(a, b, g.zoneSize, r);
    AfterFinish(a, f, b, r, g);
    AddsNothing(a, f);
  }

  /** The allocator's own work on other zones does not touch the file. */
  lemma AfterFinish(a: seq<Zone>, f: File, b: seq<Zone>, r: Outcome, g: Grid)
    requires GridOk(g) && FileOk(a, f, g) && Grown(a, b) && FinishedBut(a, b, g.zoneSize, r)
    requires r.Took? ==> r.zone < |a| && !a[r.zone].busy && !IsFull(a[r.zone])
    ensures FileOk(b, f, g) && Bytes(b, f) == Bytes(a, f)
    ensures OthersUntouched(a, f, b)
  {
    assert f.extentStart.Some? ==> b[f.home] == a[f.home] by { hide Covered; }
    FileKept(a, b, f, g);
  }

  lemma AddsNothing(a: seq<Zone>, f: File)
    requires Pending(f) == 0
    ensures AddsFresh(a, f, f)
  {
  }

  lemma OpenedStep(a: seq<Zone>, f: File, b: seq<Zone>, j: nat, file: nat, g: Grid)
    requires GridOk(g) && FileOk(a, f, g) && ZonesOk(a, g.bs, g.zoneSize) && f.active.None?
    requires FinishedBut(a, b, g.zoneSize, Took(j)) && TakenFor(a, j, b, file)
    ensures FileOk(b, f, g) && Bytes(b, f) == Bytes(a, f)
    ensures FileOk(b, Opened(b, f, j), g) && Moved(a, f, b, Opened(b, f, j))
    ensures Bytes(b, Opened(b, f, j)) == Bytes(a, f)
  {
    var f' := Opened(b, f, j);
    FinishedGrown(a, b, g.zoneSize, Took(j));
    AfterFinish(a, f, b, Took(j), g);
    TakenWritten(a, j, b, file, g);
    OpenedOk(b, f, j, g);
    OpenedMoved(a, f, b, j, file, g);
  }

  lemma TakenWritten(a: seq<Zone>, j: nat, b: seq<Zone>, file: nat, g: Grid)
    requires g.bs > 0 && ZonesOk(a, g.bs, g.zoneSize) && TakenFor(a, j, b, file)
    ensures Written(b[j]) && !IsFull(b[j]) && !IsFull(a[j]) && b[j].used == a[j].used
    ensures b[j].data == a[j].data && b[j].start == a[j].start
  {
    assert ZoneOk(a[j], g.bs, g.zoneSize);
  }

  lemma OpenedOk(b: seq<Zone>, f: File, j: nat, g: Grid)
    requires GridOk(g) && FileOk(b, f, g) && f.active.None? && j < |b|
    requires b[j].busy && Written(b[j]) && !IsFull(b[j])
    ensures FileOk(b, Opened(b, f, j), g) && Bytes(b, Opened(b, f, j)) == Bytes(b, f)
  {
    hide ExtentsOk, Content, UsedBy, TotalLength, HeadersOk;
    var f' := Opened(b, f, j);
    assert Logical(f') == f.extents == Logical(f);
    assert f.extents[|f.extents|..] == [];
    assert Covered(b, f'.saved, f.extents, f.sparse, j, g.bs) by { HeadersOfNone(b); }
  }

  lemma HeadersOfNone(zs: seq<Zone>)
    ensures HeadersOk(zs, [])
  {
  }

  lemma OpenedMoved(a: seq<Zone>, f: File, b: seq<Zone>, j: nat, file: nat, g: Grid)
    requires g.bs > 0 && f.active.None? && FinishedBut(a, b, g.zoneSize, Took(j)) && TakenFor(a, j, b, file)
    requires OthersUntouched(a, f, b) && Written(b[j]) && !IsFull(a[j])
    ensures Moved(a, f, b, Opened(b, f, j))
  {
    hide UsedBy;
  }

  /** Zone::Append of whole blocks by a direct writer. */
  function Extended(f: File, n: nat): File { f.(size := f.size + n) }

  lemma ExtendStep(a: seq<Zone>, f: File, s: seq<Byte>, b: seq<Zone>, g: Grid)
    requires GridOk(g) && FileOk(a, f, g) && f.active.Some? && f.direct
    requires s != [] && Aligned(|s|, g.bs) && |s| <= a[f.active.value].capacity
    requires b == a[f.active.value := Appended(a[f.active.value], s)]
    ensures FileOk(b, Extended(f, |s|), g) && Moved(a, f, b, Extended(f, |s|))
    ensures Bytes(b, Extended(f, |s|)) == Bytes(a, f) + s
  {
    hide Covered, ExtentsOk, UsedBy, TotalLength, Content, Moved, AtHome, ZoneOk;
    var f' := Extended(f, |s|);
    ExtendBytes(a, f, s, b, g);
    AlignedSum(Pending(f), |s|, g.bs);
    ExtendHome(a, f, s, b, g);
    ExtendCovered(a, f, s, b, g);
    ExtendMoved(a, f, s, b, g);
  }

  lemma ExtendMoved(a: seq<Zone>, f: File, s: seq<Byte>, b: seq<Zone>, g: Grid)
    requires GridOk(g) && FileOk(a, f, g) && f.active.Some? && f.direct
    requires |s| <= a[f.active.value].capacity
    requires b == a[f.active.value := Appended(a[f.active.value], s)]
    ensures Moved(a, f, b, Extended(f, |s|))
  {
    hide Covered, ExtentsOk, UsedBy, TotalLength, HeadersOk;
  }

  lemma ExtendHome(a: seq<Zone>, f: File, s: seq<Byte>, b: seq<Zone>, g: Grid)
    requires GridOk(g) && FileOk(a, f, g) && f.active.Some? && f.direct
    requires s != [] && |s| <= a[f.active.value].capacity
    requires b == a[f.active.value := Appended(a[f.active.value], s)]
    ensures AtHome(b, Extended(f, |s|))
  {
    hide Covered, ExtentsOk, TotalLength;
    var f' := Extended(f, |s|);
    Snoc(f.extents, Extent(f.extentStart.value, Pending(f'), f.home), f.home);
  }

  lemma ExtendBytes(a: seq<Zone>, f: File, s: seq<Byte>, b: seq<Zone>, g: Grid)
    requires GridOk(g) && FileOk(a, f, g) && f.active.Some? && f.direct
    requires s != [] && |s| <= a[f.active.value].capacity
    requires b == a[f.active.value := Appended(a[f.active.value], s)]
    ensures ExtentsOk(b, Logical(Extended(f, |s|))) && Extended(f, |s|).size == TotalLength(Logical(Extended(f, |s|)))
    ensures Bytes(b, Extended(f, |s|)) == Bytes(a, f) + s
  {
    hide Covered, UsedBy, ExtentBytes, ExtentOk, Content, TotalLength, ExtentsOk, BlockMultiples;
    var e := Extent(f.extentStart.value, Pending(f), f.home);
    var e' := Extent(f.extentStart.value, Pending(f) + |s|, f.home);
    assert Logical(Extended(f, |s|)) == f.extents + [e'];
    LogicalParts(a, f);
    ExtentGrows(a, f, s, b, e');
    ContentKept(a, b, f.extents);
    SnocContent(b, f.extents, e');
    Snoc(f.extents, e', 0);
    Snoc(f.extents, e, 0);
    if Pending(f) > 0 { SnocContent(a, f.extents, e); }
  }

  lemma LogicalParts(zs: seq<Zone>, f: File)
    requires ExtentsOk(zs, Logical(f))
    ensures ExtentsOk(zs, f.extents)
    ensures Pending(f) > 0 && f.extentStart.Some? ==> ExtentOk(zs, Extent(f.extentStart.value, Pending(f), f.active.value))
  {
    hide ExtentOk;
    forall i | 0 <= i < |f.extents| ensures ExtentOk(zs, f.extents[i]) { assert ExtentOk(zs, Logical(f)[i]); }
    if Pending(f) > 0 && f.extentStart.Some? { assert ExtentOk(zs, Logical(f)[|f.extents|]); }
  }

  lemma ExtentGrows(a: seq<Zone>, f: File, s: seq<Byte>, b: seq<Zone>, e': Extent)
    requires f.active == Some(f.home) && f.home < |a| && f.extentStart.Some? && AtHome(a, f)
    requires s != [] && |s| <= a[f.home].capacity && b == a[f.home := Appended(a[f.home], s)]
    requires e' == Extent(f.extentStart.value, Pending(f) + |s|, f.home)
    ensures Grown(a, b) && ExtentOk(b, e')
    ensures Pending(f) == 0 ==> ExtentBytes(b, e') == s
    ensures Pending(f) > 0 ==>
      var e := Extent(f.extentStart.value, Pending(f), f.home);
      ExtentOk(a, e) && ExtentBytes(b, e') == ExtentBytes(a, e) + s
  {
    hide UsedBy;
  }

  lemma ExtendCovered(a: seq<Zone>, f: File, s: seq<Byte>, b: seq<Zone>, g: Grid)
    requires GridOk(g) && FileOk(a, f, g) && f.active.Some? && f.direct
    requires s != [] && Aligned(|s|, g.bs) && |s| <= a[f.active.value].capacity
    requires b == a[f.active.value := Appended(a[f.active.value], s)]
    ensures Covered(b, f.saved, Logical(Extended(f, |s|)), f.sparse, f.home, g.bs)
  {
    hide ExtentsOk, UsedBy, TotalLength;
    var e := Extent(f.extentStart.value, Pending(f), f.home);
    var e' := Extent(f.extentStart.value, Pending(f) + |s|, f.home);
    var tail := f.extents[|f.saved.extents|..];
    var p := f.saved.extentStart.value;
    assert (f.extents + [e])[|f.saved.extents|..] == tail + [e];
    assert (f.extents + [e'])[|f.saved.extents|..] == tail + [e'];
    if Pending(f) > 0 {
      ChainUnsnoc(tail, e, f.home, 0, p, a[f.home].wp, g.bs);
    }
    ChainSnoc(tail, e', f.home, 0, p, f.extentStart.value, g.bs);
    AlignedSum(Pending(f), |s|, g.bs);
  }

  // ---------------------------------------------------------------- buffered and sparse writes

  /** One buffered write as it goes to the device. */
  function Frame(sparse: bool, p: seq<Byte>, bs: nat): (s: seq<Byte>)
    requires bs > 0 && |p| < W64
    ensures |s| == Padded(HeaderSize(sparse) + |p|, bs)
  {
    (if sparse then PutFixed64(|p|) else []) + p + Zeros(Pad(HeaderSize(sparse) + |p|, bs))
  }

  /** The zone after the write, and the extent it adds. */
  function Stored(z: Zone, sparse: bool, p: seq<Byte>, bs: nat): Zone
    requires bs > 0 && |p| < W64 && Padded(HeaderSize(sparse) + |p|, bs) <= z.capacity
  {
    Appended(z, Frame(sparse, p, bs))
  }

  function NewExtent(f: File, n: nat): Extent
    requires f.extentStart.Some?
  {
    Extent(f.extentStart.value + HeaderSize(f.sparse), n, f.home)
  }

  /** There is a zone open with room for one more write of `p`. */
  predicate Fits(a: seq<Zone>, f: File, p: seq<Byte>, g: Grid) {
    && g.bs > 0 && f.active == Some(f.home) && f.home < |a| && f.extentStart.Some? && !f.direct
    && p != [] && |p| < W64 && Padded(HeaderSize(f.sparse) + |p|, g.bs) <= a[f.home].capacity
  }

  /** The write has reached the device ... */
  function AfterStore(a: seq<Zone>, f: File, p: seq<Byte>, g: Grid): seq<Zone>
    requires Fits(a, f, p, g)
  {
    a[f.home := Stored(a[f.home], f.sparse, p, g.bs)]
  }

  /** ... and is counted in its zone ... */
  function AfterCount(a: seq<Zone>, f: File, p: seq<Byte>, g: Grid): seq<Zone>
    requires Fits(a, f, p, g)
  {
    var z := Stored(a[f.home], f.sparse, p, g.bs);
    a[f.home := z.(used := z.used + |p|)]
  }

  /** ... and listed in the file. */
  function Segmented(a: seq<Zone>, f: File, p: seq<Byte>, g: Grid): (f': File)
    requires Fits(a, f, p, g)
    ensures Logical(f') == f'.extents
  {
    f.(extents := f.extents + [NewExtent(f, |p|)], size := f.size + |p|,
       extentStart := Some(a[f.home].wp + Padded(HeaderSize(f.sparse) + |p|, g.bs)))
  }

  lemma StoredOk(a: seq<Zone>, f: File, p: seq<Byte>, g: Grid)
    requires GridOk(g) && FileOk(a, f, g) && Fits(a, f, p, g)
    ensures var b := AfterStore(a, f, p, g);
      && Grown(a, b) && ExtentOk(b, NewExtent(f, |p|)) && ExtentBytes(b, NewExtent(f, |p|)) == p
      && (f.sparse ==> HeaderOk(b, NewExtent(f, |p|)))
  {
    hide Covered, UsedBy, TotalLength, ExtentsOk, PutFixed64, Zeros;
    var b := AfterStore(a, f, p, g);
    var h, q, t := if f.sparse then PutFixed64(|p|) else [], |a[f.home].data|, Zeros(Pad(HeaderSize(f.sparse) + |p|, g.bs));
    var d := b[f.home].data;
    assert d == a[f.home].data + (h + p + t);
    assert d[q..q + |h|] == h;
    assert d[q + |h|..q + |h| + |p|] == p;
  }

  /** A crash between the write and the update of the file finds the write covered. */
  lemma StoredCovered(a: seq<Zone>, f: File, p: seq<Byte>, g: Grid)
    requires GridOk(g) && FileOk(a, f, g) && Fits(a, f, p, g)
    ensures Covered(AfterStore(a, f, p, g), f.saved, Segmented(a, f, p, g).extents, f.sparse, f.home, g.bs)
  {
    hide ExtentsOk, UsedBy, TotalLength, HeadersOk, HeaderOk;
    var b := AfterStore(a, f, p, g);
    StoredOk(a, f, p, g);
    var e := NewExtent(f, |p|);
    var k := |f.saved.extents|;
    var tail := f.extents[k..];
    assert Logical(f) == f.extents;
    assert (f.extents + [e])[k..] == tail + [e];
    ChainSnoc(tail, e, f.home, HeaderSize(f.sparse), f.saved.extentStart.value, f.extentStart.value, g.bs);
    if f.sparse {
      HeadersKept(a, b, tail);
      HeadersSnoc(b, tail, e);
    }
  }

  lemma HeadersSnoc(zs: seq<Zone>, es: seq<Extent>, e: Extent)
    requires HeadersOk(zs, es) && HeaderOk(zs, e)
    ensures HeadersOk(zs, es + [e])
  {
  }

  lemma SegmentStep(a: seq<Zone>, f: File, p: seq<Byte>, g: Grid)
    requires GridOk(g) && FileOk(a, f, g) && Fits(a, f, p, g)
    ensures FileOk(AfterCount(a, f, p, g), Segmented(a, f, p, g), g)
    ensures Moved(a, f, AfterCount(a, f, p, g), Segmented(a, f, p, g))
    ensures Bytes(AfterCount(a, f, p, g), Segmented(a, f, p, g)) == Bytes(a, f) + p
  {
    hide Covered, ExtentsOk, UsedBy, TotalLength, HeadersOk, Content, ExtentOk, ExtentBytes, Moved, AtHome;
    var m, b, f' := AfterStore(a, f, p, g), AfterCount(a, f, p, g), Segmented(a, f, p, g);
    assert Grown(m, b);
    StoredCovered(a, f, p, g);
    CoveredKept(m, b, f.saved, f'.extents, f.sparse, f.home, g.bs);
    SegmentBytes(a, f, p, g);
    SegmentHome(a, f, p, g);
    SegmentMoved(a, f, p, g);
  }

  lemma StoredBytes(a: seq<Zone>, f: File, p: seq<Byte>, g: Grid)
    requires GridOk(g) && FileOk(a, f, g) && Fits(a, f, p, g)
    ensures var m, es := AfterStore(a, f, p, g), Segmented(a, f, p, g).extents;
      ExtentsOk(m, es) && ListBytes(m, es) == Bytes(a, f) + p
  {
    hide Covered, UsedBy, ExtentOk, ExtentBytes, AtHome;
    StoredOk(a, f, p, g);
    assert Logical(f) == f.extents;
    ContentKept(a, AfterStore(a, f, p, g), f.extents);
    SnocContent(AfterStore(a, f, p, g), f.extents, NewExtent(f, |p|));
  }

  lemma SegmentBytes(a: seq<Zone>, f: File, p: seq<Byte>, g: Grid)
    requires GridOk(g) && FileOk(a, f, g) && Fits(a, f, p, g)
    ensures ExtentsOk(AfterCount(a, f, p, g), Segmented(a, f, p, g).extents)
    ensures Bytes(AfterCount(a, f, p, g), Segmented(a, f, p, g)) == Bytes(a, f) + p
    ensures TotalLength(Segmented(a, f, p, g).extents) == f.size + |p|
  {
    hide Covered, UsedBy, ExtentOk, ExtentBytes, AtHome;
    var m, b, e := AfterStore(a, f, p, g), AfterCount(a, f, p, g), NewExtent(f, |p|);
    StoredBytes(a, f, p, g);
    assert Grown(m, b);
    ContentKept(m, b, f.extents + [e]);
    Snoc(f.extents, e, 0);
  }

  lemma SegmentHome(a: seq<Zone>, f: File, p: seq<Byte>, g: Grid)
    requires GridOk(g) && FileOk(a, f, g) && Fits(a, f, p, g)
    ensures AtHome(AfterCount(a, f, p, g), Segmented(a, f, p, g))
  {
    hide Covered, ExtentsOk, TotalLength;
    Snoc(f.extents, NewExtent(f, |p|), f.home);
  }

  lemma SegmentMoved(a: seq<Zone>, f: File, p: seq<Byte>, g: Grid)
    requires GridOk(g) && FileOk(a, f, g) && Fits(a, f, p, g)
    ensures Moved(a, f, AfterCount(a, f, p, g), Segmented(a, f, p, g))
  {
    hide Covered, ExtentsOk, TotalLength, UsedBy;
    var b, f' := AfterCount(a, f, p, g), Segmented(a, f, p, g);
    forall i | 0 <= i < |a| ensures b[i].used + UsedBy(f.extents, i) == a[i].used + UsedBy(f'.extents, i) {
      Snoc(f.extents, NewExtent(f, |p|), i);
    }
    assert OthersUntouched(a, f, b) && HoldsMove(a, f, b, f') && AddsFresh(a, f, f');
  }

  // ---------------------------------------------------------------- PushExtent, close, persist

  function Pushed(zs: seq<Zone>, f: File): File
    requires f.active.Some? && f.active.value < |zs|
  {
    if Pending(f) == 0 then f
    else f.(extents := Logical(f), extentStart := Some(zs[f.active.value].wp), filePos := f.size)
  }

  lemma PushStep(a: seq<Zone>, f: File, b: seq<Zone>, g: Grid)
    requires GridOk(g) && FileOk(a, f, g) && f.active.Some?
    requires b == a[f.home := a[f.home].(used := a[f.home].used + Pending(f))]
    ensures FileOk(b, Pushed(b, f), g) && Moved(a, f, b, Pushed(b, f)) && Bytes(b, Pushed(b, f)) == Bytes(a, f)
    ensures Pending(Pushed(b, f)) == 0
  {
    hide Covered, ExtentsOk, UsedBy, TotalLength, HeadersOk, Content, ExtentOk, ExtentBytes;
    var f' := Pushed(b, f);
    assert Logical(f') == Logical(f);
    assert Grown(a, b);
    FileKept(a, b, f, g);
    PushMoved(a, f, b, g);
  }

  lemma PushMoved(a: seq<Zone>, f: File, b: seq<Zone>, g: Grid)
    requires GridOk(g) && FileOk(a, f, g) && f.active.Some?
    requires b == a[f.home := a[f.home].(used := a[f.home].used + Pending(f))]
    ensures Moved(a, f, b, Pushed(b, f))
  {
    hide Covered, ExtentsOk, UsedBy, TotalLength;
    var f' := Pushed(b, f);
    if Pending(f) > 0 {
      forall i | 0 <= i < |a| ensures b[i].used + UsedBy(f.extents, i) == a[i].used + UsedBy(f'.extents, i) {
        Snoc(f.extents, Extent(f.extentStart.value, Pending(f), f.home), i);
      }
      assert OthersUntouched(a, f, b) && HoldsMove(a, f, b, f') && AddsFresh(a, f, f');
    } else {
      assert b == a;
    }
  }

  lemma PersistStep(a: seq<Zone>, f: File, g: Grid)
    requires GridOk(g) && FileOk(a, f, g)
    ensures FileOk(a, Persisted(f), g) && Moved(a, f, a, Persisted(f)) && Bytes(a, Persisted(f)) == Bytes(a, f)
  {
    hide ExtentsOk, UsedBy, HeadersOk, Content, Covered;
    var f' := Persisted(f);
    assert Logical(f') == Logical(f);
    PersistCovered(a, f, g);
    if f.saved.extentStart.Some? { PersistBelow(a, f, g); }
    assert AddsFresh(a, f, f');
  }

  lemma PersistBelow(a: seq<Zone>, f: File, g: Grid)
    requires GridOk(g) && FileOk(a, f, g) && f.saved.extentStart.Some?
    ensures f.saved.extentStart.value <= f.extentStart.value
  {
    hide ExtentsOk, UsedBy, HeadersOk;
    var k := |f.saved.extents|;
    ChainForward(Logical(f)[k..], f.home, HeaderSize(f.sparse), f.saved.extentStart.value, a[f.home].wp, g.bs);
    if Pending(f) > 0 { assert Logical(f)[k..][|f.extents| - k].start == f.extentStart.value; }
  }

  lemma PersistCovered(a: seq<Zone>, f: File, g: Grid)
    requires GridOk(g) && FileOk(a, f, g)
    ensures Covered(a, Persisted(f).saved, Logical(f), f.sparse, f.home, g.bs)
  {
    hide ExtentsOk, UsedBy;
    var tail := Logical(f)[|f.extents|..];
    if Pending(f) > 0 {
      var e := Extent(f.extentStart.value, Pending(f), f.home);
      assert tail == [] + [e];
      ChainSnoc([], e, f.home, 0, f.extentStart.value, f.extentStart.value, g.bs);
      Snoc(f.extents, e, 0);
    } else {
      assert tail == [];
    }
  }

  /** Release of a zone that is full. */
  lemma CloseStep(a: seq<Zone>, f: File, b: seq<Zone>, g: Grid)
    requires GridOk(g) && FileOk(a, f, g) && f.active.Some? && Pending(f) == 0 && IsFull(a[f.home])
    requires b == a[f.home := a[f.home].(busy := false)]
    ensures FileOk(b, f.(active := None), g) && Moved(a, f, b, f.(active := None))
    ensures Bytes(b, f.(active := None)) == Bytes(a, f)
  {
    hide Covered, ExtentsOk, UsedBy, TotalLength, HeadersOk, Content, ExtentOk, ExtentBytes;
    var f' := f.(active := None);
    assert Logical(f') == Logical(f) == f.extents;
    ContentKept(a, b, f.extents);
    CoveredKept(a, b, f.saved, f.extents, f.sparse, f.home, g.bs);
    assert AddsFresh(a, f, f');
  }

  /** CloseWR: the record says that nothing is open, then the zone goes. */
  function Closed(f: File): File {
    Persisted(f.(extentStart := None)).(active := None)
  }

  lemma CloseWRStep(a: seq<Zone>, f: File, b: seq<Zone>, g: Grid)
    requires GridOk(g) && FileOk(a, f, g) && Pending(f) == 0
    requires b == if f.active.Some? then a[f.home := a[f.home].(busy := false)] else a
    ensures Covered(a, Closed(f).saved, f.extents, f.sparse, f.home, g.bs)
    ensures FileOk(b, Closed(f), g) && Moved(a, f, b, Closed(f)) && Bytes(b, Closed(f)) == Bytes(a, f)
  {
    hide ExtentsOk, UsedBy, TotalLength, HeadersOk, Content, ExtentOk, ExtentBytes;
    var f' := Closed(f);
    assert Logical(f') == Logical(f) == f.extents;
    ContentKept(a, b, f.extents);
    assert AddsFresh(a, f, f');
  }
}
