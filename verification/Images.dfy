/** What a crash finds at each point of a write: a list of images of the device and of the persisted
    record, and how each step of a file (module FileSteps) extends it. */
module Images {
  import opened Coding
  import opened Zoned
  import opened Extents
  import opened ZonedDevice
  import opened FileSteps

  /** What a crash at this point would leave, and the extents it ought to be worth. */
  datatype Image = Image(zones: seq<Zone>, saved: Saved, extents: seq<Extent>, sparse: bool, home: nat)

  predicate Safe(im: Image, g: Grid) {
    && GridOk(g) && ZonesOk(im.zones, g.bs, g.zoneSize) && ExtentsOk(im.zones, im.extents)
    && Covered(im.zones, im.saved, im.extents, im.sparse, im.home, g.bs)
    && HomeGuarded(im)
  }

  /** As long as the record has the file start in a zone, no other file can get at that zone. */
  predicate HomeGuarded(im: Image) {
    im.saved.extentStart.Some? ==> im.home < |im.zones| && (im.zones[im.home].busy || IsFull(im.zones[im.home]))
  }

  predicate AllSafe(ims: seq<Image>, g: Grid) {
    forall i :: 0 <= i < |ims| ==> Safe(ims[i], g)
  }

  function ImageBytes(im: Image): seq<Byte> { ListBytes(im.zones, im.extents) }

  predicate Through(ims: seq<Image>, from: nat, lo: seq<Byte>, hi: seq<Byte>) {
    forall i :: from <= i < |ims| ==> lo <= ImageBytes(ims[i]) <= hi
  }

  /** The file has gained exactly `s`; every image on the way holds what it held before and some of `s`. */
  predicate Progress(a: seq<Zone>, f: File, ims: seq<Image>, b: seq<Zone>, g: File, ims': seq<Image>, s: seq<Byte>, grid: Grid) {
    && GridOk(grid) && FileOk(a, f, grid) && FileOk(b, g, grid) && Moved(a, f, b, g)
    && Bytes(b, g) == Bytes(a, f) + s
    && ims <= ims' && AllSafe(ims', grid) && Through(ims', |ims|, Bytes(a, f), Bytes(b, g))
  }

  lemma ProgressNot(a: seq<Zone>, f: File, ims: seq<Image>, grid: Grid)
    requires GridOk(grid) && FileOk(a, f, grid) && AllSafe(ims, grid)
    ensures Progress(a, f, ims, a, f, ims, [], grid)
  {
    MovedNot(a, f, grid);
  }

  lemma ProgressTwice(a: seq<Zone>, f: File, ims: seq<Image>, b: seq<Zone>, g: File, ims': seq<Image>, s: seq<Byte>,
                      c: seq<Zone>, h: File, ims'': seq<Image>, t: seq<Byte>, grid: Grid)
    requires Progress(a, f, ims, b, g, ims', s, grid) && Progress(b, g, ims', c, h, ims'', t, grid)
    ensures Progress(a, f, ims, c, h, ims'', s + t, grid)
  {
    hide FileOk, Moved, Safe, Bytes, ImageBytes;
    MovedTwice(a, f, b, g, c, h, grid);
    forall i | |ims| <= i < |ims''| ensures Bytes(a, f) <= ImageBytes(ims''[i]) <= Bytes(c, h) {
      if i < |ims'| { assert ims''[i] == ims'[i]; }
    }
  }

  /** A step of the file with one image at its end. */
  lemma ProgressStep(a: seq<Zone>, f: File, ims: seq<Image>, b: seq<Zone>, g: File, s: seq<Byte>, grid: Grid)
    requires GridOk(grid) && FileOk(a, f, grid) && AllSafe(ims, grid)
    requires FileOk(b, g, grid) && Moved(a, f, b, g) && Bytes(b, g) == Bytes(a, f) + s
    requires ZonesOk(b, grid.bs, grid.zoneSize)
    ensures Progress(a, f, ims, b, g, ims + [ImageOf(b, g)], s, grid)
  {
    hide Moved, FileOk, ZonesOk, Safe, Bytes, ImageBytes;
    ImageSafe(b, g, grid);
  }

  /** The same with one more image on the way. */
  lemma ProgressVia(a: seq<Zone>, f: File, ims: seq<Image>, im: Image, b: seq<Zone>, g: File, s: seq<Byte>, grid: Grid)
    requires GridOk(grid) && FileOk(a, f, grid) && AllSafe(ims, grid)
    requires FileOk(b, g, grid) && Moved(a, f, b, g) && Bytes(b, g) == Bytes(a, f) + s
    requires ZonesOk(b, grid.bs, grid.zoneSize)
    requires Safe(im, grid) && Bytes(a, f) <= ImageBytes(im) <= Bytes(b, g)
    ensures var ims' := ims + [im] + [ImageOf(b, g)];
      Progress(a, f, ims, b, g, ims', s, grid) && AllSafe(ims', grid)
  {
    hide Moved, FileOk, ZonesOk, Safe, Bytes, ImageBytes;
    ImageSafe(b, g, grid);
  }

  function ImageOf(zs: seq<Zone>, f: File): Image {
    Image(zs, f.saved, Logical(f), f.sparse, f.home)
  }

  lemma ImageSafe(a: seq<Zone>, f: File, grid: Grid)
    requires GridOk(grid) && FileOk(a, f, grid) && ZonesOk(a, grid.bs, grid.zoneSize)
    ensures Safe(ImageOf(a, f), grid) && ImageBytes(ImageOf(a, f)) == Bytes(a, f)
  {
  }

  function NewFile(sparse: bool, direct: bool): File {
    File([], None, None, 0, 0, sparse, direct, Saved([], None, 0), 0)
  }

  lemma ExtendProgress(a: seq<Zone>, f: File, ims: seq<Image>, s: seq<Byte>, grid: Grid)
    requires GridOk(grid) && FileOk(a, f, grid) && AllSafe(ims, grid) && ZonesOk(a, grid.bs, grid.zoneSize)
    requires f.active == Some(f.home) && f.home < |a| && f.direct
    requires s != [] && Aligned(|s|, grid.bs) && |s| <= a[f.home].capacity
    ensures var b, g := a[f.home := Appended(a[f.home], s)], Extended(f, |s|);
      var ims' := ims + [ImageOf(b, g)];
      && Progress(a, f, ims, b, g, ims', s, grid) && FileOk(b, g, grid) && AllSafe(ims', grid)
  {
    hide FileOk, Moved, Safe, Bytes, ImageBytes, ZonesOk, AllSafe;
    var b, g := a[f.home := Appended(a[f.home], s)], Extended(f, |s|);
    ExtendStep(a, f, s, b, grid);
    AppendKeepsOk(a, f.home, s, grid.bs, grid.zoneSize);
    ProgressStep(a, f, ims, b, g, s, grid);
  }

  lemma CloseProgress(a: seq<Zone>, f: File, ims: seq<Image>, grid: Grid)
    requires GridOk(grid) && FileOk(a, f, grid) && AllSafe(ims, grid) && ZonesOk(a, grid.bs, grid.zoneSize)
    requires f.active == Some(f.home) && f.home < |a| && Pending(f) == 0 && IsFull(a[f.home])
    ensures var b, g := Freed(a, f.home), f.(active := None);
      var ims' := ims + [ImageOf(b, g)];
      && Progress(a, f, ims, b, g, ims', [], grid) && FileOk(b, g, grid) && AllSafe(ims', grid)
  {
    hide FileOk, Moved, Safe, Bytes, ImageBytes, ZonesOk, AllSafe;
    var b, g := Freed(a, f.home), f.(active := None);
    CloseStep(a, f, b, grid);
    UnusedIfEmpty(a, f.home, grid.bs, grid.zoneSize);
    HoldKeepsOk(a, f.home, false, a[f.home].lifetime, a[f.home].used, grid.bs, grid.zoneSize);
    ProgressStep(a, f, ims, b, g, [], grid);
  }

  lemma CloseWRProgress(a: seq<Zone>, f: File, ims: seq<Image>, grid: Grid)
    requires GridOk(grid) && FileOk(a, f, grid) && AllSafe(ims, grid) && ZonesOk(a, grid.bs, grid.zoneSize)
    requires Pending(f) == 0 && (f.active.Some? ==> f.active == Some(f.home) && f.home < |a|)
    ensures var b, g := if f.active.Some? then Freed(a, f.home) else a, Closed(f);
      var ims' := ims + [Image(a, g.saved, f.extents, f.sparse, f.home)] + [ImageOf(b, g)];
      && Progress(a, f, ims, b, g, ims', [], grid) && FileOk(b, g, grid) && AllSafe(ims', grid)
  {
    hide FileOk, Moved, Safe, Bytes, ImageBytes, ZonesOk, AllSafe, Progress, Covered;
    var b, g := if f.active.Some? then Freed(a, f.home) else a, Closed(f);
    CloseWRStep(a, f, b, grid);
    if f.active.Some? {
      UnusedIfEmpty(a, f.home, grid.bs, grid.zoneSize);
      HoldKeepsOk(a, f.home, false, a[f.home].lifetime, a[f.home].used, grid.bs, grid.zoneSize);
    }
    ClosedImage(a, f, grid);
    ProgressVia(a, f, ims, Image(a, g.saved, f.extents, f.sparse, f.home), b, g, [], grid);
  }

  lemma ClosedImage(a: seq<Zone>, f: File, grid: Grid)
    requires GridOk(grid) && FileOk(a, f, grid) && ZonesOk(a, grid.bs, grid.zoneSize) && Pending(f) == 0
    requires Covered(a, Closed(f).saved, f.extents, f.sparse, f.home, grid.bs)
    ensures Safe(Image(a, Closed(f).saved, f.extents, f.sparse, f.home), grid)
    ensures ImageBytes(Image(a, Closed(f).saved, f.extents, f.sparse, f.home)) == Bytes(a, f)
  {
    hide Covered, ZonesOk;
    assert Logical(f) == f.extents;
  }

  function Freed(zs: seq<Zone>, i: nat): seq<Zone>
    requires i < |zs|
  {
    zs[i := zs[i].(busy := false)]
  }

  lemma GivenUpProgress(a: seq<Zone>, f: File, ims: seq<Image>, b: seq<Zone>, r: ZonedDevice.Outcome, grid: Grid)
    requires GridOk(grid) && FileOk(a, f, grid) && AllSafe(ims, grid) && ZonesOk(b, grid.bs, grid.zoneSize)
    requires f.active.None? && !r.Took? && FinishedBut(a, b, grid.zoneSize, r)
    ensures var ims' := ims + [ImageOf(b, f)];
      Progress(a, f, ims, b, f, ims', [], grid) && FileOk(b, f, grid) && AllSafe(ims', grid)
  {
    hide FileOk, AllSafe, Moved, Safe, Bytes, ImageBytes, ZonesOk, FinishedBut;
    GivenUp(a, f, b, r, grid);
    ProgressStep(a, f, ims, b, f, [], grid);
  }

  lemma OpenProgress(a: seq<Zone>, f: File, ims: seq<Image>, b: seq<Zone>, j: nat, lifetime: nat, grid: Grid)
    requires GridOk(grid) && FileOk(a, f, grid) && AllSafe(ims, grid)
    requires ZonesOk(a, grid.bs, grid.zoneSize) && ZonesOk(b, grid.bs, grid.zoneSize)
    requires f.active.None? && FinishedBut(a, b, grid.zoneSize, Took(j)) && TakenFor(a, j, b, lifetime)
    ensures j < |b| && !IsFull(b[j])
    ensures var ims' := ims + [ImageOf(b, f)] + [ImageOf(b, Opened(b, f, j))];
      && Progress(a, f, ims, b, Opened(b, f, j), ims', [], grid)
      && FileOk(b, Opened(b, f, j), grid) && AllSafe(ims', grid)
  {
    hide FileOk, Moved, Safe, Bytes, ImageBytes, ZonesOk, FinishedBut, AllSafe, Progress;
    TakenWritten(a, j, b, lifetime, grid);
    OpenedStep(a, f, b, j, lifetime, grid);
    ImageSafe(b, f, grid);
    ProgressVia(a, f, ims, ImageOf(b, f), b, Opened(b, f, j), [], grid);
  }

  lemma ActiveHome(a: seq<Zone>, f: File, grid: Grid)
    requires GridOk(grid) && FileOk(a, f, grid)
    ensures f.filePos <= f.size
    ensures f.active.Some? ==> f.active.value == f.home < |a| && f.extentStart.Some? && a[f.home].busy && Written(a[f.home])
  {
    hide Covered;
  }

  lemma ProgressQuiet(a: seq<Zone>, f: File, ims: seq<Image>, b: seq<Zone>, g: File, grid: Grid)
    requires GridOk(grid) && FileOk(a, f, grid) && AllSafe(ims, grid)
    requires FileOk(b, g, grid) && Moved(a, f, b, g) && Bytes(b, g) == Bytes(a, f)
    ensures Progress(a, f, ims, b, g, ims, [], grid)
  {
    hide FileOk, Moved, Bytes, ImageBytes, Safe;
  }

  lemma PushProgress(a: seq<Zone>, f: File, ims: seq<Image>, grid: Grid)
    requires GridOk(grid) && FileOk(a, f, grid) && AllSafe(ims, grid) && ZonesOk(a, grid.bs, grid.zoneSize)
    requires f.active == Some(f.home) && f.home < |a|
    ensures var b := a[f.home := a[f.home].(used := a[f.home].used + Pending(f))];
      && Progress(a, f, ims, b, Pushed(b, f), ims, [], grid) && FileOk(b, Pushed(b, f), grid)
      && ZonesOk(b, grid.bs, grid.zoneSize) && Pending(Pushed(b, f)) == 0
  {
    hide AllSafe, Moved, Safe, Bytes, ImageBytes, Covered, ZonesOk, UsedBy;
    var b := a[f.home := a[f.home].(used := a[f.home].used + Pending(f))];
    PushStep(a, f, b, grid);
    ProgressQuiet(a, f, ims, b, Pushed(b, f), grid);
    UnusedIfEmpty(a, f.home, grid.bs, grid.zoneSize);
    CountKeepsOk(a, f.home, a[f.home].used + Pending(f), grid.bs, grid.zoneSize);
  }

  lemma PersistProgress(a: seq<Zone>, f: File, ims: seq<Image>, grid: Grid)
    requires GridOk(grid) && FileOk(a, f, grid) && AllSafe(ims, grid) && ZonesOk(a, grid.bs, grid.zoneSize)
    ensures var ims' := ims + [ImageOf(a, Persisted(f))];
      Progress(a, f, ims, a, Persisted(f), ims', [], grid) && FileOk(a, Persisted(f), grid) && AllSafe(ims', grid)
  {
    hide FileOk, ZonesOk, AllSafe, Moved, Safe, Bytes, ImageBytes;
    PersistStep(a, f, grid);
    ProgressStep(a, f, ims, a, Persisted(f), [], grid);
  }

  /** A buffered write: once on the device it is safe, whether or not the file has recorded its extent. */
  lemma SegmentProgress(a: seq<Zone>, f: File, ims: seq<Image>, p: seq<Byte>, grid: Grid)
    requires GridOk(grid) && FileOk(a, f, grid) && AllSafe(ims, grid) && ZonesOk(a, grid.bs, grid.zoneSize)
    requires Fits(a, f, p, grid)
    ensures var m, b, g := AfterStore(a, f, p, grid), AfterCount(a, f, p, grid), Segmented(a, f, p, grid);
      var ims' := ims + [Image(m, f.saved, g.extents, f.sparse, f.home)] + [ImageOf(b, g)];
      && Progress(a, f, ims, b, g, ims', p, grid) && FileOk(b, g, grid) && AllSafe(ims', grid)
  {
    hide FileOk, Moved, Safe, Bytes, ImageBytes, ZonesOk, AllSafe, Progress;
    var m, b, g := AfterStore(a, f, p, grid), AfterCount(a, f, p, grid), Segmented(a, f, p, grid);
    SegmentStep(a, f, p, grid);
    StoredZones(a, f, p, grid);
    StoredImage(a, f, p, grid);
    ProgressVia(a, f, ims, Image(m, f.saved, g.extents, f.sparse, f.home), b, g, p, grid);
  }

  lemma StoredZones(a: seq<Zone>, f: File, p: seq<Byte>, grid: Grid)
    requires GridOk(grid) && ZonesOk(a, grid.bs, grid.zoneSize) && Fits(a, f, p, grid)
    ensures ZonesOk(AfterStore(a, f, p, grid), grid.bs, grid.zoneSize)
    ensures ZonesOk(AfterCount(a, f, p, grid), grid.bs, grid.zoneSize)
    ensures !IsEmpty(AfterStore(a, f, p, grid)[f.home])
  {
    hide ZonesOk, Frame;
    var m, b, s := AfterStore(a, f, p, grid), AfterCount(a, f, p, grid), Frame(f.sparse, p, grid.bs);
    PadAligns(HeaderSize(f.sparse) + |p|, grid.bs);
    AppendKeepsOk(a, f.home, s, grid.bs, grid.zoneSize);
    WpAboveStart(a, f.home, grid);
    CountKeepsOk(m, f.home, m[f.home].used + |p|, grid.bs, grid.zoneSize);
    assert b == m[f.home := m[f.home].(used := m[f.home].used + |p|)];
  }

  lemma WpAboveStart(a: seq<Zone>, i: nat, grid: Grid)
    requires GridOk(grid) && ZonesOk(a, grid.bs, grid.zoneSize) && i < |a|
    ensures a[i].start <= a[i].wp
  {
  }

  lemma StoredImage(a: seq<Zone>, f: File, p: seq<Byte>, grid: Grid)
    requires GridOk(grid) && FileOk(a, f, grid) && Fits(a, f, p, grid)
    requires ZonesOk(AfterStore(a, f, p, grid), grid.bs, grid.zoneSize)
    ensures var im := Image(AfterStore(a, f, p, grid), f.saved, Segmented(a, f, p, grid).extents, f.sparse, f.home);
      Safe(im, grid) && ImageBytes(im) == Bytes(a, f) + p
  {
    hide FileOk, Covered, ZonesOk, HomeGuarded, Fits, AfterStore, Segmented, ExtentsOk, Frame, Content;
    StoredCovered(a, f, p, grid);
    StoredBytes(a, f, p, grid);
    StoredGuarded(a, f, p, grid);
  }

  lemma StoredGuarded(a: seq<Zone>, f: File, p: seq<Byte>, grid: Grid)
    requires GridOk(grid) && FileOk(a, f, grid) && Fits(a, f, p, grid)
    ensures HomeGuarded(Image(AfterStore(a, f, p, grid), f.saved, Segmented(a, f, p, grid).extents, f.sparse, f.home))
  {
    hide FileOk, Segmented, Frame;
    ActiveHome(a, f, grid);
  }
}
