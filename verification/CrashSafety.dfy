/** What the steps of a file and its recovery say together: reads after a sync, and a crash at any point. */
module CrashSafety {
  import opened Coding
  import opened Zoned
  import opened Extents
  import opened ZonedDevice
  import opened FileSteps
  import opened Recovery
  import opened Images

  /** When recovery from an image is exact, in terms a caller can check. */
  predicate Recoverable(im: Image, g: Grid)
    requires g.bs > 0 && |im.saved.extents| <= |im.extents|
  {
    || im.saved.extentStart.None?
    || (Inside(im.zones, im.saved, im.home, g)
        && (im.sparse || BlockMultiples(im.extents[|im.saved.extents|..], g.bs)))
    || (!Inside(im.zones, im.saved, im.home, g)
        && var next := ZoneAt(im.zones, g.zoneSize, im.saved.extentStart.value, 0);
           next.Some? && IsEmpty(im.zones[next.value]))
  }

  /** A crash after any device write or record while a file gains `s` finds what the file held before and
      some of `s`; recovery gives exactly that if and only if the image is Recoverable. */
  lemma CrashDuringWrite(a: seq<Zone>, f: File, ims: seq<Image>, b: seq<Zone>, h: File, ims': seq<Image>,
                         s: seq<Byte>, i: nat, g: Grid)
    requires Progress(a, f, ims, b, h, ims', s, g) && |ims| <= i < |ims'|
    ensures var im := ims'[i];
      && ExtentsOk(im.zones, im.extents) && |im.saved.extents| <= |im.extents|
      && Bytes(a, f) <= Content(im.zones, im.extents) <= Bytes(a, f) + s
      && (Exact(im.zones, Recover(im.zones, im.saved, im.sparse, g), im.extents) <==> Recoverable(im, g))
  {
    hide FileOk, Moved, Covered, Recover, ZonesOk, Bytes, BlockMultiples, Inside;
    var im := ims'[i];
    assert Safe(im, g);
    SafeParts(im, g);
    assert Bytes(a, f) <= ImageBytes(im) <= Bytes(b, h);
    RecoveryExact(im.zones, im.saved, im.extents, im.sparse, im.home, g);
  }

  lemma SafeParts(im: Image, g: Grid)
    requires Safe(im, g)
    ensures |im.saved.extents| <= |im.extents|
  {
    hide ZonesOk, ExtentsOk;
  }

  /** A sparse file comes back extent by extent. */
  lemma SparseCrash(im: Image, g: Grid)
    requires Safe(im, g) && im.sparse && Inside(im.zones, im.saved, im.home, g)
    ensures Recover(im.zones, im.saved, true, g) == Recovered(im.extents, TotalLength(im.extents))
  {
    hide Covered, ZonesOk, ExtentsOk;
    SparseRecovery(im.zones, im.saved, im.extents, im.home, g);
  }

  /** With nothing pending, what reads see (the extents, up to the size) is all there is. */
  lemma SettledBytes(zs: seq<Zone>, f: File, g: Grid)
    requires g.bs > 0 && FileOk(zs, f, g) && Pending(f) == 0
    ensures ExtentsOk(zs, f.extents) && Content(zs, f.extents) == Bytes(zs, f)
    ensures f.size == TotalLength(f.extents) == |Bytes(zs, f)|
  {
    hide Covered;
    assert Logical(f) == f.extents;
  }

  /** A crash right after a sync loses nothing and adds nothing, unless the zone was filled to its last byte
      and the next zone is not an empty one. */
  lemma CrashAfterSync(zs: seq<Zone>, f: File, g: Grid)
    requires GridOk(g) && ZonesOk(zs, g.bs, g.zoneSize) && FileOk(zs, f, g) && Pending(f) == 0 && f == Persisted(f)
    ensures ExtentsOk(zs, f.extents)
    ensures Exact(zs, Recover(zs, f.saved, f.sparse, g), f.extents) <==>
      || f.extentStart.None?
      || f.extentStart.value < zs[f.home].start + g.zoneSize
      || (var next := ZoneAt(zs, g.zoneSize, f.extentStart.value, 0); next.Some? && IsEmpty(zs[next.value]))
  {
    hide Recover, ZonesOk, Content, ExtentOk;
    assert Logical(f) == f.extents;
    RecoveryExact(zs, f.saved, f.extents, f.sparse, f.home, g);
    assert f.extents[|f.extents|..] == [];
  }

  /** Two zones of one block: a direct file has filled the first and synced; another file's block is in the
      second. Recovery takes that block for the file's own. */
  lemma FilledZoneRecoversTheNext()
    ensures exists zs, f: File, g ::
      && GridOk(g) && ZonesOk(zs, g.bs, g.zoneSize) && FileOk(zs, f, g) && f == Persisted(f)
      && f.direct && f.size == g.bs && Recover(zs, f.saved, f.sparse, g) == Recovered(f.extents + [Extent(g.bs, g.bs, 1)], 2 * g.bs)
  {
    var g := Grid(16, 16);
    var zs := [Zone(0, 16, 16, 0, 16, true, 0, Zeros(16)), Zone(16, 16, 32, 0, 16, false, 0, Zeros(16))];
    var e := Extent(0, 16, 0);
    var f := File([e], Some(0), Some(16), 16, 16, false, true, Saved([e], Some(16), 16), 0);
    assert TotalLength([e]) == 16 && UsedBy([e], 0) == 16;
    assert Logical(f) == [e];
    assert [e][1..] == [];
    Snoc([e], Extent(16, 16, 1), 0);
    assert ZoneAt(zs, 16, 16, 0) == Some(1);
    assert FileOk(zs, f, g);
  }

  /** A buffered, non-sparse file of 3 bytes whose first write has reached the device but not the record:
      recovery gives it the whole block, padding and all. */
  lemma UnsyncedWriteRecoversPadding()
    ensures exists im: Image, g ::
      Safe(im, g) && !im.sparse && TotalLength(im.extents) == 3
      && Recover(im.zones, im.saved, im.sparse, g) == Recovered([Extent(0, 16, 0)], 16)
  {
    var g := Grid(16, 16);
    var zs := [Zone(0, 16, 16, 0, 0, true, 0, [1, 2, 3] + Zeros(13))];
    var e := Extent(0, 3, 0);
    var im := Image(zs, Saved([], Some(0), 0), [e], false, 0);
    assert TotalLength([e]) == 3 && TotalLength([Extent(0, 16, 0)]) == 16;
    assert [] + [Extent(0, 16, 0)] == [Extent(0, 16, 0)];
    PaddedImage(im, g);
    hide Safe, Zeros;
  }

  lemma PaddedImage(im: Image, g: Grid)
    requires g == Grid(16, 16)
    requires im == Image([Zone(0, 16, 16, 0, 0, true, 0, [1, 2, 3] + Zeros(13))], Saved([], Some(0), 0), [Extent(0, 3, 0)], false, 0)
    ensures Safe(im, g)
  {
    hide TotalLength, Zeros;
    var e := Extent(0, 3, 0);
    assert TotalLength([]) == 0 by { TotalNone(); }
    assert [e][0..] == [e] && [e][1..] == [];
    assert Pad(3, 16) == 13;
    assert Chain([e], 0, 0, 0, 16, 16);
  }

  lemma TotalNone()
    ensures TotalLength([]) == 0
  {
  }
}
