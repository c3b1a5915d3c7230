/** Garbage collection moves extents (ZoneFile::MigrateData in AquaZFS/fs/io_aquafs.cc, MigrateFileExtents and
    SyncFileExtents in AquaZFS/fs/fs_aquafs.cc, TakeMigrateZone in AquaZFS/fs/zbd_aquafs.cc), for files that
    are not sparse. */
module Migration {
  import opened Coding
  import opened Zoned
  import opened Extents
  import opened ZonedDevice
  import opened FileSteps
  import opened Images
  import opened ZoneFiles

  /** What one pass of the copy loop reads. */
  const STEP: nat := 0x20000

  /** The `n` bytes on the device from the beginning of an extent on. */
  function Source(zs: seq<Zone>, e: Extent, n: nat): (s: seq<Byte>)
    requires e.zone < |zs| && zs[e.zone].start <= e.start && e.start - zs[e.zone].start + n <= |zs[e.zone].data|
    ensures |s| == n
  {
    var at := e.start - zs[e.zone].start;
    zs[e.zone].data[at..at + n]
  }

  predicate HasSource(zs: seq<Zone>, e: Extent, n: nat) {
    e.zone < |zs| && zs[e.zone].start <= e.start && e.start - zs[e.zone].start + n <= |zs[e.zone].data|
  }

  /** A complete read of the next part of the source. */
  lemma SourceRead(a: seq<Zone>, b: seq<Zone>, e: Extent, done: nat, s: seq<Byte>, bs: nat, zoneSize: nat)
    requires bs > 0 && ZonesOk(b, bs, zoneSize) && Grown(a, b) && HasSource(a, e, done + |s|)
    requires Reads(b, e.start + done, s)
    ensures Source(a, e, done) + s == Source(a, e, done + |s|)
  {
    hide ZonesOk, ByteAt;
    var z, at := a[e.zone], e.start - a[e.zone].start;
    forall k | 0 <= k < |s| ensures s[k] == z.data[at + done + k] {
      ByteWritten(b, e.zone, e.start + done + k, 0, bs, zoneSize);
      assert ByteAt(b, e.start + done + k, 0) in {None, Some(s[k])};
      assert b[e.zone].data[at + done + k] == z.data[at + done + k];
    }
    assert s == z.data[at + done..at + done + |s|];
  }

  /** Only one zone has been written to. */
  predicate GrownAt(a: seq<Zone>, b: seq<Zone>, target: nat) {
    && target < |a| == |b|
    && (forall i :: 0 <= i < |a| && i != target ==> b[i] == a[i])
    && a[target].data <= b[target].data
    && b[target].start == a[target].start && b[target].used == a[target].used && b[target].busy == a[target].busy
    && b[target].lifetime == a[target].lifetime
    && (Written(a[target]) ==> Written(b[target])) && b[target].capacity <= a[target].capacity
  }

  /** The target with `done` bytes of the source copied. */
  function Copied(zs: seq<Zone>, e: Extent, done: nat, target: nat): seq<Zone>
    requires target < |zs| && HasSource(zs, e, done) && done <= zs[target].capacity
  {
    zs[target := Appended(zs[target], Source(zs, e, done))]
  }

  lemma CopiedMore(zs: seq<Zone>, e: Extent, done: nat, target: nat, s: seq<Byte>)
    requires target < |zs| && HasSource(zs, e, done + |s|) && done + |s| <= zs[target].capacity
    requires Source(zs, e, done) + s == Source(zs, e, done + |s|)
    ensures var m := Copied(zs, e, done, target);
      |s| <= m[target].capacity && m[target := Appended(m[target], s)] == Copied(zs, e, done + |s|, target)
      && Grown(zs, m)
  {
    AppendedTwice(zs[target], Source(zs, e, done), s);
  }

  lemma CopiedNone(zs: seq<Zone>, e: Extent, target: nat)
    requires target < |zs| && HasSource(zs, e, 0)
    ensures Copied(zs, e, 0, target) == zs
  {
    assert zs[target].data + [] == zs[target].data;
    assert Appended(zs[target], []) == zs[target];
  }

  /** The next piece of a copy: it ends on a block, and at the end of the data only in the last one. */
  lemma NextPiece(left: nat, bs: nat)
    requires bs > 0 && left > 0 && Aligned(STEP, bs)
    ensures var readSz := if left > STEP then STEP else left;
      && 0 < readSz <= left && readSz <= Padded(readSz, bs) <= STEP && Aligned(Padded(readSz, bs), bs)
      && (readSz < left ==> Padded(readSz, bs) == readSz)
      && Padded(readSz, bs) + Padded(left - readSz, bs) == Padded(left, bs)
  {
    var readSz := if left > STEP then STEP else left;
    PadAligns(readSz, bs);
    PadBelow(readSz, STEP, bs);
    ZeroAligned(bs);
    if readSz < left {
      PadAligns(left - readSz, bs);
      AlignedSum(Padded(left - readSz, bs), STEP, bs);
      PadBelow(left, Padded(left - readSz, bs) + STEP, bs);
      PadAligns(left, bs);
      AlignedSum(Padded(left, bs), STEP, bs);
      PadBelow(left - readSz, Padded(left, bs) - STEP, bs);
    }
  }

  /** MigrateData: `length` bytes of extent e, up to a block boundary, go to the end of the target zone. It
      fails at the first read that does, or if the extent does not start on a block. */
  method MigrateData(dev: Device, ghost e: Extent, start: nat, length: nat, target: nat) returns (ok: bool)
    requires dev.Valid() && Aligned(STEP, dev.bs) && target < |dev.zones| && dev.zones[target].busy
    requires start == e.start && (Aligned(start, dev.bs) ==> HasSource(dev.zones, e, Padded(length, dev.bs)))
    requires Padded(length, dev.bs) <= dev.zones[target].capacity
    modifies dev`zones, dev`faults
    ensures dev.Valid() && dev.Slack() == old(dev.Slack()) && dev.faults >= old(dev.faults)
    ensures ok || !Aligned(start, dev.bs) || dev.faults > old(dev.faults)
    ensures ok ==>
      && Aligned(start, dev.bs) && HasSource(old(dev.zones), e, Padded(length, dev.bs))
      && dev.zones == Copied(old(dev.zones), e, Padded(length, dev.bs), target)
    ensures GrownAt(old(dev.zones), dev.zones, target)
  {
    hide ZonesOk, ActiveZones, Reads, Source, Padded, Aligned, Appended, ToInt;
    ghost var zs, all := dev.zones, Padded(length, dev.bs);
    assert zs[target].data <= zs[target].data;
    var aligned := Aligned(start, dev.bs);
    if !aligned { return false; }
    CopiedNone(zs, e, target);
    var buf := new Byte[STEP];
    var left, offset := length, start;
    ghost var done := 0;
    while left > 0
      invariant 0 <= left && 0 <= done && done + Padded(left, dev.bs) == all && offset == start + done
      invariant HasSource(zs, e, done) && dev.zones == Copied(zs, e, done, target) && GrownAt(zs, dev.zones, target)
      invariant dev.Valid() && dev.Slack() == old(dev.Slack()) && dev.faults >= old(dev.faults)
    {
      var readSz := if left > STEP then STEP else left;
      NextPiece(left, dev.bs);
      var n := Padded(readSz, dev.bs);
      IntOf(n);
      var r := dev.Read(buf, 0, offset, n);
      if r < n { return false; }
      ghost var s := buf[0..r];
      CopiedGrown(zs, e, done, target);
      SourceRead(zs, dev.zones, e, done, s, dev.bs, dev.zoneSize);
      CopiedMore(zs, e, done, target, s);
      var _ := dev.Append(target, buf, 0, r);
      left := left - readSz;
      offset := offset + r;
      done := done + r;
      CopiedGrown(zs, e, done, target);
    }
    NothingLeft(dev.bs);
    return true;
  }

  lemma NothingLeft(bs: nat)
    requires bs > 0
    ensures Padded(0, bs) == 0
  {
    ZeroAligned(bs);
  }

  lemma CopiedGrown(zs: seq<Zone>, e: Extent, done: nat, target: nat)
    requires target < |zs| && HasSource(zs, e, done) && done <= zs[target].capacity
    ensures GrownAt(zs, Copied(zs, e, done, target), target)
    ensures Grown(zs, Copied(zs, e, done, target)) && |Copied(zs, e, done, target)| == |zs|
    ensures Copied(zs, e, done, target)[target].busy == zs[target].busy
    ensures Copied(zs, e, done, target)[target].capacity == zs[target].capacity - done
  {
  }

  // ---------------------------------------------------------------- one extent

  /** The count the length is cut to on its way through 32-bit parameters. */
  function Cut(length: nat): nat { length % W32 }

  /** What becomes of extent e: nothing, if no zone has room; or it is entered in a zone that nobody held,
      whatever became of the copy; `ok` says that the copy of the bytes it was asked for is complete. */
  predicate Relocated(a: seq<Zone>, e: Extent, b: seq<Zone>, e': Extent, ok: bool, bs: nat)
    requires bs > 0
  {
    || (e' == e && b == a && ok)
    || (&& e'.zone < |a| == |b| && e'.length == e.length
        && e'.start == a[e'.zone].start + |a[e'.zone].data|
        && !a[e'.zone].busy && Partial(a[e'.zone]) && Written(a[e'.zone]) && Written(b[e'.zone])
        && Grown(a, b)
        && (forall i :: 0 <= i < |a| && i != e'.zone ==> b[i] == a[i])
        && b[e'.zone].used == a[e'.zone].used + e.length && b[e'.zone].busy == a[e'.zone].busy
        && (ok ==>
              && HasSource(a, e, Padded(Cut(e.length), bs))
              && b[e'.zone].data == a[e'.zone].data + Source(a, e, Padded(Cut(e.length), bs))))
  }

  /** The copy is good exactly if the length fits 32 bits; if not, the new extent runs past what was written. */
  lemma RelocatedBytes(a: seq<Zone>, e: Extent, b: seq<Zone>, e': Extent, bs: nat)
    requires 0 < bs < W32 && ExtentOk(a, e) && Relocated(a, e, b, e', true, bs) && e' != e
    ensures e.length < W32 <==> ExtentOk(b, e')
    ensures e.length < W32 ==> ExtentBytes(b, e') == ExtentBytes(a, e)
  {
    var n := Cut(e.length);
    PaddedMore(n, bs);
    if e.length < W32 {
      assert n == e.length;
      var s := Source(a, e, Padded(n, bs));
      var at, x := |a[e'.zone].data|, e.start - a[e.zone].start;
      assert b[e'.zone].data[at..at + e.length] == s[..e.length];
      assert s[..e.length] == a[e.zone].data[x..x + e.length];
    } else {
      assert n < W32 <= e.length;
      CutFar(e.length, bs);
    }
  }

  /** 4 GiB asked of a zone with 16 bytes to spare: nothing is copied, and the move is made all the same. */
  lemma LongExtentLost()
    ensures exists a, e, b, e' ::
      ExtentOk(a, e) && e.length == W32 && e' != e && Relocated(a, e, b, e', true, 16) && !ExtentOk(b, e')
  {
    var z0 := Zone(0, W32, W32, 0, W32, false, 0, Zeros(W32));
    var z1 := Zone(W32, W32, W32 + W32 - 16, 16, 16, false, 0, Zeros(W32 - 16));
    var a := [z0, z1];
    var e, e' := Extent(0, W32, 0), Extent(W32 + W32 - 16, W32, 1);
    var b := [z0, z1.(used := 16 + W32)];
    assert Padded(Cut(W32), 16) == 0;
    assert z1.data + Source(a, e, 0) == z1.data;
    assert Relocated(a, e, b, e', true, 16);
  }

  lemma CutFar(length: nat, bs: nat)
    requires 0 < bs < W32 && length >= W32
    ensures Padded(Cut(length), bs) < length
  {
    assert length == W32 * (length / W32) + Cut(length);
  }

  /** The zone taken for an extent has room for the copy, padding included. */
  lemma TargetFits(a: seq<Zone>, t: nat, e: Extent, length: nat, lifetime: nat, bs: nat, zoneSize: nat)
    requires bs > 0 && ZonesOk(a, bs, zoneSize) && BestMatch(a, |a|, Some(t), lifetime, length)
    requires ExtentOk(a, e) && length <= e.length
    ensures Partial(a[t]) && Written(a[t]) && !a[t].busy && Padded(length, bs) <= a[t].capacity
    ensures Aligned(e.start, bs) ==> HasSource(a[t := a[t].(busy := true)], e, Padded(length, bs))
  {
    hide ZonesOk, Aligned, Padded;
    BestHeld(a, t, lifetime, length, bs, zoneSize);
    CapacityAligned(a, t, bs, zoneSize);
    PadBelow(length, a[t].capacity, bs);
    PartialWritten(a, t, bs, zoneSize);
    if Aligned(e.start, bs) { SourceFits(a, e, length, bs, zoneSize); }
    assert Padded(length, bs) == length + Pad(length, bs) by { PaddedIs(length, bs); }
  }

  lemma PartialWritten(a: seq<Zone>, t: nat, bs: nat, zoneSize: nat)
    requires bs > 0 && ZonesOk(a, bs, zoneSize) && t < |a| && Partial(a[t])
    ensures Written(a[t])
  {
  }

  lemma SourceFits(a: seq<Zone>, e: Extent, length: nat, bs: nat, zoneSize: nat)
    requires bs > 0 && ZonesOk(a, bs, zoneSize) && ExtentOk(a, e) && length <= e.length && Aligned(e.start, bs)
    ensures HasSource(a, e, Padded(length, bs))
  {
    hide Aligned;
    var z := a[e.zone];
    assert ZoneOk(z, bs, zoneSize);
    AlignedSum(e.start, z.start, bs);
    AlignedSum(|z.data|, e.start - z.start, bs);
    PadBelow(length, |z.data| - (e.start - z.start), bs);
  }

  lemma GrownUsed(m: seq<Zone>, c: seq<Zone>, t: nat, bs: nat, zoneSize: nat)
    requires bs > 0 && ZonesOk(m, bs, zoneSize) && ZonesOk(c, bs, zoneSize)
    requires GrownAt(m, c, t) && !IsEmpty(m[t]) && Written(m[t])
    ensures !IsEmpty(c[t]) && c[t].lifetime <= WLTH_EXTREME
  {
  }

  /** The target written, counted and released. */
  lemma Settle(a: seq<Zone>, e: Extent, m: seq<Zone>, c: seq<Zone>, b: seq<Zone>, e': Extent, copied: bool, g: Grid)
    requires g.bs > 0 && e'.zone < |a| && m == a[e'.zone := a[e'.zone].(busy := true)]
    requires Partial(a[e'.zone]) && Written(a[e'.zone]) && !a[e'.zone].busy
    requires e' == Extent(a[e'.zone].wp, e.length, e'.zone)
    requires GrownAt(m, c, e'.zone)
    requires copied ==>
      && HasSource(m, e, Padded(Cut(e.length), g.bs)) && Padded(Cut(e.length), g.bs) <= a[e'.zone].capacity
      && c == Copied(m, e, Padded(Cut(e.length), g.bs), e'.zone)
    requires b == c[e'.zone := c[e'.zone].(used := c[e'.zone].used + e.length, busy := false)]
    ensures Relocated(a, e, b, e', copied, g.bs)
  {
    hide Padded;
  }

  /** No zone that is free, holds live bytes and is not full has this much capacity left. */
  predicate NoRoom(zs: seq<Zone>, length: nat) {
    forall j :: 0 <= j < |zs| ==> !Eligible(zs[j], length)
  }

  /** Whatever has no room in `a` has none in `b`. */
  predicate NoMoreRoom(a: seq<Zone>, b: seq<Zone>) {
    && |a| == |b|
    && forall j :: 0 <= j < |a| ==>
      && (a[j].busy ==> b[j].busy) && (a[j].used == 0 ==> b[j].used == 0) && (IsFull(a[j]) ==> IsFull(b[j]))
      && b[j].capacity <= a[j].capacity
  }

  lemma RoomShrinks(a: seq<Zone>, b: seq<Zone>, length: nat)
    requires NoMoreRoom(a, b) && NoRoom(a, length)
    ensures NoRoom(b, length)
  {
  }

  lemma RoomShrinksTwice(a: seq<Zone>, b: seq<Zone>, c: seq<Zone>)
    ensures NoMoreRoom(a, a) && (NoMoreRoom(a, b) && NoMoreRoom(b, c) ==> NoMoreRoom(a, c))
  {
  }

  lemma TargetShrinks(a: seq<Zone>, m: seq<Zone>, c: seq<Zone>, b: seq<Zone>, t: nat, n: nat)
    requires t < |a| && m == a[t := a[t].(busy := true)] && GrownAt(m, c, t) && Eligible(a[t], n)
    requires |b| == |c| && b == c[t := c[t].(used := b[t].used, busy := false)]
    ensures NoMoreRoom(a, b)
  {
  }

  /** An extent stays exactly if no zone has room for its length, of which 32 bits count; else it goes to the
      zone that suits the file best. */
  predicate Served(a: seq<Zone>, e: Extent, lifetime: nat, b: seq<Zone>, e': Extent) {
    if NoRoom(a, Cut(e.length)) then e' == e && b == a
    else BestIn(a, e'.zone, lifetime, Cut(e.length)) && e'.start == a[e'.zone].wp
  }

  /** One round of MigrateFileExtents. */
  method MigrateExtent(dev: Device, e: Extent, lifetime: nat) returns (e': Extent, ghost ok: bool)
    requires dev.Valid() && Aligned(STEP, dev.bs) && ExtentOk(dev.zones, e) && lifetime <= WLTH_EXTREME
    modifies dev`zones, dev`faults
    ensures dev.Valid() && dev.Slack() >= old(dev.Slack()) && dev.faults >= old(dev.faults)
    ensures ok || !Aligned(e.start, dev.bs) || dev.faults > old(dev.faults)
    ensures Relocated(old(dev.zones), e, dev.zones, e', ok, dev.bs)
    ensures Served(old(dev.zones), e, lifetime, dev.zones, e') && NoMoreRoom(old(dev.zones), dev.zones)
  {
    hide ZonesOk, ActiveZones, Source, Padded, Aligned, Prefers;
    ghost var a := dev.zones;
    var length := e.length % W32;
    var diff, best := dev.GetBestOpenZoneMatch(lifetime, length);
    if best.None? { return e, true; }
    var t: nat := best.value;
    TargetFits(a, t, e, length, lifetime, dev.bs, dev.zoneSize);
    ghost var m := dev.zones;
    var targetStart := dev.zones[t].wp;
    var copied := MigrateData(dev, e, e.start, length, t);
    ghost var c := dev.zones;
    dev.zones := dev.zones[t := dev.zones[t].(used := dev.zones[t].used + e.length)];
    var _ := dev.Release(t);
    ok := copied;
    e' := Extent(targetStart, e.length, t);
    assert dev.zones == c[t := c[t].(used := c[t].used + e.length, busy := false)];
    Settle(a, e, m, c, dev.zones, e', copied, GridOf(dev));
    TargetShrinks(a, m, c, dev.zones, t, length);
    ActiveZonesUpdate(c, t, dev.zones[t]);
    GrownUsed(m, c, t, dev.bs, dev.zoneSize);
    HoldKeepsOk(c, t, false, c[t].lifetime, c[t].used + e.length, dev.bs, dev.zoneSize);
  }

  // ---------------------------------------------------------------- a whole file

  /** What the extents that moved add to a zone's count, and what they free. */
  function Gain(es: seq<Extent>, fs: seq<Extent>, z: nat): nat
    requires |es| == |fs|
  {
    if es == [] then 0
    else
      var n := |es| - 1;
      Gain(es[..n], fs[..n], z) + if es[n].start != fs[n].start && fs[n].zone == z then fs[n].length else 0
  }

  function Loss(es: seq<Extent>, fs: seq<Extent>, z: nat): nat
    requires |es| == |fs|
  {
    if es == [] then 0
    else
      var n := |es| - 1;
      Loss(es[..n], fs[..n], z) + if es[n].start != fs[n].start && es[n].zone == z then es[n].length else 0
  }

  /** Extent for extent of the same length, and the same extent where the start is the same. */
  predicate Matching(es: seq<Extent>, fs: seq<Extent>) {
    && |es| == |fs|
    && forall k :: 0 <= k < |es| ==> es[k].length == fs[k].length && (es[k].start == fs[k].start ==> es[k] == fs[k])
  }

  lemma {:induction false} GainAndLoss(es: seq<Extent>, fs: seq<Extent>, z: nat)
    requires Matching(es, fs)
    ensures UsedBy(fs, z) + Loss(es, fs, z) == UsedBy(es, z) + Gain(es, fs, z)
    ensures Loss(es, fs, z) <= UsedBy(es, z) && TotalLength(es) == TotalLength(fs)
    decreases |es|
  {
    if es != [] { GainAndLoss(es[..|es| - 1], fs[..|fs| - 1], z); }
  }

  lemma GainNext(es: seq<Extent>, fs: seq<Extent>, e: Extent, f: Extent, z: nat)
    requires |es| == |fs|
    ensures Gain(es + [e], fs + [f], z) == Gain(es, fs, z) + if e.start != f.start && f.zone == z then f.length else 0
    ensures Loss(es + [e], fs + [f], z) == Loss(es, fs, z) + if e.start != f.start && e.zone == z then e.length else 0
  {
    assert (es + [e])[..|es|] == es && (fs + [f])[..|fs|] == fs;
  }

  /** A moved extent begins where nothing was. */
  lemma RelocatedElsewhere(a: seq<Zone>, e: Extent, b: seq<Zone>, e': Extent, ok: bool, g: Grid)
    requires g.bs > 0 && ZonesOk(a, g.bs, g.zoneSize) && ExtentOk(a, e) && Relocated(a, e, b, e', ok, g.bs)
    ensures e' == e || e'.start != e.start
    ensures Grown(a, b)
  {
    if e' != e && e'.zone != e.zone {
      InOrder(a, e.zone, e'.zone, g.bs, g.zoneSize);
      InOrder(a, e'.zone, e.zone, g.bs, g.zoneSize);
      assert ZoneOk(a[e.zone], g.bs, g.zoneSize) && ZoneOk(a[e'.zone], g.bs, g.zoneSize);
    }
  }

  /** Where a migration stands after the first |fs| extents of the file: `good` means that no copy failed
      and none of the extents it moved was too long. */
  predicate Midway(zs: seq<Zone>, es: seq<Extent>, b: seq<Zone>, fs: seq<Extent>, good: bool) {
    && |fs| <= |es| && Grown(zs, b) && ExtentsOk(zs, es)
    && Matching(es[..|fs|], fs)
    && (forall z :: 0 <= z < |zs| ==> b[z].used == zs[z].used + Gain(es[..|fs|], fs, z) && b[z].busy == zs[z].busy)
    && HoldersKept(zs, b) && Placed(zs, es, fs)
    && (good ==> ExtentsOk(b, fs) && Content(b, fs) == Content(zs, es[..|fs|]))
  }

  /** Zones that somebody holds, and full ones, are as they were but for their counts. */
  predicate HoldersKept(a: seq<Zone>, b: seq<Zone>) {
    |a| == |b| && forall z :: 0 <= z < |a| && (a[z].busy || IsFull(a[z])) ==> SameZone(a[z], b[z])
  }

  /** An extent that has moved lies behind all that was written, in a zone nobody held and that had room. */
  predicate Placed(a: seq<Zone>, es: seq<Extent>, fs: seq<Extent>) {
    && |fs| <= |es|
    && forall k :: 0 <= k < |fs| ==> fs[k] == es[k] || InFree(a, fs[k])
  }

  predicate InFree(a: seq<Zone>, e: Extent) {
    e.zone < |a| && !a[e.zone].busy && !IsFull(a[e.zone]) && e.start >= a[e.zone].start + |a[e.zone].data|
  }

  lemma MidwayKeep(zs: seq<Zone>, es: seq<Extent>, b: seq<Zone>, fs: seq<Extent>, good: bool)
    requires Midway(zs, es, b, fs, good) && |fs| < |es|
    ensures Midway(zs, es, b, fs + [es[|fs|]], good)
  {
    MidwayNext(zs, es, b, fs, good, b, es[|fs|], good);
  }

  lemma MidwayNext(zs: seq<Zone>, es: seq<Extent>, b: seq<Zone>, fs: seq<Extent>, good: bool, c: seq<Zone>, f: Extent, good': bool)
    requires Midway(zs, es, b, fs, good) && |fs| < |es| && Grown(b, c) && (good' ==> good)
    requires f.length == es[|fs|].length && (es[|fs|].start == f.start ==> es[|fs|] == f)
    requires forall z :: 0 <= z < |b| ==>
      c[z].busy == b[z].busy && c[z].used == b[z].used + if es[|fs|].start != f.start && f.zone == z then f.length else 0
    requires good' ==> ExtentOk(c, f) && ExtentOk(zs, es[|fs|]) && ExtentBytes(c, f) == ExtentBytes(zs, es[|fs|])
    requires HoldersKept(zs, c) && (f == es[|fs|] || InFree(zs, f))
    ensures Midway(zs, es, c, fs + [f], good')
  {
    hide ExtentOk, ExtentBytes;
    var n := |fs|;
    assert es[..n + 1] == es[..n] + [es[n]];
    assert (fs + [f])[..n] == fs;
    forall z | 0 <= z < |zs|
      ensures c[z].used == zs[z].used + Gain(es[..n + 1], fs + [f], z) && c[z].busy == zs[z].busy
    {
      GainNext(es[..n], fs, es[n], f, z);
      assert b[z].busy == zs[z].busy;
    }
    if good' {
      ContentKept(b, c, fs);
      SnocContent(c, fs, f);
      ExtentsOkPrefix(zs, es, n);
      SnocContent(zs, es[..n], es[n]);
    }
  }

  lemma ExtentsOkPrefix(zs: seq<Zone>, es: seq<Extent>, n: nat)
    requires ExtentsOk(zs, es) && n <= |es|
    ensures ExtentsOk(zs, es[..n])
  {
  }

  lemma MidwayFirst(zs: seq<Zone>, es: seq<Extent>)
    requires ExtentsOk(zs, es)
    ensures Midway(zs, es, zs, [], true)
  {
  }

  lemma MidwayMove(zs: seq<Zone>, es: seq<Extent>, b: seq<Zone>, fs: seq<Extent>, good: bool, c: seq<Zone>, f: Extent, ok: bool, g: Grid)
    requires 0 < g.bs < W32 && ZonesOk(b, g.bs, g.zoneSize) && Midway(zs, es, b, fs, good) && |fs| < |es|
    requires Relocated(b, es[|fs|], c, f, ok, g.bs)
    ensures Midway(zs, es, c, fs + [f], good && ok && (f == es[|fs|] || f.length < W32))
  {
    hide ExtentBytes, ZonesOk, ExtentOk;
    var e := es[|fs|];
    var good' := good && ok && (f == e || f.length < W32);
    OneKept(zs, b, es, |fs|);
    RelocatedElsewhere(b, e, c, f, ok, g);
    if f != e && ok { RelocatedBytes(b, e, c, f, g.bs); }
    RelocatedPlace(zs, b, e, c, f, ok, g.bs);
    MidwayNext(zs, es, b, fs, good, c, f, good');
  }

  /** Where a moved extent goes, seen from the beginning of the migration. */
  lemma RelocatedPlace(zs: seq<Zone>, b: seq<Zone>, e: Extent, c: seq<Zone>, f: Extent, ok: bool, bs: nat)
    requires bs > 0 && HoldersKept(zs, b) && Grown(zs, b) && Relocated(b, e, c, f, ok, bs)
    requires forall z :: 0 <= z < |zs| ==> b[z].busy == zs[z].busy
    ensures HoldersKept(zs, c) && (f == e || InFree(zs, f))
  {
  }

  lemma OneKept(zs: seq<Zone>, b: seq<Zone>, es: seq<Extent>, i: nat)
    requires Grown(zs, b) && ExtentsOk(zs, es) && i < |es|
    ensures ExtentOk(zs, es[i]) && ExtentOk(b, es[i]) && ExtentBytes(b, es[i]) == ExtentBytes(zs, es[i])
  {
  }

  /** The old places of the first k extents have been freed. */
  predicate Freeing(b: seq<Zone>, c: seq<Zone>, es: seq<Extent>, fs: seq<Extent>, k: nat)
    requires k <= |es| == |fs|
  {
    && |b| == |c|
    && forall z :: 0 <= z < |b| ==> SameZone(b[z], c[z]) && c[z].used + Loss(es[..k], fs[..k], z) == b[z].used
  }

  lemma FreeingNext(b: seq<Zone>, c: seq<Zone>, es: seq<Extent>, fs: seq<Extent>, k: nat, g: Grid)
    requires g.bs > 0 && k < |es| == |fs| && Freeing(b, c, es, fs, k) && Matching(es, fs)
    requires ZonesOk(c, g.bs, g.zoneSize) && ExtentsOk(b, es) && CountsCover(b, es)
    ensures es[k].start == fs[k].start ==> Freeing(b, c, es, fs, k + 1)
    ensures es[k].start != fs[k].start ==>
      && es[k].zone < |c| && c[es[k].zone].used >= es[k].length
      && Freeing(b, Discounted(c, es[k]), es, fs, k + 1) && ZonesOk(Discounted(c, es[k]), g.bs, g.zoneSize)
  {
    hide ZonesOk, Matching;
    var e := es[k];
    assert ExtentOk(b, e);
    assert es[..k + 1] == es[..k] + [e] && fs[..k + 1] == fs[..k] + [fs[k]];
    forall z: nat
      ensures Loss(es[..k + 1], fs[..k + 1], z) == Loss(es[..k], fs[..k], z)
      + if e.start != fs[k].start && e.zone == z then e.length else 0
    {
      GainNext(es[..k], fs[..k], e, fs[k], z);
    }
    LossBound(es, fs, k + 1, e.zone);
    if e.start != fs[k].start {
      NotEmpty(c, e, g);
      CountKeepsOk(c, e.zone, c[e.zone].used - e.length, g.bs, g.zoneSize);
    }
  }

  function Discounted(zs: seq<Zone>, e: Extent): seq<Zone>
    requires e.zone < |zs| && e.length <= zs[e.zone].used
  {
    zs[e.zone := zs[e.zone].(used := zs[e.zone].used - e.length)]
  }

  lemma NotEmpty(c: seq<Zone>, e: Extent, g: Grid)
    requires g.bs > 0 && ZonesOk(c, g.bs, g.zoneSize) && ExtentOk(c, e)
    ensures !IsEmpty(c[e.zone])
  {
  }

  lemma LossBound(es: seq<Extent>, fs: seq<Extent>, k: nat, z: nat)
    requires k <= |es| && Matching(es, fs)
    ensures Loss(es[..k], fs[..k], z) <= UsedBy(es, z)
  {
    GainAndLoss(es[..k], fs[..k], z);
    assert es == es[..k] + es[k..];
    UsedConcat(es[..k], es[k..], z);
  }

  /** The file with its new list, recorded. */
  function Relisted(f: File, fs: seq<Extent>): File {
    Persisted(f.(extents := fs))
  }

  /** While extents are being copied the record still names the old ones, which are all in place. */
  lemma MidwayImage(zs: seq<Zone>, f: File, b: seq<Zone>, fs: seq<Extent>, good: bool, g: Grid)
    requires GridOk(g) && FileOk(zs, f, g) && f.extentStart.None?
    requires Midway(zs, f.extents, b, fs, good) && ZonesOk(b, g.bs, g.zoneSize)
    ensures Safe(ImageOf(b, f), g) && ImageBytes(ImageOf(b, f)) == Bytes(zs, f)
  {
    hide ZonesOk, Midway;
    assert Grown(zs, b) by { MidwayGrown(zs, f.extents, b, fs, good); }
    FileKept(zs, b, f, g);
    ImageSafe(b, f, g);
  }

  lemma MidwayGrown(zs: seq<Zone>, es: seq<Extent>, b: seq<Zone>, fs: seq<Extent>, good: bool)
    requires Midway(zs, es, b, fs, good)
    ensures Grown(zs, b)
  {
  }

  /** The end of a good migration. */
  lemma MigratedOk(zs: seq<Zone>, f: File, b: seq<Zone>, fs: seq<Extent>, g: Grid)
    requires GridOk(g) && FileOk(zs, f, g) && f.extentStart.None?
    requires Midway(zs, f.extents, b, fs, true) && |fs| == |f.extents| && ZonesOk(b, g.bs, g.zoneSize)
    ensures FileOk(b, Relisted(f, fs), g) && Bytes(b, Relisted(f, fs)) == Bytes(zs, f)
  {
    hide ZonesOk, Content, ExtentOk;
    var es := f.extents;
    assert es[..|fs|] == es && Logical(f) == es && Logical(Relisted(f, fs)) == fs;
    GainAndLoss(es, fs, 0);
    assert fs[|fs|..] == [];
  }

  /** Every extent picked starts on a block and is shorter than 4 GiB. */
  predicate Movable(es: seq<Extent>, picked: set<(nat, nat)>, bs: nat)
    requires bs > 0
  {
    forall k :: 0 <= k < |es| && (es[k].start, es[k].length) in picked ==> Aligned(es[k].start, bs) && es[k].length < W32
  }

  /** An extent that is not picked stays; one that is picked stays only if no zone has room for it. */
  predicate Collected(es: seq<Extent>, picked: set<(nat, nat)>, fs: seq<Extent>, zs: seq<Zone>) {
    && |fs| <= |es|
    && forall k :: 0 <= k < |fs| ==>
      && ((es[k].start, es[k].length) !in picked ==> fs[k] == es[k])
      && ((es[k].start, es[k].length) in picked && fs[k] == es[k] ==> NoRoom(zs, Cut(es[k].length)))
  }

  /** An extent that is picked is served, by the file's lifetime. */
  predicate Turn(e: Extent, picked: set<(nat, nat)>, f: Extent, lifetime: nat, b: seq<Zone>, c: seq<Zone>) {
    if (e.start, e.length) in picked then Served(b, e, lifetime, c, f) else f == e && c == b
  }

  /** The zones before each extent's turn, and after the last. */
  predicate InTurn(es: seq<Extent>, picked: set<(nat, nat)>, fs: seq<Extent>, lifetime: nat, stages: seq<seq<Zone>>) {
    && |fs| <= |es| && |stages| == |fs| + 1
    && forall k :: 0 <= k < |fs| ==> Turn(es[k], picked, fs[k], lifetime, stages[k], stages[k + 1])
  }

  lemma InTurnNext(es: seq<Extent>, picked: set<(nat, nat)>, fs: seq<Extent>, lifetime: nat, stages: seq<seq<Zone>>, f: Extent, c: seq<Zone>)
    requires InTurn(es, picked, fs, lifetime, stages) && |fs| < |es|
    requires Turn(es[|fs|], picked, f, lifetime, stages[|fs|], c)
    ensures InTurn(es, picked, fs + [f], lifetime, stages + [c])
  {
    hide Turn;
  }

  lemma NoTurn(es: seq<Extent>, picked: set<(nat, nat)>, lifetime: nat, zs: seq<Zone>)
    ensures InTurn(es, picked, [], lifetime, [zs])
  {
  }

  lemma CollectedNone(es: seq<Extent>, picked: set<(nat, nat)>, zs: seq<Zone>)
    ensures Collected(es, picked, [], zs)
  {
  }

  lemma CollectedNext(es: seq<Extent>, picked: set<(nat, nat)>, fs: seq<Extent>, b: seq<Zone>, c: seq<Zone>, f: Extent)
    requires Collected(es, picked, fs, b) && |fs| < |es| && NoMoreRoom(b, c)
    requires var e := es[|fs|];
      if (e.start, e.length) in picked then f == e ==> NoRoom(c, Cut(e.length)) else f == e
    ensures Collected(es, picked, fs + [f], c)
  {
    hide NoRoom, NoMoreRoom, Cut;
    forall k | 0 <= k < |fs| && NoRoom(b, Cut(es[k].length)) ensures NoRoom(c, Cut(es[k].length)) {
      RoomShrinks(b, c, Cut(es[k].length));
    }
  }

  lemma ServedStays(b: seq<Zone>, e: Extent, lifetime: nat, c: seq<Zone>, f: Extent, bs: nat, zoneSize: nat)
    requires bs > 0 && ZonesOk(b, bs, zoneSize) && ExtentOk(b, e) && Served(b, e, lifetime, c, f) && NoMoreRoom(b, c)
    ensures f == e ==> NoRoom(c, Cut(e.length))
  {
    assert ZoneOk(b[e.zone], bs, zoneSize);
    if NoRoom(b, Cut(e.length)) { RoomShrinks(b, c, Cut(e.length)); }
  }

  /** As many bytes are counted in every zone as the recorded list has in it, over and above what other files
      have. */
  predicate Backed(im: Image, a: seq<Zone>, es: seq<Extent>) {
    && |im.zones| == |a|
    && forall z :: 0 <= z < |a| ==> im.zones[z].used + UsedBy(es, z) >= a[z].used + UsedBy(im.saved.extents, z)
  }

  predicate AllBacked(ims: seq<Image>, from: nat, a: seq<Zone>, es: seq<Extent>) {
    forall i :: from <= i < |ims| ==> Backed(ims[i], a, es)
  }

  lemma CopyBacked(zs: seq<Zone>, f: File, b: seq<Zone>, fs: seq<Extent>, good: bool, g: Grid)
    requires GridOk(g) && FileOk(zs, f, g) && f.extentStart.None? && Midway(zs, f.extents, b, fs, good)
    ensures Backed(ImageOf(b, f), zs, f.extents)
  {
    assert f.saved.extents == f.extents;
    hide FileOk;
  }

  lemma FreeBacked(zs: seq<Zone>, f: File, b: seq<Zone>, c: seq<Zone>, fs: seq<Extent>, good: bool, k: nat)
    requires Midway(zs, f.extents, b, fs, good) && |fs| == |f.extents| && k <= |fs| && Freeing(b, c, f.extents, fs, k)
    ensures Backed(ImageOf(c, Relisted(f, fs)), zs, f.extents)
  {
    hide ExtentsOk, Content, HoldersKept, Placed;
    var es := f.extents;
    assert es[..|fs|] == es;
    forall z | 0 <= z < |zs| ensures c[z].used + UsedBy(es, z) >= zs[z].used + UsedBy(fs, z) {
      GainAndLoss(es, fs, z);
      LossGrows(es, fs, k, z);
    }
  }

  lemma {:induction false} LossGrows(es: seq<Extent>, fs: seq<Extent>, k: nat, z: nat)
    requires k <= |es| == |fs|
    ensures Loss(es[..k], fs[..k], z) <= Loss(es, fs, z)
    decreases |es|
  {
    if k < |es| {
      var n := |es| - 1;
      LossGrows(es[..n], fs[..n], k, z);
      assert es[..n][..k] == es[..k] && fs[..n][..k] == fs[..k];
    } else {
      assert es[..k] == es && fs[..k] == fs;
    }
  }

  /** While old places are freed the file is as it was. */
  lemma FreeImage(b: seq<Zone>, c: seq<Zone>, es: seq<Extent>, h: File, fs: seq<Extent>, k: nat, ims: seq<Image>, from: nat, lo: seq<Byte>, g: Grid)
    requires GridOk(g) && FileOk(b, h, g) && ZonesOk(c, g.bs, g.zoneSize) && k <= |es| == |fs| && Freeing(b, c, es, fs, k)
    requires AllSafe(ims, g) && from <= |ims| && Through(ims, from, lo, lo) && Bytes(b, h) == lo && h.extentStart.None?
    ensures AllSafe(ims + [ImageOf(c, h)], g) && Through(ims + [ImageOf(c, h)], from, lo, lo)
  {
    hide FileOk, Bytes, ImageBytes, Safe, ZonesOk;
    assert Grown(b, c);
    FileKept(b, c, h, g);
    ImageSafe(c, h, g);
  }

  /** The loop of MigrateFileExtents. */
  method CopyExtents(file: ZoneFile, picked: set<(nat, nat)>) returns (newList: seq<Extent>, ghost good: bool, ghost stages: seq<seq<Zone>>)
    requires file.Valid() && file.extentStart.None? && !file.sparse
    requires Aligned(STEP, file.dev.bs) && file.dev.bs < W32
    modifies file`images, file.dev`zones, file.dev`faults
    ensures file.dev.Valid() && file.dev.Slack() >= old(file.dev.Slack()) && |newList| == |file.extents|
    ensures Midway(old(file.dev.zones), file.extents, file.dev.zones, newList, good)
    ensures file.dev.faults == old(file.dev.faults) && Movable(file.extents, picked, file.dev.bs) ==> good
    ensures file.dev.faults >= old(file.dev.faults)
    ensures old(file.images) <= file.images && AllSafe(file.images, GridOf(file.dev))
    ensures Through(file.images, |old(file.images)|, old(Bytes(file.dev.zones, file.State())), old(Bytes(file.dev.zones, file.State())))
    ensures Collected(file.extents, picked, newList, file.dev.zones) && NoMoreRoom(old(file.dev.zones), file.dev.zones)
    ensures InTurn(file.extents, picked, newList, file.lifetime, stages) && stages[0] == old(file.dev.zones) && stages[|newList|] == file.dev.zones
    ensures AllBacked(file.images, |old(file.images)|, old(file.dev.zones), file.extents)
  {
    hide ZonesOk, ActiveZones, FileOk, Midway, Relocated, Safe, Bytes, ImageBytes, ExtentOk, Collected, NoMoreRoom, NoRoom, Backed, Served, InTurn;
    var dev := file.dev;
    ghost var zs, f, es := dev.zones, file.State(), file.extents;
    ClosedExtents(zs, f, GridOf(dev));
    MidwayFirst(zs, es);
    RoomShrinksTwice(zs, zs, zs);
    newList, stages := [], [zs];
    NoTurn(es, picked, file.lifetime, zs);
    assert Collected(es, picked, newList, zs) by { CollectedNone(es, picked, zs); }
    good := true;
    var i := 0;
    while i < |file.extents|
      invariant 0 <= i <= |es| && |newList| == i && file.extents == es
      invariant dev.Valid() && dev.Slack() >= old(dev.Slack()) && dev.faults >= old(dev.faults)
      invariant Midway(zs, es, dev.zones, newList, good)
      invariant dev.faults == old(dev.faults) && Movable(es, picked, dev.bs) ==> good
      invariant old(file.images) <= file.images && AllSafe(file.images, GridOf(dev))
      invariant Through(file.images, |old(file.images)|, Bytes(zs, f), Bytes(zs, f))
      invariant Collected(es, picked, newList, dev.zones) && NoMoreRoom(zs, dev.zones)
      invariant AllBacked(file.images, |old(file.images)|, zs, es)
      invariant InTurn(es, picked, newList, file.lifetime, stages) && |stages| == i + 1 && stages[0] == zs && stages[i] == dev.zones
    {
      var e := file.extents[i];
      if (e.start, e.length) !in picked {
        MidwayKeep(zs, es, dev.zones, newList, good);
        RoomShrinksTwice(dev.zones, dev.zones, dev.zones);
        CollectedNext(es, picked, newList, dev.zones, dev.zones, e);
        InTurnNext(es, picked, newList, file.lifetime, stages, e, dev.zones);
        newList := newList + [e];
      } else {
        ghost var b := dev.zones;
        StillThere(zs, es, b, newList, good, i);
        var e', ok := MigrateExtent(dev, e, file.lifetime);
        MidwayMove(zs, es, b, newList, good, dev.zones, e', ok, GridOf(dev));
        MovedLength(b, e, dev.zones, e', ok, dev.bs);
        ServedStays(b, e, file.lifetime, dev.zones, e', dev.bs, dev.zoneSize);
        CollectedNext(es, picked, newList, b, dev.zones, e');
        InTurnNext(es, picked, newList, file.lifetime, stages, e', dev.zones);
        RoomShrinksTwice(zs, b, dev.zones);
        good := good && ok && (e' == e || e'.length < W32);
        newList := newList + [e'];
        CopyBacked(zs, f, dev.zones, newList, good, GridOf(dev));
        MidwayImage(zs, f, dev.zones, newList, good, GridOf(dev));
        file.images := file.images + [ImageOf(dev.zones, f)];
      }
      stages := stages + [dev.zones];
      i := i + 1;
    }
  }

  lemma MovedLength(a: seq<Zone>, e: Extent, b: seq<Zone>, e': Extent, ok: bool, bs: nat)
    requires bs > 0 && Relocated(a, e, b, e', ok, bs)
    ensures e'.length == e.length
  {
  }

  /** MigrateFileExtents and SyncFileExtents, for a file that nobody has open for writing: the extents that
      are picked move, unless no zone has room, the new list is recorded, and only then the old places are
      freed: at no point does a zone count less than the recorded list has in it. If every extent
      picked is movable and no read fails, the file holds the same bytes, at the end and in every image on
      the way, and every zone's count has moved with the list. */
  method MigrateFileExtents(file: ZoneFile, picked: set<(nat, nat)>) returns (ghost stages: seq<seq<Zone>>)
    requires file.Valid() && file.extentStart.None? && !file.sparse
    requires Aligned(STEP, file.dev.bs) && file.dev.bs < W32
    requires CountsCover(file.dev.zones, file.extents)
    modifies file`extents, file`saved, file`images, file.dev`zones, file.dev`faults
    ensures file.dev.Valid() && file.dev.faults >= old(file.dev.faults)
    ensures file.State() == Relisted(old(file.State()), file.extents) && Matching(old(file.extents), file.extents)
    ensures Grown(old(file.dev.zones), file.dev.zones)
    ensures Recounted(old(file.dev.zones), old(file.extents), file.dev.zones, file.extents)
    ensures HoldersKept(old(file.dev.zones), file.dev.zones) && Placed(old(file.dev.zones), old(file.extents), file.extents)
    ensures Collected(old(file.extents), picked, file.extents, file.dev.zones)
    ensures InTurn(old(file.extents), picked, file.extents, file.lifetime, stages) && stages[0] == old(file.dev.zones)
    ensures CountsOnly(stages[|file.extents|], file.dev.zones)
    ensures old(file.images) < file.images && AllBacked(file.images, |old(file.images)|, old(file.dev.zones), old(file.extents))
    ensures file.dev.faults == old(file.dev.faults) && Movable(old(file.extents), picked, file.dev.bs) ==>
      && file.Valid() && Bytes(file.dev.zones, file.State()) == old(Bytes(file.dev.zones, file.State()))
      && AllSafe(file.images, GridOf(file.dev))
      && Through(file.images, |old(file.images)|, old(Bytes(file.dev.zones, file.State())), old(Bytes(file.dev.zones, file.State())))
  {
    hide ZonesOk, ActiveZones, FileOk, Midway, Safe, Bytes, ImageBytes, Freeing, ExtentsOk, Matching, CountsCover, Recounted, Through, AllSafe, HoldersKept, Placed;
    hide Collected, NoMoreRoom, NoRoom, Backed, InTurn, CountsOnly;
    var dev := file.dev;
    ghost var zs, f, es := dev.zones, file.State(), file.extents;
    var oldList := file.extents;
    ClosedExtents(zs, f, GridOf(dev));
    ghost var good: bool;
    var newList: seq<Extent>;
    newList, good, stages := CopyExtents(file, picked);
    ghost var b := dev.zones;
    if good {
      MigratedOk(zs, f, b, newList, GridOf(dev));
      LastImage(zs, f, |old(file.images)|, file.images, b, newList, GridOf(dev));
    }
    file.extents := newList;
    file.saved := Saved(file.extents, file.extentStart, file.size);
    assert file.State() == Relisted(f, newList);
    file.images := file.images + [ImageOf(dev.zones, file.State())];
    FreeingFirst(zs, es, b, newList, good);
    FreeBacked(zs, f, b, b, newList, good, 0);
    var k := 0;
    while k < |oldList|
      invariant 0 <= k <= |oldList| && dev.Valid() && old(file.images) < file.images
      invariant Freeing(b, dev.zones, oldList, newList, k)
      invariant AllBacked(file.images, |old(file.images)|, zs, es)
      invariant good ==> AllSafe(file.images, GridOf(dev)) && Through(file.images, |old(file.images)|, Bytes(zs, f), Bytes(zs, f))
      modifies file`images, file.dev`zones
    {
      FreeingNext(b, dev.zones, oldList, newList, k, GridOf(dev));
      if oldList[k].start != newList[k].start {
        ActiveZonesUpdate(dev.zones, oldList[k].zone, Discounted(dev.zones, oldList[k])[oldList[k].zone]);
        dev.zones := dev.zones[oldList[k].zone := dev.zones[oldList[k].zone].(used := dev.zones[oldList[k].zone].used - oldList[k].length)];
        FreeBacked(zs, f, b, dev.zones, newList, good, k + 1);
        if good { FreeImage(b, dev.zones, es, file.State(), newList, k + 1, file.images, |old(file.images)|, Bytes(zs, f), GridOf(dev)); }
        file.images := file.images + [ImageOf(dev.zones, file.State())];
      }
      k := k + 1;
    }
    FreeingLast(zs, f, b, dev.zones, newList, good, GridOf(dev));
    FreedRoom(b, dev.zones, es, picked, newList);
  }

  predicate CountsOnly(a: seq<Zone>, b: seq<Zone>) {
    |a| == |b| && forall z :: 0 <= z < |a| ==> SameZone(a[z], b[z])
  }

  lemma FreedRoom(b: seq<Zone>, c: seq<Zone>, es: seq<Extent>, picked: set<(nat, nat)>, fs: seq<Extent>)
    requires |fs| == |es| && Freeing(b, c, es, fs, |es|) && Collected(es, picked, fs, b)
    ensures Collected(es, picked, fs, c) && CountsOnly(b, c)
  {
    hide NoRoom, Cut, Loss;
    assert NoMoreRoom(b, c);
    forall k | 0 <= k < |fs| && NoRoom(b, Cut(es[k].length)) ensures NoRoom(c, Cut(es[k].length)) {
      RoomShrinks(b, c, Cut(es[k].length));
    }
  }

  lemma LastImage(zs: seq<Zone>, f: File, from: nat, ims: seq<Image>, b: seq<Zone>, fs: seq<Extent>, g: Grid)
    requires GridOk(g) && ZonesOk(b, g.bs, g.zoneSize) && FileOk(b, Relisted(f, fs), g) && AllSafe(ims, g)
    requires Bytes(b, Relisted(f, fs)) == Bytes(zs, f) && from <= |ims| && Through(ims, from, Bytes(zs, f), Bytes(zs, f))
    ensures var ims' := ims + [ImageOf(b, Relisted(f, fs))];
      AllSafe(ims', g) && Through(ims', from, Bytes(zs, f), Bytes(zs, f))
  {
    hide FileOk, Bytes, ImageBytes, Safe, ZonesOk;
    ImageSafe(b, Relisted(f, fs), g);
  }

  lemma FreeingLast(zs: seq<Zone>, f: File, b: seq<Zone>, c: seq<Zone>, fs: seq<Extent>, good: bool, g: Grid)
    requires GridOk(g) && Midway(zs, f.extents, b, fs, good) && |fs| == |f.extents| && f.extentStart.None?
    requires Freeing(b, c, f.extents, fs, |fs|) && Matching(f.extents, fs)
    requires good ==> FileOk(b, Relisted(f, fs), g)
    ensures Recounted(zs, f.extents, c, fs) && Grown(zs, c) && HoldersKept(zs, c) && Placed(zs, f.extents, fs)
    ensures good ==> FileOk(c, Relisted(f, fs), g) && Bytes(c, Relisted(f, fs)) == Bytes(b, Relisted(f, fs))
  {
    hide FileOk, Bytes, Content, ExtentsOk, Matching;
    var es := f.extents;
    assert es[..|fs|] == es && fs[..|fs|] == fs;
    assert Grown(b, c);
    forall z: nat
      ensures UsedBy(fs, z) + Loss(es, fs, z) == UsedBy(es, z) + Gain(es, fs, z)
    {
      GainAndLoss(es, fs, z);
    }
    if good { FileKept(b, c, Relisted(f, fs), g); }
  }

  /** Every zone counts at least what the list has in it. */
  predicate CountsCover(zs: seq<Zone>, es: seq<Extent>) {
    forall z :: 0 <= z < |zs| ==> UsedBy(es, z) <= zs[z].used
  }

  predicate Recounted(a: seq<Zone>, es: seq<Extent>, b: seq<Zone>, fs: seq<Extent>) {
    && |a| == |b|
    && forall z :: 0 <= z < |a| ==> b[z].used + UsedBy(es, z) == a[z].used + UsedBy(fs, z) && b[z].busy == a[z].busy
  }

  lemma FreeingFirst(zs: seq<Zone>, es: seq<Extent>, b: seq<Zone>, fs: seq<Extent>, good: bool)
    requires Midway(zs, es, b, fs, good) && |fs| == |es|
    ensures Freeing(b, b, es, fs, 0) && Matching(es, fs) && ExtentsOk(b, es) && Grown(zs, b)
    ensures CountsCover(zs, es) ==> CountsCover(b, es)
  {
    assert es[..|fs|] == es;
    ContentKept(zs, b, es);
  }

  lemma ClosedExtents(zs: seq<Zone>, f: File, g: Grid)
    requires g.bs > 0 && FileOk(zs, f, g) && f.extentStart.None?
    ensures ExtentsOk(zs, f.extents) && f.active.None?
  {
    hide Covered;
  }

  lemma StillThere(zs: seq<Zone>, es: seq<Extent>, b: seq<Zone>, fs: seq<Extent>, good: bool, i: nat)
    requires Midway(zs, es, b, fs, good) && i < |es|
    ensures ExtentOk(b, es[i])
  {
    OneKept(zs, b, es, i);
  }
}
