/** The zoned device as the file data path sees it (Zone and the read side of ZonedBlockDevice in
    AquaZFS/fs/zbd_aquafs.cc): append-only zones, each with a write pointer, remaining capacity, a count
    of live bytes and a busy flag. The bytes on the medium are part of the state. */
module Zoned {
  import opened Coding

  /** `data` is what has been written since the last reset, from `start` on. */
  datatype Zone = Zone(
    start: nat,
    maxCapacity: nat,
    wp: nat,
    capacity: nat,
    used: nat,
    busy: bool,
    lifetime: nat,
    data: seq<Byte>)

  /** Write lifetime hints run from not set to extreme. */
  const WLTH_NOT_SET: nat := 0
  const WLTH_NONE: nat := 1
  const WLTH_EXTREME: nat := 5

  predicate IsEmpty(z: Zone) { z.wp == z.start }

  predicate IsFull(z: Zone) { z.capacity == 0 }

  /** Partly written: the device counts the zone as active. */
  predicate Partial(z: Zone) { !IsEmpty(z) && !IsFull(z) }

  /** Multiples of the block size. */
  predicate Aligned(n: nat, bs: nat)
    requires bs > 0
  {
    n % bs == 0
  }

  /** A zone is being written, its pointer just past the data, or it has been finished. */
  predicate ZoneOk(z: Zone, bs: nat, zoneSize: nat)
    requires bs > 0
  {
    && Aligned(z.start, bs) && Aligned(z.maxCapacity, bs) && Aligned(|z.data|, bs)
    && 0 < z.maxCapacity <= zoneSize && |z.data| <= z.maxCapacity
    && (IsEmpty(z) ==> z.used == 0) && z.lifetime <= WLTH_EXTREME
    && (|| (z.wp == z.start + |z.data| && z.capacity == z.maxCapacity - |z.data|)
        || (z.wp == z.start + zoneSize && z.capacity == 0 && |z.data| > 0))
  }

  /** Zone::Append of whole blocks. */
  function Appended(z: Zone, s: seq<Byte>): Zone
    requires |s| <= z.capacity
  {
    z.(wp := z.wp + |s|, capacity := z.capacity - |s|, data := z.data + s)
  }

  /** Zone::Finish. */
  function Finished(z: Zone, zoneSize: nat): Zone {
    z.(wp := z.start + zoneSize, capacity := 0)
  }

  /** Zone::Reset of a zone that stays online with its capacity. */
  function Wiped(z: Zone): Zone {
    z.(wp := z.start, capacity := z.maxCapacity, lifetime := WLTH_NOT_SET, data := [])
  }

  /** All zones of a device, in address order. */
  predicate ZonesOk(zs: seq<Zone>, bs: nat, zoneSize: nat)
    requires bs > 0
  {
    && (forall i :: 0 <= i < |zs| ==> ZoneOk(zs[i], bs, zoneSize))
    && (forall i, j :: 0 <= i < j < |zs| ==> zs[i].start + zoneSize <= zs[j].start)
  }

  lemma InOrder(zs: seq<Zone>, i: nat, j: nat, bs: nat, zoneSize: nat)
    requires bs > 0 && ZonesOk(zs, bs, zoneSize) && i < |zs| && j < |zs|
    ensures i < j ==> zs[i].start + zoneSize <= zs[j].start
  {
  }

  lemma FinishKeepsOk(zs: seq<Zone>, i: nat, bs: nat, zoneSize: nat)
    requires bs > 0 && zoneSize > 0 && ZonesOk(zs, bs, zoneSize) && i < |zs| && Partial(zs[i])
    ensures ZonesOk(zs[i := Finished(zs[i], zoneSize)], bs, zoneSize)
    ensures !Partial(Finished(zs[i], zoneSize))
  {
    ZonesOkUpdate(zs, i, Finished(zs[i], zoneSize), bs, zoneSize);
  }

  /** Taking, releasing and marking a zone, and counting live bytes in a written one. */
  lemma HoldKeepsOk(zs: seq<Zone>, i: nat, busy: bool, lifetime: nat, used: nat, bs: nat, zoneSize: nat)
    requires bs > 0 && ZonesOk(zs, bs, zoneSize) && i < |zs| && lifetime <= WLTH_EXTREME
    requires IsEmpty(zs[i]) ==> used == 0
    ensures ZonesOk(zs[i := zs[i].(busy := busy, lifetime := lifetime, used := used)], bs, zoneSize)
  {
    ZonesOkUpdate(zs, i, zs[i].(busy := busy, lifetime := lifetime, used := used), bs, zoneSize);
  }

  lemma AppendKeepsOk(zs: seq<Zone>, i: nat, s: seq<Byte>, bs: nat, zoneSize: nat)
    requires bs > 0 && ZonesOk(zs, bs, zoneSize) && i < |zs| && Aligned(|s|, bs) && |s| <= zs[i].capacity
    ensures ZonesOk(zs[i := Appended(zs[i], s)], bs, zoneSize)
  {
    AlignedSum(|zs[i].data|, |s|, bs);
    assert zs[i].data + [] == zs[i].data;
    ZonesOkUpdate(zs, i, Appended(zs[i], s), bs, zoneSize);
  }

  lemma WipeKeepsOk(zs: seq<Zone>, i: nat, bs: nat, zoneSize: nat)
    requires bs > 0 && ZonesOk(zs, bs, zoneSize) && i < |zs| && zs[i].used == 0
    ensures ZonesOk(zs[i := Wiped(zs[i])], bs, zoneSize)
  {
    assert 0 % bs == 0;
    ZonesOkUpdate(zs, i, Wiped(zs[i]), bs, zoneSize);
  }

  lemma CountKeepsOk(zs: seq<Zone>, i: nat, used: nat, bs: nat, zoneSize: nat)
    requires bs > 0 && ZonesOk(zs, bs, zoneSize) && i < |zs| && (IsEmpty(zs[i]) ==> used == 0)
    ensures ZonesOk(zs[i := zs[i].(used := used)], bs, zoneSize)
  {
    ZonesOkUpdate(zs, i, zs[i].(used := used), bs, zoneSize);
  }

  lemma UnusedIfEmpty(zs: seq<Zone>, i: nat, bs: nat, zoneSize: nat)
    requires bs > 0 && ZonesOk(zs, bs, zoneSize) && i < |zs|
    ensures IsEmpty(zs[i]) ==> zs[i].used == 0 && !IsFull(zs[i])
    ensures zs[i].lifetime <= WLTH_EXTREME
  {
  }

  lemma CapacityAligned(zs: seq<Zone>, i: nat, bs: nat, zoneSize: nat)
    requires bs > 0 && ZonesOk(zs, bs, zoneSize) && i < |zs|
    ensures Aligned(zs[i].capacity, bs)
  {
    hide Aligned;
    assert ZoneOk(zs[i], bs, zoneSize);
    AlignedSum(zs[i].maxCapacity, |zs[i].data|, bs);
    ZeroAligned(bs);
  }

  lemma ZeroAligned(bs: nat)
    requires bs > 0
    ensures Aligned(0, bs)
  {
  }

  lemma ZonesOkUpdate(zs: seq<Zone>, i: nat, z: Zone, bs: nat, zoneSize: nat)
    requires bs > 0 && ZonesOk(zs, bs, zoneSize)
    requires i < |zs| && ZoneOk(z, bs, zoneSize) && z.start == zs[i].start
    ensures ZonesOk(zs[i := z], bs, zoneSize)
  {
  }

  lemma AlignedSum(a: nat, b: nat, bs: nat)
    requires bs > 0 && Aligned(a, bs) && Aligned(b, bs)
    ensures Aligned(a + b, bs) && (b <= a ==> Aligned(a - b, bs))
  {
    var i, j := a / bs, b / bs;
    assert a == bs * i && b == bs * j;
    assert a + b == bs * (i + j);
    ModMultiple(bs, i + j);
    if b <= a {
      assert a - b == bs * (i - j);
      assert i - j >= 0 by { assert bs * (i - j) >= 0; }
      ModMultiple(bs, i - j);
    }
  }

  lemma {:induction false} ModMultiple(m: nat, k: nat)
    requires m > 0
    ensures (m * k) % m == 0
    decreases k
  {
    if k > 0 {
      ModMultiple(m, k - 1);
      assert m * k == m * (k - 1) + m;
      AddModulus(m * (k - 1), m);
    }
  }

  lemma AddModulus(x: nat, m: nat)
    requires m > 0
    ensures (x + m) % m == x % m
  {
    var q, r := x / m, x % m;
    assert x + m == m * (q + 1) + r;
    ModUnique(x + m, m, q + 1, r);
  }

  lemma ModUnique(x: nat, m: nat, q: nat, r: nat)
    requires m > 0 && x == m * q + r && r < m
    ensures x % m == r
  {
    var q', r' := x / m, x % m;
    assert m * (q - q') == r' - r;
    TimesBelow(m, q - q');
    TimesBelow(m, q' - q);
    assert m * (q' - q) == -(m * (q - q'));
  }

  lemma TimesAtLeast(m: nat, d: nat)
    requires d >= 1
    ensures m * d >= m
  {
    var e := d - 1;
    assert m * d == m * e + m;
  }

  lemma TimesBelow(m: nat, d: int)
    requires m > 0 && m * d < m
    ensures d <= 0
  {
    if d >= 1 { TimesAtLeast(m, d); }
  }

  /** The padding that takes `n` to a block boundary. */
  function Pad(n: nat, bs: nat): (p: nat)
    requires bs > 0
    ensures p < bs
  {
    if n % bs == 0 then 0 else bs - n % bs
  }

  lemma PadAligns(n: nat, bs: nat)
    requires bs > 0
    ensures Aligned(n + Pad(n, bs), bs)
  {
    var q := n / bs;
    assert n == bs * q + n % bs;
    if n % bs == 0 {
    } else {
      assert n + Pad(n, bs) == bs * (q + 1);
      ModMultiple(bs, q + 1);
    }
  }

  /** A block boundary at or above `n` is above its padding. */
  lemma PadBelow(n: nat, c: nat, bs: nat)
    requires bs > 0 && n <= c && Aligned(c, bs)
    ensures n + Pad(n, bs) <= c
  {
    PadAligns(n, bs);
    if n + Pad(n, bs) > c {
      AlignedSum(n + Pad(n, bs), c, bs);
      var d := n + Pad(n, bs) - c;
      assert 0 < d < bs;
      assert d % bs == d by { ModUnique(d, bs, 0, d); }
    }
  }

  function Zeros(n: nat): (z: seq<Byte>)
    ensures |z| == n
  {
    seq(n, _ => 0)
  }

}
