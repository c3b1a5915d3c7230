/** The zone allocator of ZonedBlockDevice (AquaZFS/fs/zbd_aquafs.cc): a fixed list of IO zones, each
    with a busy flag that is its ownership, and two counters of tokens, for zones being written (open)
    and for zones holding a write pointer in the device (active). */
module ZonedDevice {
  import opened Coding
  import opened Zoned
  import opened Counting

  const NOT_GOOD: nat := 100
  const COULD_BE_WORSE: nat := 50

  datatype Outcome = Took(zone: nat) | NoZone | Blocked

  /** How badly data of lifetime `file` suits a zone opened for lifetime `zone`. */
  function GetLifeTimeDiff(zone: nat, file: nat): (d: nat)
    ensures zone <= WLTH_EXTREME ==> d <= NOT_GOOD
  {
    if file <= WLTH_NONE then
      if file == zone then 0 else NOT_GOOD
    else if zone > file then zone - file
    else if zone == file then COULD_BE_WORSE
    else NOT_GOOD
  }

  /** A zone that costs the device an active slot: partly written, or held by a writer. */
  predicate Counts(z: Zone) { Partial(z) || z.busy }

  function ActiveZones(zs: seq<Zone>): nat { Count(zs, Counts) }

  lemma ActiveZonesUpdate(zs: seq<Zone>, i: nat, z: Zone)
    requires i < |zs|
    ensures ActiveZones(zs[i := z])
         == ActiveZones(zs) - (if Counts(zs[i]) then 1 else 0) + (if Counts(z) then 1 else 0)
  {
    CountUpdate(zs, i, z, Counts);
  }

  lemma ActiveZonesBound(zs: seq<Zone>)
    ensures ActiveZones(zs) <= |zs|
  {
    CountBound(zs, Counts);
  }

  /** What ApplyFinishThreshold finishes. */
  predicate BelowThreshold(z: Zone, threshold: nat) {
    !z.busy && Partial(z) && z.capacity < z.maxCapacity * threshold / 100
  }

  /** What GetBestOpenZoneMatch considers. */
  predicate Eligible(z: Zone, minCapacity: nat) {
    !z.busy && z.used > 0 && !IsFull(z) && z.capacity >= minCapacity
  }

  /** `best` has the least lifetime difference among the eligible zones, and is the last that has. */
  predicate BestMatch(zs: seq<Zone>, n: nat, best: Option<nat>, file: nat, minCapacity: nat)
    requires n <= |zs|
  {
    match best
    case None => forall j :: 0 <= j < n ==> !Eligible(zs[j], minCapacity)
    case Some(i) =>
      && i < n && Eligible(zs[i], minCapacity)
      && forall j :: 0 <= j < n && Eligible(zs[j], minCapacity) ==> Suits(zs, i, j, file)
  }

  /** Zone i suits better than zone j, or as well and comes no earlier. */
  predicate Suits(zs: seq<Zone>, i: nat, j: nat, file: nat)
    requires i < |zs| && j < |zs|
  {
    var d, e := GetLifeTimeDiff(zs[i].lifetime, file), GetLifeTimeDiff(zs[j].lifetime, file);
    d < e || (d == e && j <= i)
  }

  /** One more zone examined. */
  lemma BestMatchNext(zs: seq<Zone>, n: nat, best: Option<nat>, file: nat, minCapacity: nat)
    requires n < |zs| && BestMatch(zs, n, best, file, minCapacity) && zs[n].lifetime <= WLTH_EXTREME
    ensures BestMatch(zs, n + 1,
      if Eligible(zs[n], minCapacity) && GetLifeTimeDiff(zs[n].lifetime, file) <= DiffOf(zs, best, file) then Some(n) else best,
      file, minCapacity)
  {
  }

  function DiffOf(zs: seq<Zone>, best: Option<nat>, file: nat): nat
    requires best.Some? ==> best.value < |zs|
  {
    match best
    case None => NOT_GOOD
    case Some(i) => GetLifeTimeDiff(zs[i].lifetime, file)
  }

  /** `victim` is the first of the free, partly written zones with the least capacity left. */
  predicate CheapestOf(zs: seq<Zone>, n: nat, victim: Option<nat>)
    requires n <= |zs|
  {
    match victim
    case None => forall j :: 0 <= j < n && Partial(zs[j]) ==> zs[j].busy
    case Some(i) =>
      && i < n && Partial(zs[i]) && !zs[i].busy
      && forall j :: 0 <= j < n && Partial(zs[j]) && !zs[j].busy ==>
        zs[i].capacity < zs[j].capacity || (zs[i].capacity == zs[j].capacity && i <= j)
  }

  /** Free partly written zones may have been finished; nothing else changed. */
  predicate FinishedSome(a: seq<Zone>, b: seq<Zone>, zoneSize: nat) {
    && |a| == |b|
    && forall i :: 0 <= i < |a| ==> a[i] == b[i] || (!a[i].busy && Partial(a[i]) && b[i] == Finished(a[i], zoneSize))
  }

  predicate FinishedBut(a: seq<Zone>, b: seq<Zone>, zoneSize: nat, taken: Outcome) {
    && |a| == |b|
    && forall i :: 0 <= i < |a| && taken != Took(i) ==>
      a[i] == b[i] || (!a[i].busy && Partial(a[i]) && b[i] == Finished(a[i], zoneSize))
  }

  /** A zone nobody held is now held: a partly written one, as it was, or an empty one that takes the
      file's lifetime. */
  predicate TakenFor(a: seq<Zone>, i: nat, b: seq<Zone>, file: nat) {
    && i < |a| == |b| && !a[i].busy && b[i].busy
    && (|| (a[i].used > 0 && Partial(a[i]) && b[i] == a[i].(busy := true))
        || (IsEmpty(a[i]) && b[i] == a[i].(busy := true, lifetime := file)))
  }

  /** Why zone i: of the zones still free none suits better if it is reused, and it suits well, or just
      acceptably with no active token left; none suits well if it is a fresh one. */
  predicate WellChosen(zs: seq<Zone>, i: nat, file: nat, blank: bool, exhausted: bool)
    requires i < |zs|
  {
    if blank then
      forall j :: 0 <= j < |zs| && Eligible(zs[j], 0) ==> GetLifeTimeDiff(zs[j].lifetime, file) >= COULD_BE_WORSE
    else
      && (forall j :: 0 <= j < |zs| && Eligible(zs[j], 0) ==> Suits(zs, i, j, file))
      && (var d := GetLifeTimeDiff(zs[i].lifetime, file); d < COULD_BE_WORSE || (d == COULD_BE_WORSE && exhausted))
  }

  // ---------------------------------------------------------------- in plain lifetimes

  /** Data of lifetime `file` goes into a zone of lifetime `zone` whatever else there is: the zone outlives it;
      or neither has a lifetime, and both say so in the same way. */
  predicate SuitsWell(zone: nat, file: nat) {
    if file <= WLTH_NONE then zone == file else zone > file
  }

  /** A zone of lifetime a is at least as good as one of lifetime b: of those that outlive the file the one
      that does so by least, then those of the file's own lifetime, then all others alike. */
  predicate Prefers(a: nat, b: nat, file: nat) {
    if file <= WLTH_NONE then a == file || b != file
    else if a > file then b <= file || a <= b
    else if a == file then b <= file
    else b < file
  }

  /** What the numbers of GetLifeTimeDiff mean. */
  lemma DiffMeans(a: nat, b: nat, file: nat)
    requires a <= WLTH_EXTREME && b <= WLTH_EXTREME
    ensures GetLifeTimeDiff(a, file) <= GetLifeTimeDiff(b, file) <==> Prefers(a, b, file)
    ensures GetLifeTimeDiff(a, file) < COULD_BE_WORSE <==> SuitsWell(a, file)
    ensures GetLifeTimeDiff(a, file) == COULD_BE_WORSE <==> file > WLTH_NONE && a == file
  {
  }

  /** The zone to reuse: the last of the best among the eligible ones. */
  predicate BestIn(zs: seq<Zone>, i: nat, file: nat, minCapacity: nat) {
    && i < |zs| && Eligible(zs[i], minCapacity)
    && forall j :: 0 <= j < |zs| && Eligible(zs[j], minCapacity) ==>
      Prefers(zs[i].lifetime, zs[j].lifetime, file) && (Prefers(zs[j].lifetime, zs[i].lifetime, file) ==> j <= i)
  }

  lemma BestMatchMeans(zs: seq<Zone>, best: Option<nat>, file: nat, minCapacity: nat, bs: nat, zoneSize: nat)
    requires bs > 0 && ZonesOk(zs, bs, zoneSize) && BestMatch(zs, |zs|, best, file, minCapacity)
    ensures best.None? ==> forall j :: 0 <= j < |zs| ==> !Eligible(zs[j], minCapacity)
    ensures best.Some? ==> BestIn(zs, best.value, file, minCapacity)
  {
    if best.Some? {
      var i := best.value;
      forall j | 0 <= j < |zs| && Eligible(zs[j], minCapacity)
        ensures Prefers(zs[i].lifetime, zs[j].lifetime, file) && (Prefers(zs[j].lifetime, zs[i].lifetime, file) ==> j <= i)
      {
        assert ZoneOk(zs[i], bs, zoneSize) && ZoneOk(zs[j], bs, zoneSize);
        DiffMeans(zs[i].lifetime, zs[j].lifetime, file);
        DiffMeans(zs[j].lifetime, zs[i].lifetime, file);
      }
    }
  }

  predicate SomeSuitsWell(zs: seq<Zone>, file: nat) {
    exists j :: 0 <= j < |zs| && Eligible(zs[j], 0) && SuitsWell(zs[j].lifetime, file)
  }

  /** Some eligible zone holds data of the file's own lifetime. */
  predicate SomeAlike(zs: seq<Zone>, file: nat) {
    exists j :: 0 <= j < |zs| && Eligible(zs[j], 0) && file > WLTH_NONE && zs[j].lifetime == file
  }

  /** A zone is reused as it is. */
  predicate Reuses(zs: seq<Zone>, file: nat, b: seq<Zone>, r: Outcome) {
    r.Took? && BestIn(zs, r.zone, file, 0) && b == zs[r.zone := zs[r.zone].(busy := true)]
  }

  /** The first free empty zone is taken for the file. */
  predicate Opens(zs: seq<Zone>, file: nat, b: seq<Zone>, r: Outcome) {
    match r
    case Took(i) =>
      && i < |zs| && IsEmpty(zs[i]) && !zs[i].busy && (forall j :: 0 <= j < i && IsEmpty(zs[j]) ==> zs[j].busy)
      && b == zs[i := zs[i].(busy := true, lifetime := file)]
    case NoZone => b == zs && NoneFree(zs)
    case Blocked => false
  }

  /** The same, after the cheapest partly written zone has been finished for its active token. */
  predicate FinishesAndOpens(zs: seq<Zone>, file: nat, zoneSize: nat, b: seq<Zone>, r: Outcome) {
    || (r.Blocked? && b == zs && CheapestOf(zs, |zs|, None))
    || exists v :: 0 <= v < |zs| && CheapestOf(zs, |zs|, Some(v)) && Opens(zs[v := Finished(zs[v], zoneSize)], file, b, r)
  }

  /** What AllocateIOZone decides; `left` says that an active token is left. */
  predicate Decided(zs: seq<Zone>, file: nat, left: bool, zoneSize: nat, b: seq<Zone>, r: Outcome) {
    if SomeSuitsWell(zs, file) || (!left && SomeAlike(zs, file)) then Reuses(zs, file, b, r)
    else if left then Opens(zs, file, b, r)
    else FinishesAndOpens(zs, file, zoneSize, b, r)
  }

  /** The best eligible zone tells whether there is one that suits well, or is alike. */
  lemma BestTells(zs: seq<Zone>, best: Option<nat>, file: nat, bs: nat, zoneSize: nat)
    requires bs > 0 && ZonesOk(zs, bs, zoneSize) && BestMatch(zs, |zs|, best, file, 0)
    ensures SomeSuitsWell(zs, file) <==> DiffOf(zs, best, file) < COULD_BE_WORSE
    ensures !SomeSuitsWell(zs, file) ==> (SomeAlike(zs, file) <==> DiffOf(zs, best, file) == COULD_BE_WORSE)
    ensures best.Some? ==> BestIn(zs, best.value, file, 0)
  {
    BestMatchMeans(zs, best, file, 0, bs, zoneSize);
    forall j | 0 <= j < |zs| ensures zs[j].lifetime <= WLTH_EXTREME { assert ZoneOk(zs[j], bs, zoneSize); }
    hide ZonesOk, Eligible, BestMatch, BestIn, GetLifeTimeDiff, Prefers, SuitsWell;
    if best.Some? {
      var i := best.value;
      BestEligible(zs, i, file);
      DiffMeans(zs[i].lifetime, zs[i].lifetime, file);
      forall j | 0 <= j < |zs| && Eligible(zs[j], 0)
        ensures GetLifeTimeDiff(zs[i].lifetime, file) <= GetLifeTimeDiff(zs[j].lifetime, file)
      {
        BestAmong(zs, i, j, file);
        DiffMeans(zs[i].lifetime, zs[j].lifetime, file);
      }
      forall j | 0 <= j < |zs| && Eligible(zs[j], 0)
        ensures (SuitsWell(zs[j].lifetime, file) <==> GetLifeTimeDiff(zs[j].lifetime, file) < COULD_BE_WORSE)
        ensures file > WLTH_NONE && zs[j].lifetime == file <==> GetLifeTimeDiff(zs[j].lifetime, file) == COULD_BE_WORSE
      {
        DiffMeans(zs[j].lifetime, zs[j].lifetime, file);
      }
    }
  }

  lemma BestEligible(zs: seq<Zone>, i: nat, file: nat)
    requires BestIn(zs, i, file, 0)
    ensures i < |zs| && Eligible(zs[i], 0)
  {
  }

  lemma BestAmong(zs: seq<Zone>, i: nat, j: nat, file: nat)
    requires BestIn(zs, i, file, 0) && j < |zs| && Eligible(zs[j], 0)
    ensures i < |zs| && Prefers(zs[i].lifetime, zs[j].lifetime, file)
  {
  }

  /** What ApplyFinishThreshold leaves. */
  function Thresholded(zs: seq<Zone>, threshold: nat, zoneSize: nat): (b: seq<Zone>)
    ensures |b| == |zs|
  {
    seq(|zs|, i requires 0 <= i < |zs| => if BelowThreshold(zs[i], threshold) then Finished(zs[i], zoneSize) else zs[i])
  }

  lemma FinishedNone(a: seq<Zone>, zoneSize: nat)
    ensures FinishedSome(a, a, zoneSize)
  {
  }

  lemma BestHeld(zs: seq<Zone>, i: nat, file: nat, minCapacity: nat, bs: nat, zoneSize: nat)
    requires bs > 0 && ZonesOk(zs, bs, zoneSize) && BestMatch(zs, |zs|, Some(i), file, minCapacity)
    ensures i < |zs| && zs[i].used > 0 && zs[i].capacity >= minCapacity && Partial(zs[i]) && !zs[i].busy
    ensures FinishedBut(zs, zs[i := zs[i].(busy := true)], zoneSize, Took(i))
  {
  }

  lemma ReuseChosen(zs: seq<Zone>, i: nat, file: nat, exhausted: bool)
    requires i < |zs| && BestMatch(zs, |zs|, Some(i), file, 0)
    requires GetLifeTimeDiff(zs[i].lifetime, file) < COULD_BE_WORSE
          || (GetLifeTimeDiff(zs[i].lifetime, file) == COULD_BE_WORSE && exhausted)
    ensures WellChosen(zs[i := zs[i].(busy := true)], i, file, false, exhausted)
  {
  }

  lemma BlankChosen(zs: seq<Zone>, best: Option<nat>, b: seq<Zone>, i: nat, file: nat, zoneSize: nat, exhausted: bool)
    requires best.Some? ==> best.value < |zs|
    requires BestMatch(zs, |zs|, best, file, 0) && DiffOf(zs, best, file) >= COULD_BE_WORSE
    requires FinishedBut(zs, b, zoneSize, Took(i)) && i < |b| && b[i].busy
    ensures WellChosen(b, i, file, true, exhausted)
  {
  }

  lemma FinishedThen(a: seq<Zone>, b: seq<Zone>, c: seq<Zone>, zoneSize: nat, r: Outcome)
    requires FinishedSome(a, b, zoneSize) && FinishedBut(b, c, zoneSize, r)
    ensures FinishedBut(a, c, zoneSize, r)
  {
  }

  lemma FinishedSame(a: seq<Zone>, b: seq<Zone>, zoneSize: nat)
    requires FinishedSome(a, b, zoneSize)
    ensures |a| == |b| && FinishedBut(a, b, zoneSize, Blocked)
    ensures zoneSize > 0 ==> forall j :: 0 <= j < |a| && (IsEmpty(a[j]) || IsEmpty(b[j]) || Partial(b[j])) ==> a[j] == b[j]
  {
  }

  lemma AppendedTwice(z: Zone, s: seq<Byte>, t: seq<Byte>)
    requires |s| + |t| <= z.capacity
    ensures Appended(Appended(z, s), t) == Appended(z, s + t)
  {
    assert z.data + s + t == z.data + (s + t);
  }

  /** The byte on the medium, if it was written. */
  function ByteAt(zs: seq<Zone>, at: nat, from: nat): Option<Byte>
    requires from <= |zs|
    decreases |zs| - from
  {
    if from == |zs| then None
    else if zs[from].start <= at < zs[from].start + |zs[from].data| then Some(zs[from].data[at - zs[from].start])
    else ByteAt(zs, at, from + 1)
  }

  /** A read of unwritten places may give anything. */
  predicate Reads(zs: seq<Zone>, offset: nat, s: seq<Byte>) {
    forall k :: 0 <= k < |s| ==> ByteAt(zs, offset + k, 0) in {None, Some(s[k])}
  }

  lemma ReadsNone(zs: seq<Zone>, offset: nat)
    ensures Reads(zs, offset, [])
  {
  }

  lemma ReadsMore(zs: seq<Zone>, offset: nat, s: seq<Byte>, b: Byte)
    requires Reads(zs, offset, s) && ByteAt(zs, offset + |s|, 0) in {None, Some(b)}
    ensures Reads(zs, offset, s + [b])
  {
  }

  lemma ReadsTwice(zs: seq<Zone>, offset: nat, s: seq<Byte>, t: seq<Byte>)
    requires Reads(zs, offset, s) && Reads(zs, offset + |s|, t)
    ensures Reads(zs, offset, s + t)
  {
    forall k | 0 <= k < |s + t| ensures ByteAt(zs, offset + k, 0) in {None, Some((s + t)[k])} {
      if k >= |s| { assert ByteAt(zs, offset + |s| + (k - |s|), 0) in {None, Some(t[k - |s|])}; }
    }
  }

  lemma {:induction false} ByteWritten(zs: seq<Zone>, i: nat, at: nat, from: nat, bs: nat, zoneSize: nat)
    requires bs > 0 && ZonesOk(zs, bs, zoneSize) && from <= i < |zs|
    requires zs[i].start <= at < zs[i].start + |zs[i].data|
    ensures ByteAt(zs, at, from) == Some(zs[i].data[at - zs[i].start])
    decreases i - from
  {
    if from < i { ByteWritten(zs, i, at, from + 1, bs, zoneSize); }
  }

  /** GetIOZone: the first zone whose address range holds `at`. */
  function ZoneAt(zs: seq<Zone>, zoneSize: nat, at: nat, from: nat): (r: Option<nat>)
    requires from <= |zs|
    ensures r.Some? ==> from <= r.value < |zs| && zs[r.value].start <= at < zs[r.value].start + zoneSize
    ensures r.None? ==> forall i :: from <= i < |zs| ==> !(zs[i].start <= at < zs[i].start + zoneSize)
    decreases |zs| - from
  {
    if from == |zs| then None
    else if zs[from].start <= at < zs[from].start + zoneSize then Some(from)
    else ZoneAt(zs, zoneSize, at, from + 1)
  }

  /** What ResetUnusedIOZones resets. */
  predicate Unused(z: Zone) { !z.busy && !IsEmpty(z) && z.used == 0 }

  function AllWiped(zs: seq<Zone>): seq<Zone> {
    seq(|zs|, i requires 0 <= i < |zs| => if Unused(zs[i]) then Wiped(zs[i]) else zs[i])
  }

  lemma SplitArray(buf: array<Byte>, i: nat, j: nat, k: nat)
    requires i <= j <= k <= buf.Length
    ensures buf[i..k] == buf[i..j] + buf[j..k]
  {
  }

  /** What becomes of a length passed as an int. */
  const INT: nat := 0x8000_0000

  function ToInt(n: nat): int {
    var m := n % W32;
    if m < INT then m else m - W32
  }

  lemma IntOf(n: nat)
    ensures n < INT ==> ToInt(n) == n
    ensures INT <= n < W32 ==> ToInt(n) < 0
    ensures ToInt(n) < INT && (ToInt(n) > 0 ==> ToInt(n) <= n) && (ToInt(n) > 0 && n >= INT ==> ToInt(n) + W32 <= n)
  {
  }

  /** Every empty zone is held. */
  predicate NoneFree(zs: seq<Zone>) {
    forall j :: 0 <= j < |zs| && IsEmpty(zs[j]) ==> zs[j].busy
  }

  class Device {
    const bs: nat
    const zoneSize: nat
    const maxActive: nat
    const maxOpen: nat
    const threshold: nat
    var zones: seq<Zone>
    var active: int
    var open: int
    /** Reads that the backend has failed or cut off. */
    ghost var faults: nat

    ghost predicate Valid()
      reads this
    {
      && 8 < bs < INT && 0 < zoneSize && Aligned(zoneSize, bs)
      && ZonesOk(zones, bs, zoneSize)
      && ActiveZones(zones) <= active
    }

    /** Active tokens held back by nobody: zones allocated empty and closed unwritten leave theirs here. */
    ghost function Slack(): int
      reads this
    {
      active - ActiveZones(zones)
    }

    /** What keeps an allocation waiting: no open token for it, or no active token and no free zone whose
        finish would give one. */
    ghost predicate Stuck(wal: bool)
      reads this
    {
      || open >= (if wal then maxOpen else maxOpen - 1)
      || (active >= maxActive && forall j :: 0 <= j < |zones| && Partial(zones[j]) ==> zones[j].busy)
    }

    method Acquire(i: nat) returns (ok: bool)
      requires i < |zones|
      modifies this`zones
      ensures ok == !old(zones)[i].busy
      ensures zones == old(zones)[i := old(zones)[i].(busy := true)]
    {
      ok := !zones[i].busy;
      zones := zones[i := zones[i].(busy := true)];
    }

    method Release(i: nat) returns (ok: bool)
      requires i < |zones|
      modifies this`zones
      ensures ok == old(zones)[i].busy
      ensures zones == old(zones)[i := old(zones)[i].(busy := false)]
    {
      ok := zones[i].busy;
      zones := zones[i := zones[i].(busy := false)];
    }

    method Finish(i: nat)
      requires i < |zones| && zones[i].busy
      modifies this`zones
      ensures zones == old(zones)[i := Finished(old(zones)[i], zoneSize)]
    {
      zones := zones[i := Finished(zones[i], zoneSize)];
    }

    method Reset(i: nat)
      requires i < |zones| && zones[i].busy && zones[i].used == 0
      modifies this`zones
      ensures zones == old(zones)[i := Wiped(old(zones)[i])]
    {
      zones := zones[i := Wiped(zones[i])];
    }

    /** The wait ends when the counter is under the limit, one lower for all but write-ahead logs. */
    method WaitForOpenIOZoneToken(prioritized: bool) returns (got: bool)
      modifies this`open
      ensures got == (old(open) < if prioritized then maxOpen else maxOpen - 1)
      ensures open == if got then old(open) + 1 else old(open)
    {
      var limit := if prioritized then maxOpen else maxOpen - 1;
      got := open < limit;
      if got { open := open + 1; }
    }

    method GetActiveIOZoneTokenIfAvailable() returns (got: bool)
      modifies this`active
      ensures got == (old(active) < maxActive)
      ensures active == if got then old(active) + 1 else old(active)
    {
      got := active < maxActive;
      if got { active := active + 1; }
    }

    /** One round of the scan in ApplyFinishThreshold. */
    method FinishIfBelow(i: nat)
      requires Valid() && i < |zones|
      modifies this`zones, this`active
      ensures Valid() && Slack() == old(Slack()) && active <= old(active)
      ensures zones == old(zones)[i :=
        if BelowThreshold(old(zones)[i], threshold) then Finished(old(zones)[i], zoneSize) else old(zones)[i]]
    {
      hide ZonesOk;
      ghost var z := zones[i];
      ghost var below := BelowThreshold(z, threshold);
      var got := Acquire(i);
      if got {
        var within := zones[i].capacity < zones[i].maxCapacity * threshold / 100;
        var finish := !(IsEmpty(zones[i]) || IsFull(zones[i])) && within;
        assert finish == below;
        if finish {
          FinishKeepsOk(old(zones), i, bs, zoneSize);
          Finish(i);
          var _ := Release(i);
          active := active - 1;
          assert zones == old(zones)[i := Finished(z, zoneSize)];
          ActiveZonesUpdate(old(zones), i, Finished(z, zoneSize));
        } else {
          var _ := Release(i);
          assert zones == old(zones);
        }
      } else {
        assert zones == old(zones);
      }
    }

    method ApplyFinishThreshold()
      requires Valid()
      modifies this`zones, this`active
      ensures Valid() && Slack() == old(Slack()) && active <= old(active)
      ensures FinishedSome(old(zones), zones, zoneSize)
      ensures zones == Thresholded(old(zones), threshold, zoneSize)
    {
      if threshold == 0 {
        assert zones == Thresholded(zones, threshold, zoneSize);
        return;
      }
      var i := 0;
      while i < |zones|
        invariant 0 <= i <= |zones| == |old(zones)|
        invariant Valid() && Slack() == old(Slack()) && active <= old(active)
        invariant forall j :: 0 <= j < i ==>
          zones[j] == if BelowThreshold(old(zones)[j], threshold) then Finished(old(zones)[j], zoneSize) else old(zones)[j]
        invariant forall j :: i <= j < |zones| ==> zones[j] == old(zones)[j]
      {
        FinishIfBelow(i);
        i := i + 1;
      }
    }

    /** The scan of FinishCheapestIOZone: it ends holding the victim. */
    method TakeCheapest() returns (victim: Option<nat>)
      modifies this`zones
      ensures CheapestOf(old(zones), |old(zones)|, victim)
      ensures zones == if victim.Some? then old(zones)[victim.value := old(zones)[victim.value].(busy := true)] else old(zones)
    {
      victim := None;
      var i := 0;
      while i < |zones|
        invariant 0 <= i <= |zones| == |old(zones)|
        invariant CheapestOf(old(zones), i, victim)
        invariant zones == if victim.Some? then old(zones)[victim.value := old(zones)[victim.value].(busy := true)] else old(zones)
      {
        var got := Acquire(i);
        if got {
          if IsEmpty(zones[i]) || IsFull(zones[i]) {
            var _ := Release(i);
          } else if victim.None? {
            victim := Some(i);
          } else if zones[victim.value].capacity > zones[i].capacity {
            var _ := Release(victim.value);
            victim := Some(i);
          } else {
            var _ := Release(i);
          }
        }
        i := i + 1;
      }
    }

    method FinishCheapestIOZone() returns (victim: Option<nat>)
      requires Valid()
      modifies this`zones, this`active
      ensures Valid() && Slack() == old(Slack())
      ensures CheapestOf(old(zones), |old(zones)|, victim)
      ensures victim.None? ==> zones == old(zones) && active == old(active)
      ensures victim.Some? ==>
        && zones == old(zones)[victim.value := Finished(old(zones)[victim.value], zoneSize)]
        && active == old(active) - 1
    {
      hide ZonesOk;
      victim := TakeCheapest();
      if victim.Some? {
        FinishKeepsOk(old(zones), victim.value, bs, zoneSize);
        Finish(victim.value);
        var _ := Release(victim.value);
        active := active - 1;
        ActiveZonesUpdate(old(zones), victim.value, zones[victim.value]);
        assert zones == old(zones)[victim.value := Finished(old(zones)[victim.value], zoneSize)];
      }
    }

    method GetBestOpenZoneMatch(file: nat, minCapacity: nat) returns (diff: nat, best: Option<nat>)
      requires Valid()
      modifies this`zones
      ensures BestMatch(old(zones), |old(zones)|, best, file, minCapacity)
      ensures diff == DiffOf(old(zones), best, file)
      ensures best.None? ==> forall j :: 0 <= j < |old(zones)| ==> !Eligible(old(zones)[j], minCapacity)
      ensures best.Some? ==> BestIn(old(zones), best.value, file, minCapacity)
      ensures zones == if best.Some? then old(zones)[best.value := old(zones)[best.value].(busy := true)] else old(zones)
      ensures Valid() && Slack() == old(Slack())
    {
      diff, best := NOT_GOOD, None;
      var i := 0;
      while i < |zones|
        invariant 0 <= i <= |zones| == |old(zones)|
        invariant BestMatch(old(zones), i, best, file, minCapacity)
        invariant diff == DiffOf(old(zones), best, file)
        invariant zones == if best.Some? then old(zones)[best.value := old(zones)[best.value].(busy := true)] else old(zones)
      {
        BestMatchNext(old(zones), i, best, file, minCapacity);
        var got := Acquire(i);
        if got {
          if zones[i].used > 0 && !IsFull(zones[i]) && zones[i].capacity >= minCapacity {
            var d := GetLifeTimeDiff(zones[i].lifetime, file);
            if d <= diff {
              if best.Some? { var _ := Release(best.value); }
              best, diff := Some(i), d;
            } else {
              var _ := Release(i);
            }
          } else {
            var _ := Release(i);
          }
        }
        i := i + 1;
      }
      BestMatchMeans(old(zones), best, file, minCapacity, bs, zoneSize);
      if best.Some? {
        ActiveZonesUpdate(old(zones), best.value, zones[best.value]);
        ZonesOkUpdate(old(zones), best.value, zones[best.value], bs, zoneSize);
      }
    }

    method AllocateEmptyZone() returns (zone: Option<nat>)
      requires Valid()
      modifies this`zones
      ensures match zone
        case None => zones == old(zones) && forall j :: 0 <= j < |zones| && IsEmpty(zones[j]) ==> zones[j].busy
        case Some(i) =>
          && i < |zones| == |old(zones)| && !old(zones)[i].busy && IsEmpty(old(zones)[i])
          && (forall j :: 0 <= j < i && IsEmpty(zones[j]) ==> zones[j].busy)
          && zones == old(zones)[i := old(zones)[i].(busy := true)]
    {
      zone := None;
      var i := 0;
      while i < |zones|
        invariant 0 <= i <= |zones|
        invariant zones == old(zones)
        invariant forall j :: 0 <= j < i && IsEmpty(zones[j]) ==> zones[j].busy
      {
        var got := Acquire(i);
        if got {
          if IsEmpty(zones[i]) {
            zone := Some(i);
            return;
          }
          var _ := Release(i);
        }
        i := i + 1;
      }
    }

    /** The last part of AllocateIOZone: an active token, at the price of finishing zones if there is none,
        and an empty zone for it. */
    method OpenNewZone(file: nat, token: bool) returns (r: Outcome)
      requires Valid() && file <= WLTH_EXTREME && active <= maxActive
      requires token ==> Slack() >= 1
      modifies this`zones, this`active
      ensures Valid() && Slack() == old(Slack()) - (if token then 1 else 0) && active <= maxActive
      ensures FinishedBut(old(zones), zones, zoneSize, r)
      ensures r.Took? ==>
        && r.zone < |zones| && IsEmpty(old(zones)[r.zone]) && !old(zones)[r.zone].busy
        && zones[r.zone] == old(zones)[r.zone].(busy := true, lifetime := file)
      ensures if token || old(active) < maxActive then Opens(old(zones), file, zones, r)
        else FinishesAndOpens(old(zones), file, zoneSize, zones, r)
      ensures r.NoZone? ==> NoneFree(zones)
      ensures r.Blocked? ==> active >= maxActive && forall j :: 0 <= j < |zones| && Partial(zones[j]) ==> zones[j].busy
    {
      hide ZonesOk;
      var got := token;
      if !got { got := GetActiveIOZoneTokenIfAvailable(); }
      while !got
        invariant Valid() && FinishedSome(old(zones), zones, zoneSize)
        invariant !got ==> active >= maxActive
        invariant Slack() == old(Slack()) + (if got && !token then 1 else 0)
        invariant token ==> got
        invariant active <= maxActive
        invariant !got || token || old(active) < maxActive ==> zones == old(zones)
        invariant !got ==> active == old(active) >= maxActive
        invariant got && !token && old(active) >= maxActive ==>
          exists v :: 0 <= v < |old(zones)| && CheapestOf(old(zones), |old(zones)|, Some(v)) && zones == old(zones)[v := Finished(old(zones)[v], zoneSize)]
        decreases !got, active
      {
        var victim := FinishCheapestIOZone();
        if victim.None? { return Blocked; }
        got := GetActiveIOZoneTokenIfAvailable();
      }
      ghost var before := zones;
      var empty := AllocateEmptyZone();
      if empty.Some? {
        var i := empty.value;
        zones := zones[i := zones[i].(lifetime := file)];
        ActiveZonesUpdate(before, i, zones[i]);
        assert zones == before[i := zones[i]];
        UnusedIfEmpty(before, i, bs, zoneSize);
        HoldKeepsOk(before, i, true, file, before[i].used, bs, zoneSize);
        return Took(i);
      }
      active := active - 1;
      return NoZone;
    }

    /** What an allocation makes of the zones, the open tokens and the slack of active tokens there were. */
    ghost predicate Allocates(was: seq<Zone>, wasOpen: int, slack: int, file: nat, wal: bool, r: Outcome)
      reads this
    {
      var zs := if wal then was else Thresholded(was, threshold, zoneSize);
      if wasOpen < (if wal then maxOpen else maxOpen - 1)
      then Decided(zs, file, slack + ActiveZones(zs) < maxActive, zoneSize, zones, r)
      else r == Blocked && zones == zs
    }

    /** AllocateIOZone for a file of lifetime `file`. A call that would have to sleep for an open token, or
        to spin until another thread frees an active one, is abandoned here as Blocked. */
    method AllocateIOZone(file: nat, wal: bool) returns (r: Outcome)
      requires Valid() && file <= WLTH_EXTREME && active <= maxActive
      modifies this`zones, this`active, this`open
      ensures Valid() && Slack() == old(Slack()) && active <= maxActive
      ensures open == old(open) + if r.Took? then 1 else 0
      ensures r.Took? ==> old(open) < if wal then maxOpen else maxOpen - 1
      ensures FinishedBut(old(zones), zones, zoneSize, r)
      ensures r.Took? ==> TakenFor(old(zones), r.zone, zones, file)
      ensures r.Took? ==> WellChosen(zones, r.zone, file, IsEmpty(old(zones)[r.zone]), active == maxActive)
      ensures (r.NoZone? ==> NoneFree(zones)) && (r.Blocked? ==> Stuck(wal))
      ensures Allocates(old(zones), old(open), old(Slack()), file, wal, r)
    {
      hide ZonesOk, BestMatch, WellChosen, FinishedBut, FinishedSome, ActiveZones, ZoneOk, Thresholded;
      hide SomeSuitsWell, SomeAlike, BestIn, Opens, FinishesAndOpens, Eligible, CheapestOf, GetLifeTimeDiff, NoneFree;
      if !wal { ApplyFinishThreshold(); } else { FinishedNone(zones, zoneSize); }
      ghost var zs := zones;
      FinishedSame(old(zones), zs, zoneSize);
      var token := WaitForOpenIOZoneToken(wal);
      if !token { return Blocked; }
      ghost var left := active < maxActive;
      var diff, best := GetBestOpenZoneMatch(file, 0);
      BestTells(zs, best, file, bs, zoneSize);
      if best.Some? {
        BestHeld(zs, best.value, file, 0, bs, zoneSize);
        FinishedThen(old(zones), zs, zones, zoneSize, Took(best.value));
      }
      if diff < COULD_BE_WORSE {
        ReuseChosen(zs, best.value, file, active == maxActive);
        return Took(best.value);
      }
      var got := GetActiveIOZoneTokenIfAvailable();
      if best.Some? {
        if !got && diff == COULD_BE_WORSE {
          ReuseChosen(zs, best.value, file, true);
          return Took(best.value);
        }
        var _ := Release(best.value);
        assert zones == zs;
      }
      r := OpenNewZone(file, got);
      FinishedThen(old(zones), zs, zones, zoneSize, r);
      if r.Took? {
        BlankChosen(zs, best, zones, r.zone, file, zoneSize, active == maxActive);
      } else {
        open := open - 1;
      }
    }

    method PutOpenIOZoneToken()
      modifies this`open
      ensures open == old(open) - 1
    {
      open := open - 1;
    }

    method PutActiveIOZoneToken()
      modifies this`active
      ensures active == old(active) - 1
    {
      active := active - 1;
    }

    /** Zone::Append. The backend may take the data in pieces. */
    method Append(i: nat, data: array<Byte>, from: nat, size: nat) returns (ok: bool)
      requires Valid() && i < |zones| && zones[i].busy && Aligned(size, bs) && from + size <= data.Length
      modifies this`zones
      ensures ok == (size <= old(zones)[i].capacity)
      ensures zones == if ok then old(zones)[i := Appended(old(zones)[i], data[from..from + size])] else old(zones)
      ensures Valid() && Slack() == old(Slack())
    {
      hide ZonesOk, ZoneOk, ActiveZones;
      if zones[i].capacity < size { return false; }
      var ptr, left := from, size;
      ghost var z := zones[i];
      assert z.data + data[from..from] == z.data;
      while left > 0
        invariant from <= ptr <= from + size && left == from + size - ptr
        invariant |zones| == |old(zones)|
        invariant zones == old(zones)[i := Appended(z, data[from..ptr])]
      {
        var ret: nat :| 1 <= ret <= left;
        assert data[from..ptr] + data[ptr..ptr + ret] == data[from..ptr + ret];
        AppendedTwice(z, data[from..ptr], data[ptr..ptr + ret]);
        zones := zones[i := Appended(zones[i], data[ptr..ptr + ret])];
        ptr, left := ptr + ret, left - ret;
      }
      AppendKeepsOk(old(zones), i, data[from..from + size], bs, zoneSize);
      ActiveZonesUpdate(old(zones), i, zones[i]);
      return true;
    }

    /** One read of the backend: any number of bytes up to `left`, none at the end of the medium, or an error.
        A negative count is refused. */
    method BackendRead(buf: array<Byte>, at: nat, offset: nat, left: int) returns (r: int)
      requires at <= buf.Length && (left > 0 ==> at + left <= buf.Length)
      modifies buf, this`faults
      ensures -1 <= r <= if left < 0 then -1 else left
      ensures faults == old(faults) + (if left >= 0 && r <= 0 then 1 else 0) && (left < 0 ==> buf[..] == old(buf[..]))
      ensures forall k :: 0 <= k < buf.Length && !(at <= k < at + r) ==> buf[k] == old(buf[k])
      ensures 0 <= r ==> Reads(zones, offset, buf[at..at + r])
    {
      hide ByteAt, Reads;
      if left < 0 { return -1; }
      r :| -1 <= r <= left;
      if r <= 0 { faults := faults + 1; }
      var k := 0;
      ReadsNone(zones, offset);
      assert buf[at..at] == [];
      while k < r
        invariant 0 <= k <= if r < 0 then 0 else r
        invariant faults == old(faults) + if r <= 0 then 1 else 0
        invariant forall j :: 0 <= j < buf.Length && !(at <= j < at + k) ==> buf[j] == old(buf[j])
        invariant Reads(zones, offset, buf[at..at + k])
      {
        ghost var got := buf[at..at + k];
        var b := ByteAt(zones, offset + k, 0);
        if b.Some? { buf[at + k] := b.value; } else { buf[at + k] := *; }
        ReadsMore(zones, offset, got, buf[at + k]);
        SplitArray(buf, at, at + k, at + k + 1);
        assert buf[at + k..at + k + 1] == [buf[at + k]];
        k := k + 1;
      }
    }

    /** ZonedBlockDevice::Read: until all is read, the medium ends or fails. The count is an int. Nothing at all
        is an error. */
    method Read(buf: array<Byte>, at: nat, offset: nat, n: nat) returns (ret: int)
      requires at + n <= buf.Length
      modifies buf, this`faults
      ensures -1 <= ret <= n
      ensures ToInt(n) <= 0 ==> ret == -1 && faults == old(faults) && buf[..] == old(buf[..])
      ensures ToInt(n) > 0 ==> ret <= ToInt(n) && faults >= old(faults) && (ret < ToInt(n) ==> faults > old(faults))
      ensures forall k :: 0 <= k < buf.Length && !(at <= k < at + n) ==> buf[k] == old(buf[k])
      ensures ret >= 0 ==> Reads(zones, offset, buf[at..at + ret])
    {
      hide Reads;
      ReadsNone(zones, offset);
      assert buf[at..at] == [];
      ret := 0;
      var left, r := ToInt(n), -1;
      while left != 0
        invariant 0 <= ret && ret + left == ToInt(n) && -1 <= r && faults == old(faults)
        invariant left >= 0 || (left == ToInt(n) && ret == 0)
        invariant if ret > 0 then r > 0 else r == -1
        invariant ret == 0 ==> buf[..] == old(buf[..])
        invariant forall k :: 0 <= k < buf.Length && !(at <= k < at + n) ==> buf[k] == old(buf[k])
        invariant Reads(zones, offset, buf[at..at + ret])
        decreases if left < 0 then 0 else left
      {
        ghost var done := buf[at..at + ret];
        r := BackendRead(buf, at + ret, offset + ret, left);
        assert buf[at..at + ret] == done;
        if r <= 0 { break; }
        SplitArray(buf, at, at + ret, at + ret + r);
        ReadsTwice(zones, offset, done, buf[at + ret..at + ret + r]);
        ret := ret + r;
        left := left - r;
      }
      if r < 0 { return r; }
    }

    /** GetIOZone: the zone whose address range holds `offset`. */
    method GetIOZone(offset: nat) returns (r: Option<nat>)
      ensures r == ZoneAt(zones, zoneSize, offset, 0)
    {
      var i := 0;
      while i < |zones|
        invariant 0 <= i <= |zones|
        invariant ZoneAt(zones, zoneSize, offset, 0) == ZoneAt(zones, zoneSize, offset, i)
      {
        if zones[i].start <= offset < zones[i].start + zoneSize { return Some(i); }
        i := i + 1;
      }
      return None;
    }

    /** One round of the scan in ResetUnusedIOZones. */
    method ResetIfUnused(i: nat)
      requires Valid() && i < |zones|
      modifies this`zones, this`active
      ensures Valid() && Slack() == old(Slack()) && active <= old(active)
      ensures zones == old(zones)[i := if Unused(old(zones)[i]) then Wiped(old(zones)[i]) else old(zones)[i]]
    {
      hide ZonesOk, ZoneOk;
      ghost var z := zones[i];
      var got := Acquire(i);
      if got {
        if !IsEmpty(zones[i]) && zones[i].used == 0 {
          var full := IsFull(zones[i]);
          Reset(i);
          var _ := Release(i);
          WipeKeepsOk(old(zones), i, bs, zoneSize);
          assert zones == old(zones)[i := Wiped(z)];
          ActiveZonesUpdate(old(zones), i, Wiped(z));
          if !full { PutActiveIOZoneToken(); }
        } else {
          var _ := Release(i);
          assert zones == old(zones);
        }
      } else {
        assert zones == old(zones);
      }
    }

    method ResetUnusedIOZones()
      requires Valid()
      modifies this`zones, this`active
      ensures Valid() && Slack() == old(Slack()) && active <= old(active)
      ensures zones == AllWiped(old(zones))
    {
      hide ZonesOk, ActiveZones;
      var i := 0;
      while i < |zones|
        invariant 0 <= i <= |zones| == |old(zones)|
        invariant Valid() && Slack() == old(Slack()) && active <= old(active)
        invariant forall j :: 0 <= j < i ==> zones[j] == if Unused(old(zones)[j]) then Wiped(old(zones)[j]) else old(zones)[j]
        invariant forall j :: i <= j < |zones| ==> zones[j] == old(zones)[j]
      {
        ResetIfUnused(i);
        i := i + 1;
      }
    }

    /** AllocateMetaZone, on the list of meta zones: the first free one, wiped if it was written. A meta zone
        never counts live bytes, and the token counters are not kept for them. */
    method AllocateMetaZone() returns (zone: Option<nat>)
      requires Valid() && |zones| <= active && forall i :: 0 <= i < |zones| ==> zones[i].used == 0
      modifies this`zones
      ensures Valid()
      ensures match zone
        case None => zones == old(zones) && forall j :: 0 <= j < |zones| ==> zones[j].busy
        case Some(i) =>
          && i < |zones| == |old(zones)| && !old(zones)[i].busy
          && (forall j :: 0 <= j < i ==> zones[j].busy)
          && zones == old(zones)[i :=
               (if IsEmpty(old(zones)[i]) then old(zones)[i] else Wiped(old(zones)[i])).(busy := true)]
    {
      hide ZonesOk, ActiveZones;
      zone := None;
      var i := 0;
      while i < |zones|
        invariant 0 <= i <= |zones|
        invariant zones == old(zones)
        invariant forall j :: 0 <= j < i ==> zones[j].busy
      {
        var got := Acquire(i);
        if got {
          if !(zones[i].used > 0) {
            ghost var wiped := old(zones);
            if !IsEmpty(zones[i]) {
              WipeKeepsOk(old(zones), i, bs, zoneSize);
              wiped := wiped[i := Wiped(wiped[i])];
              Reset(i);
            }
            assert zones == wiped[i := wiped[i].(busy := true)];
            UnusedIfEmpty(wiped, i, bs, zoneSize);
            HoldKeepsOk(wiped, i, true, wiped[i].lifetime, wiped[i].used, bs, zoneSize);
            ActiveZonesBound(zones);
            return Some(i);
          }
        }
        i := i + 1;
      }
    }
  }
}
