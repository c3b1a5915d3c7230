/** The cache of open zone files (ZoneFsFileCache in AquaZFS/fs/zonefs_aquafs.h and zonefs_aquafs.cc): a list in
    order of use with an index into it. */
module ZoneFsFileCache {
  import opened Coding

  /** One open file: the zone and its descriptor. */
  datatype Entry = Entry(zone: nat, fd: nat)

  /** Limits are unsigned ints. */
  const UINT: nat := W32

  predicate Distinct(es: seq<Entry>) {
    forall i, j :: 0 <= i < j < |es| ==> es[i].zone != es[j].zone
  }

  function Without(es: seq<Entry>, zone: nat): (r: seq<Entry>)
    ensures |r| <= |es| && forall e :: e in r <==> e in es && e.zone != zone
  {
    if es == [] then []
    else if es[0].zone == zone then Without(es[1..], zone)
    else [es[0]] + Without(es[1..], zone)
  }

  function Take(es: seq<Entry>, n: nat): seq<Entry> { if |es| <= n then es else es[..n] }

  function Find(es: seq<Entry>, zone: nat): Option<nat> {
    if es == [] then None else if es[0].zone == zone then Some(es[0].fd) else Find(es[1..], zone)
  }

  lemma {:induction false} FindIn(es: seq<Entry>, zone: nat)
    ensures Find(es, zone).Some? ==> Entry(zone, Find(es, zone).value) in es
    ensures Find(es, zone).None? ==> forall e :: e in es ==> e.zone != zone
    ensures Find(es, zone).None? ==> Without(es, zone) == es
  {
    if es != [] { FindIn(es[1..], zone); }
  }

  lemma {:induction false} WithoutDistinct(es: seq<Entry>, zone: nat)
    requires Distinct(es)
    ensures Distinct(Without(es, zone))
    ensures Find(es, zone).Some? ==> |Without(es, zone)| == |es| - 1
  {
    if es != [] {
      WithoutDistinct(es[1..], zone);
      assert forall e :: e in es[1..] ==> e.zone != es[0].zone;
      if es[0].zone == zone { AbsentWithout(es[1..], zone); }
    }
  }

  lemma {:induction false} AbsentWithout(es: seq<Entry>, zone: nat)
    requires forall e :: e in es ==> e.zone != zone
    ensures Without(es, zone) == es && Find(es, zone).None?
  {
    if es != [] { AbsentWithout(es[1..], zone); }
  }

  /** Get, for a cache of limit `max`: a hit moves to the front; a miss opens the file as `fd`, and what was
      used longest ago goes if the cache is full. */
  function Touch(es: seq<Entry>, zone: nat, fd: nat, max: nat): seq<Entry>
    requires max >= 1
  {
    if Find(es, zone).Some? then [Entry(zone, Find(es, zone).value)] + Without(es, zone)
    else [Entry(zone, fd)] + Take(es, max - 1)
  }

  /** A limit of zero, for a device that has none, wraps around to the largest there is. */
  function Limit(max: nat): (n: nat)
    ensures n >= 1
  {
    if max == 0 then UINT else max
  }

  class FileCache {
    var list: seq<Entry>
    var index: map<nat, nat>
    var max: nat

    /** The test for a read-only cache masks with zero, so every cache starts with the one limit. */
    constructor ()
      ensures Valid() && list == [] && max == 14
    {
      list, index, max := [], map[], 14;
    }

    /** The two indices agree. */
    ghost predicate Valid()
      reads this
    {
      && Distinct(list) && max < UINT
      && (forall z :: z in index <==> Find(list, z).Some?)
      && (forall z :: z in index ==> Find(list, z) == Some(index[z]))
    }

    method Put(zone: nat)
      requires Valid()
      modifies this
      ensures Valid() && max == old(max) && list == Without(old(list), zone)
    {
      FindIn(list, zone);
      if zone in index {
        WithoutDistinct(list, zone);
        forall z ensures Find(Without(list, zone), z) == if z == zone then None else Find(list, z) { FindWithout(list, zone, z); }
        list := Without(list, zone);
        index := index - {zone};
      }
    }

    method Prune(limit: nat)
      requires Valid()
      modifies this`list, this`index
      ensures Valid() && list == Take(old(list), limit)
    {
      while |list| > limit
        invariant Valid() && |list| <= |old(list)| && list == old(list)[..|list|] && |list| >= |Take(old(list), limit)|
      {
        var n := |list| - 1;
        forall z ensures Find(list[..n], z) == if z == list[n].zone then None else Find(list, z) { FindLast(list, z); }
        index := index - {list[n].zone};
        list := list[..n];
      }
    }

    /** `opened` is what opening the file gives; nothing if it fails. The limit minus one is unsigned. */
    method Get(zone: nat, descriptor: Option<nat>) returns (fd: Option<nat>)
      requires Valid()
      modifies this
      ensures Valid() && max == old(max)
      ensures fd == (if Find(old(list), zone).Some? then Find(old(list), zone) else descriptor)
      ensures fd.None? ==> list == old(list)
      ensures fd.Some? ==> list == Touch(old(list), zone, fd.value, Limit(max))
    {
      FindIn(list, zone);
      if zone !in index {
        if descriptor.None? { return None; }
        Prune(if max == 0 then UINT - 1 else max - 1);
        PrunedAbsent(old(list), list, zone);
        PushFront(Entry(zone, descriptor.value));
        return descriptor;
      }
      fd := Some(index[zone]);
      Put(zone);
      FindIn(list, zone);
      PushFront(Entry(zone, fd.value));
    }

    method PushFront(e: Entry)
      requires Valid() && forall x :: x in list ==> x.zone != e.zone
      modifies this`list, this`index
      ensures Valid() && list == [e] + old(list)
    {
      list := [e] + list;
      index := index[e.zone := e.fd];
      HeadFind(list);
    }

    method Resize(size: nat)
      requires Valid() && size < UINT
      modifies this
      ensures Valid() && max == size
      ensures list == if size < old(max) then Take(old(list), size) else old(list)
    {
      if size < max { Prune(size); }
      max := size;
    }
  }

  lemma HeadFind(es: seq<Entry>)
    requires es != []
    ensures forall z :: Find(es, z) == if z == es[0].zone then Some(es[0].fd) else Find(es[1..], z)
  {
  }

  lemma {:induction false} FindWithout(es: seq<Entry>, zone: nat, z: nat)
    ensures Find(Without(es, zone), z) == if z == zone then None else Find(es, z)
  {
    if es != [] {
      FindWithout(es[1..], zone, z);
      if es[0].zone != zone { assert ([es[0]] + Without(es[1..], zone))[1..] == Without(es[1..], zone); }
    }
  }

  lemma {:induction false} FindLast(es: seq<Entry>, z: nat)
    requires es != [] && Distinct(es)
    ensures Find(es[..|es| - 1], z) == if z == es[|es| - 1].zone then None else Find(es, z)
  {
    var n := |es| - 1;
    if n > 0 {
      FindLast(es[1..], z);
      assert es[..n][1..] == es[1..][..n - 1];
      assert es[..n][0] == es[0];
    }
  }

  lemma PrunedAbsent(es: seq<Entry>, fs: seq<Entry>, zone: nat)
    requires fs <= es && forall e :: e in es ==> e.zone != zone
    ensures forall e :: e in fs ==> e.zone != zone
  {
  }

  // ---------------------------------------------------------------- what the cache holds

  /** The zones of a run of Gets, most recently used first, without a limit. */
  function Recency(zones: seq<nat>): seq<nat> {
    if zones == [] then []
    else
      var n := |zones| - 1;
      [zones[n]] + Drop(Recency(zones[..n]), zones[n])
  }

  function Drop(zs: seq<nat>, z: nat): seq<nat> {
    if zs == [] then [] else if zs[0] == z then Drop(zs[1..], z) else [zs[0]] + Drop(zs[1..], z)
  }

  function Zones(es: seq<Entry>): (zs: seq<nat>)
    ensures |zs| == |es|
  {
    seq(|es|, i requires 0 <= i < |es| => es[i].zone)
  }

  function First(zs: seq<nat>, n: nat): seq<nat> { if |zs| <= n then zs else zs[..n] }

  /** The cache after a run of Gets that all find their file. */
  function AfterGets(zones: seq<nat>, fds: seq<nat>, max: nat): seq<Entry>
    requires max >= 1 && |fds| == |zones|
  {
    if zones == [] then []
    else
      var n := |zones| - 1;
      Touch(AfterGets(zones[..n], fds[..n], max), zones[n], fds[n], max)
  }

  lemma {:induction false} ZonesWithout(es: seq<Entry>, zone: nat)
    ensures Zones(Without(es, zone)) == Drop(Zones(es), zone)
  {
    if es != [] {
      ZonesWithout(es[1..], zone);
      assert Zones(es)[1..] == Zones(es[1..]);
      if es[0].zone != zone {
        assert Zones([es[0]] + Without(es[1..], zone)) == [es[0].zone] + Zones(Without(es[1..], zone));
      }
    }
  }

  lemma {:induction false} FindZone(es: seq<Entry>, zone: nat)
    ensures Find(es, zone).Some? <==> zone in Zones(es)
  {
    if es != [] {
      FindZone(es[1..], zone);
      assert Zones(es) == [es[0].zone] + Zones(es[1..]);
    }
  }

  predicate Different(zs: seq<nat>) {
    forall i, j :: 0 <= i < j < |zs| ==> zs[i] != zs[j]
  }

  lemma {:induction false} DropFacts(zs: seq<nat>, z: nat)
    requires Different(zs)
    ensures Different(Drop(zs, z)) && z !in Drop(zs, z)
    ensures forall x :: x in Drop(zs, z) <==> x in zs && x != z
    ensures |Drop(zs, z)| == |zs| - if z in zs then 1 else 0
  {
    if zs != [] {
      DropFacts(zs[1..], z);
      assert zs[0] !in zs[1..] by { HeadDifferent(zs); }
      if zs[0] != z { ConsDifferent(zs[0], Drop(zs[1..], z)); }
    }
  }

  lemma HeadDifferent(zs: seq<nat>)
    requires Different(zs) && zs != []
    ensures zs[0] !in zs[1..] && Different(zs[1..])
  {
    forall i | 1 <= i < |zs| ensures zs[i] != zs[0] {
    }
  }

  lemma ConsDifferent(x: nat, zs: seq<nat>)
    requires Different(zs) && x !in zs
    ensures Different([x] + zs)
  {
    var r := [x] + zs;
    forall i, j | 0 <= i < j < |r| ensures r[i] != r[j] {
      assert r[j] == zs[j - 1];
      if i > 0 { assert r[i] == zs[i - 1]; }
    }
  }

  /** Dropping commutes with cutting off the end, as long as what is dropped is in the part kept. */
  lemma {:induction false} DropFirst(zs: seq<nat>, z: nat, n: nat)
    requires Different(zs)
    ensures z in First(zs, n) ==> Drop(First(zs, n), z) == First(Drop(zs, z), n - 1)
    ensures z !in First(zs, n) ==> First(Drop(zs, z), n) == First(zs, n)
  {
    if zs != [] && n > 0 {
      hide Different, First, Drop;
      HeadDifferent(zs);
      assert zs == [zs[0]] + zs[1..];
      if zs[0] == z {
        DropFirstHead(zs[1..], z, n);
      } else {
        DropFirst(zs[1..], z, n - 1);
        DropFirstTail(zs[0], zs[1..], z, n);
      }
    }
  }

  lemma DropFirstHead(rest: seq<nat>, z: nat, n: nat)
    requires z !in rest && n > 0
    ensures z in First([z] + rest, n) && Drop(First([z] + rest, n), z) == First(Drop([z] + rest, z), n - 1)
  {
    hide First, Drop;
    FirstCons(z, rest, n);
    DropCons(z, rest, z);
    DropCons(z, First(rest, n - 1), z);
    InFirst(rest, n - 1, z);
    AbsentDrop(rest, z);
    AbsentDrop(First(rest, n - 1), z);
  }

  lemma DropFirstTail(x: nat, rest: seq<nat>, z: nat, n: nat)
    requires x != z && n > 0
    requires z in First(rest, n - 1) ==> Drop(First(rest, n - 1), z) == First(Drop(rest, z), n - 2)
    requires z !in First(rest, n - 1) ==> First(Drop(rest, z), n - 1) == First(rest, n - 1)
    ensures z in First([x] + rest, n) ==> Drop(First([x] + rest, n), z) == First(Drop([x] + rest, z), n - 1)
    ensures z !in First([x] + rest, n) ==> First(Drop([x] + rest, z), n) == First([x] + rest, n)
  {
    hide First, Drop;
    FirstCons(x, rest, n);
    DropCons(x, rest, z);
    DropCons(x, First(rest, n - 1), z);
    FirstCons(x, Drop(rest, z), n);
    if n > 1 { FirstCons(x, Drop(rest, z), n - 1); } else { FirstNone(rest); }
  }

  lemma DropCons(x: nat, rest: seq<nat>, z: nat)
    ensures Drop([x] + rest, z) == if x == z then Drop(rest, z) else [x] + Drop(rest, z)
  {
    assert ([x] + rest)[1..] == rest;
  }

  lemma InFirst(zs: seq<nat>, n: nat, z: nat)
    ensures z in First(zs, n) ==> z in zs
  {
  }

  lemma FirstNone(zs: seq<nat>)
    ensures First(zs, 0) == []
  {
  }

  lemma {:induction false} AbsentDrop(zs: seq<nat>, z: nat)
    requires z !in zs
    ensures Drop(zs, z) == zs
  {
    if zs != [] { AbsentDrop(zs[1..], z); }
  }

  lemma {:induction false} RecencyDifferent(zones: seq<nat>)
    ensures Different(Recency(zones))
  {
    if zones != [] {
      var n := |zones| - 1;
      RecencyDifferent(zones[..n]);
      DropFacts(Recency(zones[..n]), zones[n]);
    }
  }

  /** The cache is exactly least recently used: after any run it holds the most recently used zones, as many
      as its limit, in order of use; a larger cache holds all that a smaller one does. */
  lemma {:induction false} CacheIsRecency(zones: seq<nat>, fds: seq<nat>, max: nat)
    requires max >= 1 && |fds| == |zones|
    ensures Zones(AfterGets(zones, fds, max)) == First(Recency(zones), max)
  {
    if zones != [] {
      hide Touch, First, Drop, Find;
      var n := |zones| - 1;
      CacheIsRecency(zones[..n], fds[..n], max);
      RecencyDifferent(zones[..n]);
      TouchIsRecency(AfterGets(zones[..n], fds[..n], max), Recency(zones[..n]), zones[n], fds[n], max);
    } else {
      assert Zones([]) == First([], max);
    }
  }

  lemma TouchIsRecency(es: seq<Entry>, r: seq<nat>, z: nat, fd: nat, max: nat)
    requires max >= 1 && Different(r) && Zones(es) == First(r, max)
    ensures Zones(Touch(es, z, fd, max)) == First([z] + Drop(r, z), max)
  {
    FindZone(es, z);
    if Find(es, z).Some? {
      TouchHit(es, r, z, fd, max);
    } else {
      TouchMiss(es, r, z, fd, max);
    }
  }

  lemma TouchHit(es: seq<Entry>, r: seq<nat>, z: nat, fd: nat, max: nat)
    requires max >= 1 && Different(r) && Zones(es) == First(r, max) && z in First(r, max) && Find(es, z).Some?
    ensures Zones(Touch(es, z, fd, max)) == First([z] + Drop(r, z), max)
  {
    hide Drop, Different, Find, Without;
    DropFirst(r, z, max);
    ZonesWithout(es, z);
    ZonesCons(Entry(z, Find(es, z).value), Without(es, z));
    FirstCons(z, Drop(r, z), max);
  }

  lemma TouchMiss(es: seq<Entry>, r: seq<nat>, z: nat, fd: nat, max: nat)
    requires max >= 1 && Different(r) && Zones(es) == First(r, max) && z !in First(r, max) && Find(es, z).None?
    ensures Zones(Touch(es, z, fd, max)) == First([z] + Drop(r, z), max)
  {
    hide Drop, Different, Find, Without;
    FirstShorter(r, max, z);
    DropFirst(r, z, max - 1);
    assert Zones(Take(es, max - 1)) == First(r, max - 1);
    ZonesCons(Entry(z, fd), Take(es, max - 1));
    FirstCons(z, Drop(r, z), max);
  }

  lemma ZonesCons(e: Entry, es: seq<Entry>)
    ensures Zones([e] + es) == [e.zone] + Zones(es)
  {
  }

  lemma FirstCons(z: nat, zs: seq<nat>, n: nat)
    requires n >= 1
    ensures First([z] + zs, n) == [z] + First(zs, n - 1)
  {
  }

  lemma FirstShorter(zs: seq<nat>, n: nat, z: nat)
    requires n >= 1 && z !in First(zs, n)
    ensures z !in First(zs, n - 1)
  {
  }

  /** The number a cache is created or resized with bounds what it holds, over all runs, if and only if it is
      not zero. Zero is what a device without a limit gives, and then every file stays open. */
  lemma BoundedIff(max: nat)
    ensures (forall zones: seq<nat>, fds: seq<nat> :: |fds| == |zones| ==> |AfterGets(zones, fds, Limit(max))| <= max) <==> max >= 1
  {
    hide Touch, Recency, First;
    forall zones: seq<nat>, fds: seq<nat> | |fds| == |zones| ensures max >= 1 ==> |AfterGets(zones, fds, Limit(max))| <= max {
      CacheIsRecency(zones, fds, Limit(max));
      FirstBound(Recency(zones), Limit(max));
    }
    OneGet(Limit(max));
  }

  lemma FirstBound(zs: seq<nat>, n: nat)
    ensures |First(zs, n)| <= n
  {
  }

  lemma OneGet(max: nat)
    requires max >= 1
    ensures |AfterGets([0], [0], max)| == 1
  {
    assert [0][..0] == [];
    assert AfterGets([0], [0], max) == Touch([], 0, 0, max);
  }

  /** Nothing is ever closed for want of room if the limit is zero and fewer zones than an unsigned counts
      have been used. */
  lemma NoLimitAtZero(zones: seq<nat>, fds: seq<nat>)
    requires |fds| == |zones| && |Recency(zones)| <= UINT
    ensures Zones(AfterGets(zones, fds, Limit(0))) == Recency(zones)
  {
    CacheIsRecency(zones, fds, Limit(0));
  }
}
