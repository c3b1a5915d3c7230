/** The live bytes that file objects count in the zones (`used_capacity_`), over a table whose objects live
    as long as a name, or a call under way, refers to them. */
module LiveBytes {
  import opened Coding
  import opened FileCodec
  import opened FileTable

  /** GetIOZone, by number. */
  function ZoneIndex(g: Geometry, at: nat, from: nat): Option<nat>
    requires from <= |g.ioStarts|
    decreases |g.ioStarts| - from
  {
    if from == |g.ioStarts| then None
    else if g.ioStarts[from] <= at < g.ioStarts[from] + g.zoneSize then Some(from)
    else ZoneIndex(g, at, from + 1)
  }

  /** What a list of extents counts in zone z. */
  function ExtentsIn(es: seq<Extent>, z: nat, g: Geometry): nat {
    if es == [] then 0
    else
      var e := es[|es| - 1];
      ExtentsIn(es[..|es| - 1], z, g) + if ZoneIndex(g, e.start, 0) == Some(z) then e.length else 0
  }

  lemma {:induction false} ExtentsInConcat(a: seq<Extent>, b: seq<Extent>, z: nat, g: Geometry)
    ensures ExtentsIn(a + b, z, g) == ExtentsIn(a, z, g) + ExtentsIn(b, z, g)
    decreases |b|
  {
    if b == [] {
      assert a + b == a;
    } else {
      var n := |b| - 1;
      ExtentsInConcat(a, b[..n], z, g);
      assert (a + b)[..|a + b| - 1] == a + b[..n];
    }
  }

  /** Objects that are alive: named, or held by the call under way. */
  predicate Alive(t: Table, held: set<Handle>, h: Handle) { Live(t, h) || h in held }

  /** What the first n objects count in zone z, if they are alive. */
  function AliveIn(t: Table, held: set<Handle>, n: nat, z: nat, g: Geometry): nat
    requires n <= |t.metas|
  {
    if n == 0 then 0
    else AliveIn(t, held, n - 1, z, g) + if Alive(t, held, n - 1) then ExtentsIn(t.metas[n - 1].extents, z, g) else 0
  }

  /** One object has changed, or come to life or died. */
  lemma {:induction false} AliveChange(t: Table, held: set<Handle>, t': Table, held': set<Handle>, h: Handle, n: nat, z: nat, g: Geometry)
    requires n <= |t.metas| == |t'.metas| && h < |t.metas|
    requires forall k :: 0 <= k < n && k != h ==> (Alive(t, held, k) <==> Alive(t', held', k)) && t'.metas[k].extents == t.metas[k].extents
    ensures AliveIn(t', held', n, z, g) == AliveIn(t, held, n, z, g)
      - (if h < n && Alive(t, held, h) then ExtentsIn(t.metas[h].extents, z, g) else 0)
      + (if h < n && Alive(t', held', h) then ExtentsIn(t'.metas[h].extents, z, g) else 0)
  {
    hide Alive, ExtentsIn;
    if n > 0 { AliveChange(t, held, t', held', h, n - 1, z, g); }
  }

  /** Nothing has changed. */
  lemma {:induction false} AliveSame(t: Table, held: set<Handle>, t': Table, held': set<Handle>, n: nat, z: nat, g: Geometry)
    requires n <= |t.metas| && n <= |t'.metas|
    requires forall k :: 0 <= k < n ==> (Alive(t, held, k) <==> Alive(t', held', k)) && t'.metas[k].extents == t.metas[k].extents
    ensures AliveIn(t', held', n, z, g) == AliveIn(t, held, n, z, g)
  {
    hide Alive, ExtentsIn;
    if n > 0 { AliveSame(t, held, t', held', n - 1, z, g); }
  }

  /** Every zone's count is what the objects alive have in it, and what temporary objects do besides. */
  predicate Balanced(used: seq<int>, t: Table, held: set<Handle>, temp: seq<Extent>, g: Geometry) {
    && |used| == |g.ioStarts|
    && forall z :: 0 <= z < |used| ==> used[z] == AliveIn(t, held, |t.metas|, z, g) + ExtentsIn(temp, z, g)
  }

  /** The counts after `sign` times a list of extents. */
  predicate Counted(used: seq<int>, used': seq<int>, es: seq<Extent>, sign: int, g: Geometry) {
    && |used| == |used'| == |g.ioStarts|
    && forall z :: 0 <= z < |used| ==> used'[z] == used[z] + sign * ExtentsIn(es, z, g)
  }

  lemma BalancedSize(used: seq<int>, t: Table, held: set<Handle>, temp: seq<Extent>, g: Geometry)
    requires Balanced(used, t, held, temp, g)
    ensures |used| == |g.ioStarts|
  {
  }

  lemma CountedNext(used: seq<int>, used': seq<int>, es: seq<Extent>, e: Extent, sign: int, g: Geometry)
    requires Counted(used, used', es, sign, g)
    ensures var z := ZoneIndex(g, e.start, 0);
      && (z.Some? ==> z.value < |used'| && Counted(used, used'[z.value := used'[z.value] + sign * e.length], es + [e], sign, g))
      && (z.None? ==> Counted(used, used', es + [e], sign, g))
  {
    ZoneIndexBound(g, e.start, 0);
    assert (es + [e])[..|es|] == es;
  }

  lemma {:induction false} ZoneIndexBound(g: Geometry, at: nat, from: nat)
    requires from <= |g.ioStarts|
    ensures ZoneIndex(g, at, from).Some? ==> ZoneIndex(g, at, from).value < |g.ioStarts|
    decreases |g.ioStarts| - from
  {
    if from < |g.ioStarts| { ZoneIndexBound(g, at, from + 1); }
  }

  /** An object let go, its extents taken off if that was its end. */
  lemma Released(used: seq<int>, used': seq<int>, t: Table, h: Handle, g: Geometry)
    requires h < |t.metas| && Balanced(used, t, {h}, [], g)
    requires if Live(t, h) then used' == used else Counted(used, used', t.metas[h].extents, -1, g)
    ensures Balanced(used', t, {}, [], g)
  {
    hide ExtentsIn, AliveIn;
    forall z | 0 <= z < |used| ensures used'[z] == AliveIn(t, {}, |t.metas|, z, g) + ExtentsIn([], z, g) {
      AliveChange(t, {h}, t, {}, h, |t.metas|, z, g);
    }
  }

  /** A temporary object, counted. */
  lemma Decoded(used: seq<int>, used': seq<int>, t: Table, t': Table, es: seq<Extent>, g: Geometry)
    requires Balanced(used, t, {}, [], g) && Counted(used, used', es, 1, g)
    requires t'.files == t.files && t'.metas == t.metas
    ensures Balanced(used', t', {}, es, g)
  {
    hide ExtentsIn, AliveIn;
    NoExtents(g);
    forall z | 0 <= z < |used| ensures used'[z] == AliveIn(t', {}, |t'.metas|, z, g) + ExtentsIn(es, z, g) {
      AliveSame(t, {}, t', {}, |t.metas|, z, g);
    }
  }

  lemma NoExtents(g: Geometry)
    ensures forall z: nat :: ExtentsIn([], z, g) == 0
  {
  }

  /** The temporary object is the new one. */
  lemma Entered(used: seq<int>, t: Table, u: FileMeta, g: Geometry)
    requires HandlesValid(t) && Balanced(used, t, {}, u.extents, g)
    ensures var t' := t.(metas := t.metas + [u]);
      Balanced(used, t', {|t.metas|}, [], g)
  {
    hide ExtentsIn;
    var t', n := t.(metas := t.metas + [u]), |t.metas|;
    NoExtents(g);
    assert forall k :: Live(t', k) <==> Live(t, k);
    forall z | 0 <= z < |used| ensures used[z] == AliveIn(t', {n}, |t'.metas|, z, g) + ExtentsIn([], z, g) {
      AliveSame(t, {}, t', {n}, n, z, g);
    }
  }

  /** A live object can be held without a difference. */
  lemma Holding(used: seq<int>, t: Table, h: Handle, temp: seq<Extent>, g: Geometry)
    requires Live(t, h) && Balanced(used, t, {}, temp, g)
    ensures Balanced(used, t, {h}, temp, g)
  {
    hide ExtentsIn, AliveIn;
    forall z | 0 <= z < |used| ensures used[z] == AliveIn(t, {h}, |t.metas|, z, g) + ExtentsIn(temp, z, g) {
      AliveSame(t, {}, t, {h}, |t.metas|, z, g);
    }
  }

  lemma CountedNone(used: seq<int>, es: seq<Extent>, sign: int, g: Geometry)
    requires |used| == |g.ioStarts| && es == []
    ensures Counted(used, used, es, sign, g)
  {
  }

  lemma CountedSize(used: seq<int>, used': seq<int>, es: seq<Extent>, sign: int, g: Geometry)
    requires Counted(used, used', es, sign, g)
    ensures |used'| == |g.ioStarts|
  {
  }

  /** Replaced extents off, the update's own on, and the update's temporary ones off. */
  lemma Merged(u0: seq<int>, u1: seq<int>, u2: seq<int>, u3: seq<int>, t: Table, h: Handle, u: FileMeta, replace: bool, g: Geometry)
    requires h < |t.metas| && Balanced(u0, t, {h}, u.extents, g)
    requires Counted(u0, u1, if replace then t.metas[h].extents else [], -1, g)
    requires Counted(u1, u2, u.extents, 1, g) && Counted(u2, u3, u.extents, -1, g)
    ensures Balanced(u3, t.(metas := t.metas[h := Merge(t.metas[h], u, replace)]), {h}, [], g)
  {
    hide ExtentsIn, AliveIn;
    var t' := t.(metas := t.metas[h := Merge(t.metas[h], u, replace)]);
    NoExtents(g);
    assert forall k :: Live(t', k) <==> Live(t, k);
    forall z | 0 <= z < |u3| ensures u3[z] == AliveIn(t', {h}, |t'.metas|, z, g) + ExtentsIn([], z, g) {
      ExtentsInConcat(if replace then [] else t.metas[h].extents, u.extents, z, g);
      AliveChange(t, {h}, t', {h}, h, |t.metas|, z, g);
    }
  }

  /** A name gone, and with its last one the object. */
  lemma Erased(used: seq<int>, used': seq<int>, t: Table, t': Table, name: Name, h: Handle, temp: seq<Extent>, g: Geometry)
    requires HandlesValid(t) && name in t.files && t' == t.(files := t.files - {name})
    requires Balanced(used, t, {h}, temp, g)
    requires
      if t.files[name] != h && !Live(t', t.files[name]) then Counted(used, used', t.metas[t.files[name]].extents, -1, g)
      else used' == used
    ensures Balanced(used', t', {h}, temp, g)
  {
    hide ExtentsIn, AliveIn;
    var other := t.files[name];
    forall k | k != other ensures Live(t', k) <==> Live(t, k) {
      if Live(t, k) {
        var n :| n in t.files && t.files[n] == k;
        assert n in t'.files && t'.files[n] == k;
      }
    }
    assert Live(t, other);
    forall z | 0 <= z < |used| ensures used'[z] == AliveIn(t', {h}, |t'.metas|, z, g) + ExtentsIn(temp, z, g) {
      AliveChange(t, {h}, t', {h}, other, |t.metas|, z, g);
    }
  }

  /** Names entered for an object that is held. */
  lemma Inserted(used: seq<int>, t: Table, t': Table, names: seq<Name>, h: Handle, g: Geometry)
    requires HandlesValid(t) && h < |t.metas| && t' == t.(files := InsertNames(t.files, names, h))
    requires Balanced(used, t, {h}, [], g)
    ensures HandlesValid(t') && Balanced(used, t', {h}, [], g)
  {
    hide ExtentsIn, AliveIn, InsertNames;
    InsertNamesAt(t.files, names, h);
    forall k | k != h ensures Live(t', k) <==> Live(t, k) {
      if Live(t, k) {
        var n :| n in t.files && t.files[n] == k;
        assert n in t'.files && t'.files[n] == k;
      }
    }
    forall z | 0 <= z < |used| ensures used[z] == AliveIn(t', {h}, |t'.metas|, z, g) + ExtentsIn([], z, g) {
      AliveSame(t, {h}, t', {h}, |t.metas|, z, g);
    }
  }

  lemma NamedIsLive(t: Table, h: Handle)
    ensures Alive(t, {}, h) <==> exists n :: n in t.files && t.files[n] == h
  {
  }

  lemma CountedAt(used: seq<int>, used': seq<int>, es: seq<Extent>, g: Geometry)
    requires Counted(used, used', es, -1, g)
    ensures |used| == |used'| && forall z :: 0 <= z < |used| ==> used'[z] == used[z] - ExtentsIn(es, z, g)
  {
  }

  /** Links do not count. */
  lemma Relinked(used: seq<int>, t: Table, t': Table, h: Handle, g: Geometry)
    requires h < |t.metas| && t'.files == t.files && |t'.metas| == |t.metas| && Balanced(used, t, {h}, [], g)
    requires forall k :: 0 <= k < |t.metas| ==> t'.metas[k].extents == t.metas[k].extents
    ensures Balanced(used, t', {h}, [], g)
  {
    hide ExtentsIn, AliveIn;
    assert forall k :: Live(t', k) <==> Live(t, k);
    forall z | 0 <= z < |used| ensures used[z] == AliveIn(t', {h}, |t'.metas|, z, g) + ExtentsIn([], z, g) {
      AliveSame(t, {h}, t', {h}, |t.metas|, z, g);
    }
  }
}
