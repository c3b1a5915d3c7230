/** Recovery of a file that was open for writing at a crash (ZoneFile::Recover and RecoverSparseExtents in
    AquaZFS/fs/io_aquafs.cc), from its last persisted record and the zones alone, and when it is exact. */
module Recovery {
  import opened Coding
  import opened Zoned
  import opened Extents
  import opened ZonedDevice
  import opened FileSteps

  datatype Found = Recovered(extents: seq<Extent>, size: nat) | Failed

  /** The writes whose headers stand one behind the other from `from` to `to`. */
  function Segments(z: Zone, zone: nat, from: nat, to: nat, bs: nat): Option<seq<Extent>>
    requires bs > 0
    decreases if from < to then to - from else 0
  {
    if from >= to then Some([])
    else if from < z.start || from - z.start + SPARSE_HEADER_SIZE > |z.data| then None
    else
      var n := GetFixed64(z.data[from - z.start..]).value.value;
      if n == 0 then None
      else
        var rest := Segments(z, zone, from + Padded(SPARSE_HEADER_SIZE + n, bs), to, bs);
        if rest.None? then None else Some([Extent(from + SPARSE_HEADER_SIZE, n, zone)] + rest.value)
  }

  function Recover(zs: seq<Zone>, s: Saved, sparse: bool, g: Grid): Found
    requires g.bs > 0
  {
    if s.extentStart.None? then Recovered(s.extents, s.size)
    else
      var p := s.extentStart.value;
      var zone := ZoneAt(zs, g.zoneSize, p, 0);
      if zone.None? || zs[zone.value].wp < p then Failed
      else
        var wp := zs[zone.value].wp;
        if wp == p then Recovered(s.extents, s.size)
        else if sparse then
          var segments := Segments(zs[zone.value], zone.value, p, wp, g.bs);
          if segments.None? then Failed
          else Recovered(s.extents + segments.value, TotalLength(s.extents + segments.value))
        else
          var es := s.extents + [Extent(p, wp - p, zone.value)];
          Recovered(es, TotalLength(es))
  }

  lemma {:induction false} SegmentsOfChain(zs: seq<Zone>, es: seq<Extent>, zone: nat, from: nat, to: nat, bs: nat)
    requires bs > 0 && zone < |zs| && Chain(es, zone, SPARSE_HEADER_SIZE, from, to, bs) && HeadersOk(zs, es)
    requires zs[zone].start <= from && to <= zs[zone].start + |zs[zone].data|
    ensures Segments(zs[zone], zone, from, to, bs) == Some(es)
    decreases |es|
  {
    hide HeaderOk, HeadersOk, GetFixed64, Segments, Padded;
    if es == [] {
      SegmentsNone(zs[zone], zone, from, bs);
    } else {
      var mid := from + Padded(SPARSE_HEADER_SIZE + es[0].length, bs);
      ChainForward(es, zone, SPARSE_HEADER_SIZE, from, to, bs);
      ChainForward(es[1..], zone, SPARSE_HEADER_SIZE, mid, to, bs);
      HeadersTail(zs, es);
      HeaderBounds(zs, es);
      SegmentsOfChain(zs, es[1..], zone, mid, to, bs);
      HeaderRead(zs, es[0]);
      SegmentsHead(zs[zone], zone, from, to, bs, es[0].length, es[1..]);
      assert es == [es[0]] + es[1..];
    }
  }

  lemma SegmentsNone(z: Zone, zone: nat, at: nat, bs: nat)
    requires bs > 0
    ensures Segments(z, zone, at, at, bs) == Some([])
  {
  }

  lemma SegmentsHead(z: Zone, zone: nat, from: nat, to: nat, bs: nat, n: nat, rest: seq<Extent>)
    requires bs > 0 && z.start <= from < to && from - z.start + SPARSE_HEADER_SIZE <= |z.data| && n > 0
    requires var d := z.data[from - z.start..]; GetFixed64(d).Some? && GetFixed64(d).value.value == n
    requires Segments(z, zone, from + Padded(SPARSE_HEADER_SIZE + n, bs), to, bs) == Some(rest)
    ensures Segments(z, zone, from, to, bs) == Some([Extent(from + SPARSE_HEADER_SIZE, n, zone)] + rest)
  {
    hide GetFixed64, Padded;
  }

  lemma {:induction false} SegmentsSome(z: Zone, zone: nat, from: nat, to: nat, bs: nat)
    requires bs > 0 && from < to && Segments(z, zone, from, to, bs).Some?
    ensures TotalLength(Segments(z, zone, from, to, bs).value) > 0
  {
    hide Padded;
    ConsTotal(Segments(z, zone, from, to, bs).value);
  }

  lemma HeaderBounds(zs: seq<Zone>, es: seq<Extent>)
    requires HeadersOk(zs, es) && es != []
    ensures HeaderOk(zs, es[0]) && es[0].length < W64
  {
    assert HeaderOk(zs, es[0]);
  }

  lemma HeaderRead(zs: seq<Zone>, e: Extent)
    requires HeaderOk(zs, e)
    ensures var d := zs[e.zone].data[e.start - SPARSE_HEADER_SIZE - zs[e.zone].start..];
      |d| >= SPARSE_HEADER_SIZE && GetFixed64(d) == Some(Parsed(e.length, d[SPARSE_HEADER_SIZE..]))
  {
    hide GetFixed64, PutFixed64;
    var d := zs[e.zone].data[e.start - SPARSE_HEADER_SIZE - zs[e.zone].start..];
    var k := e.start - SPARSE_HEADER_SIZE - zs[e.zone].start;
    assert d[..SPARSE_HEADER_SIZE] == zs[e.zone].data[k..k + SPARSE_HEADER_SIZE];
    assert d == d[..SPARSE_HEADER_SIZE] + d[SPARSE_HEADER_SIZE..];
    GetPutFixed64(e.length, d[SPARSE_HEADER_SIZE..]);
  }

  lemma HeadersTail(zs: seq<Zone>, es: seq<Extent>)
    requires HeadersOk(zs, es) && es != []
    ensures HeadersOk(zs, es[1..])
  {
    forall i | 0 <= i < |es[1..]| ensures HeaderOk(zs, es[1..][i]) { assert HeaderOk(zs, es[i + 1]); }
  }

  lemma HomeFound(zs: seq<Zone>, i: nat, at: nat, g: Grid)
    requires g.bs > 0 && ZonesOk(zs, g.bs, g.zoneSize) && i < |zs|
    requires zs[i].start <= at < zs[i].start + g.zoneSize
    ensures ZoneAt(zs, g.zoneSize, at, 0) == Some(i)
  {
    var r := ZoneAt(zs, g.zoneSize, at, 0).value;
    InOrder(zs, r, i, g.bs, g.zoneSize);
    InOrder(zs, i, r, g.bs, g.zoneSize);
  }

  /** The recorded start is in the zone that was written, not just past a zone filled to its last byte. */
  predicate Inside(zs: seq<Zone>, s: Saved, home: nat, g: Grid) {
    s.extentStart.Some? ==> home < |zs| && s.extentStart.value < zs[home].start + g.zoneSize
  }

  /** A sparse file comes back as the very list of extents that was in memory. */
  lemma SparseRecovery(zs: seq<Zone>, s: Saved, es: seq<Extent>, home: nat, g: Grid)
    requires GridOk(g) && ZonesOk(zs, g.bs, g.zoneSize)
    requires Covered(zs, s, es, true, home, g.bs) && Inside(zs, s, home, g)
    ensures Recover(zs, s, true, g) == Recovered(es, TotalLength(es))
  {
    hide Chain, TotalLength, Segments, HeadersOk, ZonesOk;
    if s.extentStart.Some? {
      var p, tail := s.extentStart.value, es[|s.extents|..];
      HomeFound(zs, home, p, g);
      ChainForward(tail, home, SPARSE_HEADER_SIZE, p, zs[home].wp, g.bs);
      assert es == s.extents + tail;
      if p == zs[home].wp {
        assert tail == [];
      } else {
        SegmentsOfChain(zs, tail, home, p, zs[home].wp, g.bs);
      }
    }
  }

  predicate Exact(zs: seq<Zone>, r: Found, es: seq<Extent>)
    requires ExtentsOk(zs, es)
  {
    && r.Recovered? && ExtentsOk(zs, r.extents)
    && Content(zs, r.extents) == Content(zs, es) && r.size == TotalLength(es)
  }

  /** The remaining writes of a file without headers, taken as one run of bytes up to the write pointer. */
  lemma RunRecovery(zs: seq<Zone>, s: Saved, es: seq<Extent>, home: nat, g: Grid)
    requires GridOk(g) && ZonesOk(zs, g.bs, g.zoneSize) && ExtentsOk(zs, es)
    requires Covered(zs, s, es, false, home, g.bs) && Inside(zs, s, home, g) && s.extentStart.Some?
    ensures Exact(zs, Recover(zs, s, false, g), es) <==> BlockMultiples(es[|s.extents|..], g.bs)
  {
    hide ExtentBytes, ZonesOk, HeadersOk, ExtentsOk, ExtentOk, BlockMultiples, Chain, Content, TotalLength;
    var p, tail, z := s.extentStart.value, es[|s.extents|..], zs[home];
    var wp := z.wp;
    HomeFound(zs, home, p, g);
    ChainForward(tail, home, 0, p, wp, g.bs);
    ChainTight(tail, home, p, wp, g.bs);
    Parts(zs, s, es);
    assert es == s.extents + tail;
    ContentConcat(zs, s.extents, tail);
    TotalConcat(s.extents, tail);
    if p == wp {
      assert tail == [];
    } else {
      var e := Extent(p, wp - p, home);
      Snoc(s.extents, e, 0);
      RunBytes(zs, home, p);
      SnocContent(zs, s.extents, e);
      if BlockMultiples(tail, g.bs) {
        ChainContent(zs, tail, home, p, wp, g.bs);
      }
    }
  }

  lemma RunBytes(zs: seq<Zone>, home: nat, p: nat)
    requires home < |zs| && Written(zs[home]) && zs[home].start <= p < zs[home].wp
    ensures ExtentOk(zs, Extent(p, zs[home].wp - p, home))
    ensures ExtentBytes(zs, Extent(p, zs[home].wp - p, home))
         == zs[home].data[p - zs[home].start..zs[home].wp - zs[home].start]
  {
  }

  lemma Parts(zs: seq<Zone>, s: Saved, es: seq<Extent>)
    requires ExtentsOk(zs, es) && |s.extents| <= |es| && es[..|s.extents|] == s.extents
    ensures ExtentsOk(zs, s.extents) && ExtentsOk(zs, es[|s.extents|..])
  {
    forall i | 0 <= i < |s.extents| ensures ExtentOk(zs, s.extents[i]) { assert s.extents[i] == es[i]; }
  }

  /** A record made when the zone was filled to its last byte points at the next zone: all is well only if
      there is one and it is empty. */
  lemma EdgeRecovery(zs: seq<Zone>, s: Saved, es: seq<Extent>, sparse: bool, home: nat, g: Grid)
    requires GridOk(g) && ZonesOk(zs, g.bs, g.zoneSize) && ExtentsOk(zs, es)
    requires Covered(zs, s, es, sparse, home, g.bs) && !Inside(zs, s, home, g)
    ensures Exact(zs, Recover(zs, s, sparse, g), es) <==>
      var next := ZoneAt(zs, g.zoneSize, s.extentStart.value, 0); next.Some? && IsEmpty(zs[next.value])
  {
    hide ExtentBytes, HeadersOk;
    var p, tail := s.extentStart.value, es[|s.extents|..];
    ChainForward(tail, home, HeaderSize(sparse), p, zs[home].wp, g.bs);
    assert ZoneOk(zs[home], g.bs, g.zoneSize);
    assert tail == [] && es == s.extents;
    var next := ZoneAt(zs, g.zoneSize, p, 0);
    if next.Some? {
      var n := next.value;
      InOrder(zs, home, n, g.bs, g.zoneSize);
      InOrder(zs, n, home, g.bs, g.zoneSize);
      assert zs[n].start == p;
      if !IsEmpty(zs[n]) { TooMuch(zs, s, sparse, n, g); }
    }
  }

  /** Another zone's data: whatever recovery makes of it, it adds something. */
  lemma TooMuch(zs: seq<Zone>, s: Saved, sparse: bool, n: nat, g: Grid)
    requires GridOk(g) && s.extentStart.Some? && n < |zs| && ExtentsOk(zs, s.extents)
    requires ZoneAt(zs, g.zoneSize, s.extentStart.value, 0) == Some(n) && zs[n].wp != s.extentStart.value
    ensures !Exact(zs, Recover(zs, s, sparse, g), s.extents)
  {
    hide Content, ExtentBytes, Segments;
    var p, wp := s.extentStart.value, zs[n].wp;
    if wp > p {
      var segments := Segments(zs[n], n, p, wp, g.bs);
      if sparse && segments.Some? {
        SegmentsSome(zs[n], n, p, wp, g.bs);
        TotalConcat(s.extents, segments.value);
      }
      Snoc(s.extents, Extent(p, wp - p, n), 0);
    }
  }

  /** Recovery gives back the content and the size exactly when: nothing was open; or the recorded start
      lies in the zone written to and the file is sparse or its writes were whole blocks; or that zone
      was full when the record was made, and the zone behind it is empty. */
  lemma RecoveryExact(zs: seq<Zone>, s: Saved, es: seq<Extent>, sparse: bool, home: nat, g: Grid)
    requires GridOk(g) && ZonesOk(zs, g.bs, g.zoneSize) && ExtentsOk(zs, es)
    requires Covered(zs, s, es, sparse, home, g.bs)
    ensures Exact(zs, Recover(zs, s, sparse, g), es) <==>
      || s.extentStart.None?
      || (Inside(zs, s, home, g) && (sparse || BlockMultiples(es[|s.extents|..], g.bs)))
      || (!Inside(zs, s, home, g)
          && var next := ZoneAt(zs, g.zoneSize, s.extentStart.value, 0); next.Some? && IsEmpty(zs[next.value]))
  {
    hide Covered, Recover, BlockMultiples, ZonesOk;
    if s.extentStart.Some? {
      if !Inside(zs, s, home, g) {
        EdgeRecovery(zs, s, es, sparse, home, g);
      } else if sparse {
        SparseRecovery(zs, s, es, home, g);
      } else {
        RunRecovery(zs, s, es, home, g);
      }
    } else {
      NothingOpen(zs, s, es, sparse, home, g);
    }
  }

  lemma NothingOpen(zs: seq<Zone>, s: Saved, es: seq<Extent>, sparse: bool, home: nat, g: Grid)
    requires g.bs > 0 && s.extentStart.None? && Covered(zs, s, es, sparse, home, g.bs)
    ensures Recover(zs, s, sparse, g) == Recovered(es, TotalLength(es))
  {
  }
}
