/** Files as lists of extents over zones (ZoneFile in AquaZFS/fs/io_aquafs.h and io_aquafs.cc), as values:
    what a file holds, what its last persisted record says, and what recovery makes of that record. */
module Extents {
  import opened Coding
  import opened Zoned

  /** `length` live bytes from device address `start` on, in IO zone number `zone`. */
  datatype Extent = Extent(start: nat, length: nat, zone: nat)

  /** Sparse files put the length of each write in front of it. */
  const SPARSE_HEADER_SIZE: nat := 8

  /** Block size and address distance between zones. */
  datatype Grid = Grid(bs: nat, zoneSize: nat)

  predicate GridOk(g: Grid) {
    8 < g.bs && 0 < g.zoneSize && Aligned(g.zoneSize, g.bs)
  }

  predicate ExtentOk(zs: seq<Zone>, e: Extent) {
    && e.zone < |zs| && 0 < e.length
    && zs[e.zone].start <= e.start && e.start + e.length <= zs[e.zone].start + |zs[e.zone].data|
  }

  predicate ExtentsOk(zs: seq<Zone>, es: seq<Extent>) {
    forall i :: 0 <= i < |es| ==> ExtentOk(zs, es[i])
  }

  function ExtentBytes(zs: seq<Zone>, e: Extent): (s: seq<Byte>)
    requires ExtentOk(zs, e)
    ensures |s| == e.length
  {
    var at := e.start - zs[e.zone].start;
    zs[e.zone].data[at..at + e.length]
  }

  /** The bytes of a list of extents, end to end. */
  function Content(zs: seq<Zone>, es: seq<Extent>): (s: seq<Byte>)
    requires ExtentsOk(zs, es)
    ensures |s| == TotalLength(es)
  {
    if es == [] then [] else Content(zs, es[..|es| - 1]) + ExtentBytes(zs, es[|es| - 1])
  }

  function TotalLength(es: seq<Extent>): nat {
    if es == [] then 0 else TotalLength(es[..|es| - 1]) + es[|es| - 1].length
  }

  /** What a list of extents adds to a zone's count of live bytes. */
  function UsedBy(es: seq<Extent>, z: nat): nat {
    if es == [] then 0
    else UsedBy(es[..|es| - 1], z) + if es[|es| - 1].zone == z then es[|es| - 1].length else 0
  }

  lemma Snoc(es: seq<Extent>, e: Extent, z: nat)
    ensures TotalLength(es + [e]) == TotalLength(es) + e.length
    ensures UsedBy(es + [e], z) == UsedBy(es, z) + if e.zone == z then e.length else 0
  {
    assert (es + [e])[..|es|] == es;
  }

  lemma SnocContent(zs: seq<Zone>, es: seq<Extent>, e: Extent)
    requires ExtentsOk(zs, es) && ExtentOk(zs, e)
    ensures ExtentsOk(zs, es + [e]) && Content(zs, es + [e]) == Content(zs, es) + ExtentBytes(zs, e)
  {
    assert (es + [e])[..|es|] == es;
  }

  lemma TotalStep(es: seq<Extent>, k: nat)
    requires k < |es|
    ensures TotalLength(es[..k + 1]) == TotalLength(es[..k]) + es[k].length
  {
    assert es[..k + 1][..k] == es[..k];
  }

  lemma {:induction false} TotalPrefix(es: seq<Extent>, k: nat)
    requires k <= |es|
    ensures TotalLength(es[..k]) <= TotalLength(es)
  {
    assert es == es[..k] + es[k..];
    TotalConcat(es[..k], es[k..]);
  }

  lemma {:induction false} TotalConcat(a: seq<Extent>, b: seq<Extent>)
    ensures TotalLength(a + b) == TotalLength(a) + TotalLength(b)
    decreases |b|
  {
    if b == [] {
      assert a + b == a;
    } else {
      var n := |b| - 1;
      TotalConcat(a, b[..n]);
      assert a + b == (a + b[..n]) + [b[n]];
      Snoc(a + b[..n], b[n], 0);
    }
  }

  lemma {:induction false} ContentConcat(zs: seq<Zone>, a: seq<Extent>, b: seq<Extent>)
    requires ExtentsOk(zs, a) && ExtentsOk(zs, b)
    ensures ExtentsOk(zs, a + b) && Content(zs, a + b) == Content(zs, a) + Content(zs, b)
    decreases |b|
  {
    hide ExtentOk, ExtentBytes;
    if b == [] {
      assert a + b == a;
    } else {
      var n := |b| - 1;
      ContentConcat(zs, a, b[..n]);
      assert a + b == (a + b[..n]) + [b[n]];
      SnocContent(zs, a + b[..n], b[n]);
    }
  }

  /** Where extent i sits in the content. */
  lemma {:induction false} ContentAt(zs: seq<Zone>, es: seq<Extent>, i: nat)
    requires ExtentsOk(zs, es) && i < |es|
    ensures TotalLength(es[..i]) + es[i].length <= TotalLength(es)
    ensures Content(zs, es)[TotalLength(es[..i])..TotalLength(es[..i]) + es[i].length] == ExtentBytes(zs, es[i])
    decreases |es|
  {
    hide ExtentOk, ExtentBytes;
    var n := |es| - 1;
    if i < n {
      ContentAt(zs, es[..n], i);
      assert es[..n][..i] == es[..i];
    }
  }

  lemma {:induction false} UsedByMember(es: seq<Extent>, i: nat)
    requires i < |es|
    ensures UsedBy(es, es[i].zone) >= es[i].length
  {
    var n := |es| - 1;
    if i < n { UsedByMember(es[..n], i); }
  }

  /** Zones only written further, or finished. */
  predicate Grown(a: seq<Zone>, b: seq<Zone>) {
    && |a| == |b|
    && forall i :: 0 <= i < |a| ==> a[i].start == b[i].start && a[i].data <= b[i].data
  }

  /** The zones that a list of extents lies in have only been written further. */
  predicate GrownUnder(a: seq<Zone>, b: seq<Zone>, es: seq<Extent>) {
    && |a| == |b|
    && forall k :: 0 <= k < |es| && es[k].zone < |a| ==>
      b[es[k].zone].start == a[es[k].zone].start && a[es[k].zone].data <= b[es[k].zone].data
  }

  lemma {:induction false} ContentUnder(a: seq<Zone>, b: seq<Zone>, es: seq<Extent>)
    requires GrownUnder(a, b, es) && ExtentsOk(a, es)
    ensures ExtentsOk(b, es) && Content(b, es) == Content(a, es)
  {
    if es != [] {
      var n := |es| - 1;
      forall i | 0 <= i < |es| ensures ExtentOk(b, es[i]) { assert ExtentOk(a, es[i]); }
      ContentUnder(a, b, es[..n]);
      assert ExtentOk(a, es[n]) && ExtentBytes(b, es[n]) == ExtentBytes(a, es[n]);
    }
  }

  lemma ContentKept(a: seq<Zone>, b: seq<Zone>, es: seq<Extent>)
    requires Grown(a, b) && ExtentsOk(a, es)
    ensures ExtentsOk(b, es) && Content(b, es) == Content(a, es)
  {
    hide ExtentsOk, Content;
    ContentUnder(a, b, es);
  }

  // ---------------------------------------------------------------- what is written after the last record

  function Padded(n: nat, bs: nat): nat
    requires bs > 0
  {
    n + Pad(n, bs)
  }

  lemma PaddedIs(n: nat, bs: nat)
    requires bs > 0
    ensures Padded(n, bs) == n + Pad(n, bs)
  {
  }

  lemma PaddedMore(n: nat, bs: nat)
    requires bs > 0
    ensures Padded(n, bs) >= n
  {
  }

  /** Writes of extents one after the other, each of `h` header bytes, the extent, and padding. */
  predicate Chain(es: seq<Extent>, zone: nat, h: nat, from: nat, to: nat, bs: nat)
    requires bs > 0
  {
    if es == [] then from == to
    else
      && es[0].zone == zone && es[0].length > 0 && es[0].start == from + h
      && Chain(es[1..], zone, h, from + Padded(h + es[0].length, bs), to, bs)
  }

  lemma {:induction false} ChainSnoc(es: seq<Extent>, e: Extent, zone: nat, h: nat, from: nat, mid: nat, bs: nat)
    requires bs > 0 && Chain(es, zone, h, from, mid, bs)
    requires e.zone == zone && e.length > 0 && e.start == mid + h
    ensures Chain(es + [e], zone, h, from, mid + Padded(h + e.length, bs), bs)
  {
    if es == [] {
      assert (es + [e])[1..] == [];
    } else {
      ChainSnoc(es[1..], e, zone, h, from + Padded(h + es[0].length, bs), mid, bs);
      assert (es + [e])[1..] == es[1..] + [e];
    }
  }

  lemma {:induction false} ChainUnsnoc(es: seq<Extent>, e: Extent, zone: nat, h: nat, from: nat, to: nat, bs: nat)
    requires bs > 0 && Chain(es + [e], zone, h, from, to, bs)
    ensures e.zone == zone && e.length > 0 && e.start >= from + h
    ensures Chain(es, zone, h, from, e.start - h, bs) && to == e.start - h + Padded(h + e.length, bs)
    decreases |es|
  {
    if es == [] {
      assert (es + [e])[1..] == [];
    } else {
      assert (es + [e])[1..] == es[1..] + [e];
      ChainUnsnoc(es[1..], e, zone, h, from + Padded(h + es[0].length, bs), to, bs);
    }
  }

  lemma {:induction false} ChainForward(es: seq<Extent>, zone: nat, h: nat, from: nat, to: nat, bs: nat)
    requires bs > 0 && Chain(es, zone, h, from, to, bs)
    ensures from + TotalLength(es) <= to
    ensures es != [] ==> from < to
    ensures forall i :: 0 <= i < |es| ==> from <= es[i].start && es[i].start + es[i].length <= to && es[i].zone == zone
  {
    if es != [] {
      var mid := from + Padded(h + es[0].length, bs);
      ChainForward(es[1..], zone, h, mid, to, bs);
      ConsTotal(es);
      forall i | 0 <= i < |es| ensures from <= es[i].start && es[i].start + es[i].length <= to && es[i].zone == zone {
        if i > 0 { assert es[i] == es[1..][i - 1]; }
      }
    }
  }

  lemma {:induction false} ConsTotal(es: seq<Extent>)
    requires es != []
    ensures TotalLength(es) == es[0].length + TotalLength(es[1..])
    decreases |es|
  {
    var n := |es| - 1;
    if n == 0 {
      assert es[1..] == [];
    } else {
      ConsTotal(es[..n]);
      assert es[..n][1..] == es[1..][..n - 1];
    }
  }

  predicate BlockMultiples(es: seq<Extent>, bs: nat)
    requires bs > 0
  {
    forall i :: 0 <= i < |es| ==> Aligned(es[i].length, bs)
  }

  /** Without headers the writes fill their range exactly when none of them needed padding ... */
  lemma {:induction false} ChainTight(es: seq<Extent>, zone: nat, from: nat, to: nat, bs: nat)
    requires bs > 0 && Chain(es, zone, 0, from, to, bs)
    ensures from + TotalLength(es) == to <==> BlockMultiples(es, bs)
  {
    if es != [] {
      var mid := from + Padded(es[0].length, bs);
      ChainTight(es[1..], zone, mid, to, bs);
      ChainForward(es[1..], zone, 0, mid, to, bs);
      ConsTotal(es);
      assert BlockMultiples(es, bs) <==> Aligned(es[0].length, bs) && BlockMultiples(es[1..], bs) by {
        assert forall i :: 0 <= i < |es[1..]| ==> es[1..][i] == es[i + 1];
        if Aligned(es[0].length, bs) && BlockMultiples(es[1..], bs) {
          forall i | 0 <= i < |es| ensures Aligned(es[i].length, bs) {
            if i > 0 { assert es[i] == es[1..][i - 1]; }
          }
        }
      }
    }
  }

  lemma ExtentsOkParts(zs: seq<Zone>, es: seq<Extent>)
    requires ExtentsOk(zs, es) && es != []
    ensures ExtentsOk(zs, []) && ExtentOk(zs, es[0]) && ExtentsOk(zs, es[..1]) && ExtentsOk(zs, es[1..])
  {
  }

  /** ... and then they hold the very bytes of that range. */
  lemma {:induction false} ChainContent(zs: seq<Zone>, es: seq<Extent>, zone: nat, from: nat, to: nat, bs: nat)
    requires bs > 0 && Chain(es, zone, 0, from, to, bs) && BlockMultiples(es, bs)
    requires zone < |zs| && zs[zone].start <= from && to <= zs[zone].start + |zs[zone].data|
    requires ExtentsOk(zs, es)
    ensures from <= to && Content(zs, es) == zs[zone].data[from - zs[zone].start..to - zs[zone].start]
    decreases |es|
  {
    hide ExtentsOk, TotalLength;
    if es != [] {
      var mid := from + es[0].length;
      assert Aligned(es[0].length, bs);
      assert BlockMultiples(es[1..], bs) by {
        forall i | 0 <= i < |es[1..]| ensures Aligned(es[1..][i].length, bs) { assert es[1..][i] == es[i + 1]; }
      }
      ExtentsOkParts(zs, es);
      ChainContent(zs, es[1..], zone, mid, to, bs);
      ContentConcat(zs, es[..1], es[1..]);
      assert es == es[..1] + es[1..];
      assert es[..1] == [es[0]] == [] + [es[0]];
      SnocContent(zs, [], es[0]);
    }
  }
}
