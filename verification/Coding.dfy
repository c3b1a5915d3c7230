/** The little-endian, varint and length-prefixed encodings of AquaZFS/base/coding.h, coding.cc and
    coding_lean.h. A slice is a sequence of bytes; a Get operation yields the value and what is left. */
module Coding {
  import opened Powers

  type Byte = n: nat | n < 0x100

  const W32: nat := 0x1_0000_0000
  const W64: nat := 0x1_0000_0000_0000_0000

  type U32 = n: nat | n < W32
  type U64 = n: nat | n < W64

  datatype Option<+T> = None | Some(value: T)

  /** A decoded value and the rest of the input. */
  datatype Parsed<+T> = Parsed(value: T, rest: seq<Byte>)

  // ---------------------------------------------------------------------------------------------
  // Fixed-width integers
  // ---------------------------------------------------------------------------------------------

  /** `n` little-endian bytes of `v`. */
  function PutFixed(v: nat, n: nat): (s: seq<Byte>)
    ensures |s| == n
    decreases n
  {
    if n == 0 then [] else [v % 0x100] + PutFixed(v / 0x100, n - 1)
  }

  function DecodeFixed(s: seq<Byte>): nat {
    if s == [] then 0 else s[0] + 0x100 * DecodeFixed(s[1..])
  }

  lemma {:induction false} DecodePutFixed(v: nat, n: nat)
    requires v < Pow256(n)
    ensures DecodeFixed(PutFixed(v, n)) == v
    decreases n
  {
    if n > 0 {
      DecodePutFixed(v / 0x100, n - 1);
      assert PutFixed(v, n)[1..] == PutFixed(v / 0x100, n - 1);
    }
  }

  lemma {:induction false} DecodeFixedBound(s: seq<Byte>)
    ensures DecodeFixed(s) < Pow256(|s|)
    decreases |s|
  {
    if s != [] {
      DecodeFixedBound(s[1..]);
    }
  }

  lemma {:induction false} PutDecodeFixed(s: seq<Byte>)
    ensures PutFixed(DecodeFixed(s), |s|) == s
    decreases |s|
  {
    if s != [] {
      PutDecodeFixed(s[1..]);
      var v := DecodeFixed(s);
      assert v % 0x100 == s[0] && v / 0x100 == DecodeFixed(s[1..]);
    }
  }

  lemma Widths()
    ensures Pow256(4) == W32 && Pow256(8) == W64
  {
    assert Pow256(4) == 0x100 * 0x100 * Pow256(2);
    assert Pow256(8) == 0x100 * 0x100 * 0x100 * 0x100 * Pow256(4);
  }

  function PutFixed32(v: U32): (s: seq<Byte>)
    ensures |s| == 4
  {
    PutFixed(v, 4)
  }

  function PutFixed64(v: U64): (s: seq<Byte>)
    ensures |s| == 8
  {
    PutFixed(v, 8)
  }

  function GetFixed32(input: seq<Byte>): (r: Option<Parsed<U32>>)
    ensures r.Some? <==> |input| >= 4
    ensures r.Some? ==> input == PutFixed32(r.value.value) + r.value.rest
  {
    if |input| < 4 then None
    else
      DecodeFixedBound(input[..4]);
      Widths();
      PutDecodeFixed(input[..4]);
      assert input == input[..4] + input[4..];
      Some(Parsed(DecodeFixed(input[..4]), input[4..]))
  }

  function GetFixed64(input: seq<Byte>): (r: Option<Parsed<U64>>)
    ensures r.Some? <==> |input| >= 8
    ensures r.Some? ==> input == PutFixed64(r.value.value) + r.value.rest
  {
    if |input| < 8 then None
    else
      DecodeFixedBound(input[..8]);
      Widths();
      PutDecodeFixed(input[..8]);
      assert input == input[..8] + input[8..];
      Some(Parsed(DecodeFixed(input[..8]), input[8..]))
  }

  lemma GetPutFixed32(v: U32, rest: seq<Byte>)
    ensures GetFixed32(PutFixed32(v) + rest) == Some(Parsed(v, rest))
  {
    var input := PutFixed32(v) + rest;
    assert input[..4] == PutFixed32(v) && input[4..] == rest;
    Widths();
    DecodePutFixed(v, 4);
  }

  lemma GetPutFixed64(v: U64, rest: seq<Byte>)
    ensures GetFixed64(PutFixed64(v) + rest) == Some(Parsed(v, rest))
  {
    var input := PutFixed64(v) + rest;
    assert input[..8] == PutFixed64(v) && input[8..] == rest;
    Widths();
    DecodePutFixed(v, 8);
  }

  // ---------------------------------------------------------------------------------------------
  // Varints
  // ---------------------------------------------------------------------------------------------

  /** Seven bits per byte, least significant first; the high bit marks that more follow. */
  function Varint(v: nat): (s: seq<Byte>)
    ensures |s| >= 1
  {
    if v < 0x80 then [v] else [0x80 + v % 0x80] + Varint(v / 0x80)
  }

  /** EncodeVarint64, the loop of coding.h. */
  method EncodeVarint64(v: U64) returns (s: seq<Byte>)
    ensures s == Varint(v)
  {
    var left: nat := v;
    s := [];
    while left >= 0x80
      invariant s + Varint(left) == Varint(v)
      decreases left
    {
      s := s + [0x80 + left % 0x80];
      left := left / 0x80;
    }
    s := s + [left];
  }

  /** VarintLength, the other loop of coding.h. */
  method VarintLength(v: U64) returns (len: nat)
    ensures len == |Varint(v)|
  {
    var left: nat := v;
    len := 1;
    while left >= 0x80
      invariant len + |Varint(left)| == |Varint(v)| + 1
      decreases left
    {
      left := left / 0x80;
      len := len + 1;
    }
  }

  /** EncodeVarint32, the five cases of coding.cc; storing into a byte keeps the low eight bits. */
  function EncodeVarint32(v: U32): (s: seq<Byte>) {
    if v < 0x80 then [v]
    else if v < 0x4000 then [0x80 + v % 0x80, v / 0x80]
    else if v < 0x20_0000 then [0x80 + v % 0x80, 0x80 + (v / 0x80) % 0x80, v / 0x4000]
    else if v < 0x1000_0000 then
      [0x80 + v % 0x80, 0x80 + (v / 0x80) % 0x80, 0x80 + (v / 0x4000) % 0x80, v / 0x20_0000]
    else
      [0x80 + v % 0x80, 0x80 + (v / 0x80) % 0x80, 0x80 + (v / 0x4000) % 0x80, 0x80 + (v / 0x20_0000) % 0x80, v / 0x1000_0000]
  }

  /** The unrolled encoder is the general one. */
  lemma EncodeVarint32IsVarint(v: U32)
    ensures EncodeVarint32(v) == Varint(v)
  {
    var v1 := v / 0x80;
    var v2 := v1 / 0x80;
    var v3 := v2 / 0x80;
    var v4 := v3 / 0x80;
    assert v2 == v / 0x4000;
    assert v3 == v / 0x20_0000;
    assert v4 == v / 0x1000_0000;
    assert v4 < 0x80;
    VarintUnfold(v);
    VarintUnfold(v1);
    VarintUnfold(v2);
    VarintUnfold(v3);
    VarintUnfold(v4);
    hide Varint;
  }

  lemma VarintUnfold(v: nat)
    ensures Varint(v) == if v < 0x80 then [v] else [0x80 + v % 0x80] + Varint(v / 0x80)
  {
  }

  /** `d << shift` on 32-bit words. */
  function ShiftLeft(d: nat, shift: nat): U32 {
    (d * Pow2(shift)) % W32
  }

  lemma ShiftLeftFits(d: nat, shift: nat)
    requires 0 <= d * Pow2(shift) < W32
    ensures ShiftLeft(d, shift) == d * Pow2(shift)
  {
  }

  /** What GetVarint32Ptr accepts: up to five bytes, the sum reduced to 32 bits. */
  function DecodeVarint(input: seq<Byte>, shift: nat, acc: nat): (r: Option<Parsed<nat>>)
    decreases |input|
  {
    if shift > 28 || input == [] then None
    else
      var b := input[0];
      if b >= 0x80 then DecodeVarint(input[1..], shift + 7, acc + ShiftLeft(b - 0x80, shift))
      else Some(Parsed(acc + ShiftLeft(b, shift), input[1..]))
  }

  lemma Pow2Seven(k: nat)
    ensures Pow2(k + 7) == 0x80 * Pow2(k)
  {
    assert Pow2(k + 2) == 2 * Pow2(k + 1);
    assert Pow2(k + 4) == 2 * Pow2(k + 3);
    assert Pow2(k + 6) == 2 * Pow2(k + 5);
  }

  lemma {:induction false} Pow2AtLeast32(k: nat)
    requires k >= 32
    ensures Pow2(k) >= W32
    decreases k
  {
    if k == 32 {
      assert Pow2(8) == 0x100;
      assert Pow2(16) == 0x100 * Pow2(8);
      assert Pow2(24) == 0x100 * Pow2(16);
    } else {
      Pow2AtLeast32(k - 1);
    }
  }

  /** One digit of a base-128 number, and what remains of it one position up. */
  lemma SplitDigit(v: nat, p: nat)
    ensures v * p == (v % 0x80) * p + (v / 0x80) * (0x80 * p)
    ensures 0 <= (v % 0x80) * p && 0 <= (v / 0x80) * (0x80 * p)
    ensures v / 0x80 >= 1 ==> 0x80 * p <= (v / 0x80) * (0x80 * p)
  {
    var q, r := v / 0x80, v % 0x80;
    assert v == 0x80 * q + r;
    assert (0x80 * q + r) * p == 0x80 * q * p + r * p;
    assert q * (0x80 * p) == 0x80 * q * p;
    Scale(q, 0x80 * p);
  }

  lemma Scale(q: nat, p: nat)
    ensures 0 <= q * p
    ensures q >= 1 ==> p <= q * p
  {
  }

  lemma {:induction false} DecodeOfVarint(v: nat, shift: nat, acc: nat, rest: seq<Byte>)
    requires shift % 7 == 0 && shift <= 28
    requires v * Pow2(shift) < W32
    ensures DecodeVarint(Varint(v) + rest, shift, acc) == Some(Parsed(acc + v * Pow2(shift), rest))
    decreases v
  {
    hide Pow2, ShiftLeft;
    var p := Pow2(shift);
    var input := Varint(v) + rest;
    assert input[0] == Varint(v)[0];
    assert input[1..] == Varint(v)[1..] + rest;
    Scale(v, p);
    if v < 0x80 {
      assert input[1..] == rest;
      ShiftLeftFits(v, shift);
    } else {
      SplitDigit(v, p);
      Pow2Seven(shift);
      ShiftLeftFits(v % 0x80, shift);
      if shift + 7 > 28 {
        Pow2AtLeast32(shift + 7);
      }
      DecodeOfVarint(v / 0x80, shift + 7, acc + (v % 0x80) * p, rest);
      assert Varint(v)[1..] == Varint(v / 0x80);
    }
  }

  /** GetVarint32Ptr: the one-byte fast path, then the loop of GetVarint32PtrFallback. */
  method GetVarint32(input: seq<Byte>) returns (r: Option<Parsed<nat>>)
    ensures r == DecodeVarint(input, 0, 0)
  {
    if |input| > 0 && input[0] < 0x80 {
      return Some(Parsed(input[0], input[1..]));
    }
    var result: nat, shift: nat, p: nat := 0, 0, 0;
    while shift <= 28 && p < |input|
      invariant p <= |input|
      invariant DecodeVarint(input[p..], shift, result) == DecodeVarint(input, 0, 0)
    {
      var b := input[p];
      assert input[p..][1..] == input[p + 1..];
      p := p + 1;
      if b >= 0x80 {
        result := result + ShiftLeft(b - 0x80, shift);
      } else {
        result := result + ShiftLeft(b, shift);
        return Some(Parsed(result, input[p..]));
      }
      shift := shift + 7;
    }
    r := None;
  }

  // ---------------------------------------------------------------------------------------------
  // Length-prefixed slices
  // ---------------------------------------------------------------------------------------------

  /** The length is cast to 32 bits before it is written. */
  function PutLengthPrefixed(s: seq<Byte>): seq<Byte> {
    EncodeVarint32(|s| % W32) + s
  }

  function GetLengthPrefixed(input: seq<Byte>): Option<Parsed<seq<Byte>>> {
    match DecodeVarint(input, 0, 0)
    case None => None
    case Some(p) =>
      if |p.rest| >= p.value then Some(Parsed(p.rest[..p.value], p.rest[p.value..])) else None
  }

  /** A length-prefixed slice reads back exactly when its length fits the 32-bit prefix. */
  lemma GetPutLengthPrefixed(s: seq<Byte>, rest: seq<Byte>)
    ensures GetLengthPrefixed(PutLengthPrefixed(s) + rest) == Some(Parsed(s, rest)) <==> |s| < W32
  {
    var n := |s| % W32;
    EncodeVarint32IsVarint(n);
    assert Pow2(0) == 1;
    DecodeOfVarint(n, 0, 0, s + rest);
    assert PutLengthPrefixed(s) + rest == Varint(n) + (s + rest);
    assert n * Pow2(0) == n;
    assert (s + rest)[..n] == s[..n];
    assert |s| < W32 ==> s[..n] == s && (s + rest)[n..] == rest;
  }
}
