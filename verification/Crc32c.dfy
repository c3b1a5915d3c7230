/** CRC-32C as AquaZFS/util/crc32c.cc computes it: the portable table-driven extension and the
    logarithmic combination of two checksums. The reference is the bit-by-bit definition of
    section 13.1 of RFC 7143: reflected polynomial, register preset to ones, result complemented. */
module Crc32c {
  import opened Crc32cTables
  import opened Powers

  type Byte = bv8

  /** The reflected Castagnoli polynomial, `crc32c_m` in the source. */
  const POLY: bv32 := 0x82f63b78

  /** The polynomial 1 in the reflected representation. */
  const ONE: bv32 := 0x80000000

  // ---------------------------------------------------------------------------------------------
  // Words as polynomials over GF(2): the named operations keep bit-level detail out of the algebra
  // ---------------------------------------------------------------------------------------------

  function Xor(a: bv32, b: bv32): bv32 { a ^ b }

  function Half(a: bv32): bv32 { a >> 1 }

  function Double(a: bv32): bv32 { a << 1 }

  predicate Low(a: bv32) { a & 1 == 1 }

  predicate High(a: bv32) { (a >> 31) & 1 == 1 }

  function When(cond: bool, a: bv32): bv32 { if cond then a else 0 }

  lemma XorCommutes(a: bv32, b: bv32)
    ensures Xor(a, b) == Xor(b, a)
  {
    assert a ^ b == b ^ a;
  }

  lemma XorAssociates(a: bv32, b: bv32, c: bv32)
    ensures Xor(Xor(a, b), c) == Xor(a, Xor(b, c))
  {
    assert (a ^ b) ^ c == a ^ (b ^ c);
  }

  lemma XorUnit(a: bv32)
    ensures Xor(a, 0) == a
    ensures Xor(0, a) == a
    ensures Xor(a, a) == 0
  {
    assert a ^ 0 == a && 0 ^ a == a && a ^ a == 0;
  }

  lemma XorRules(a: bv32, b: bv32, c: bv32)
    ensures Xor(a, b) == Xor(b, a)
    ensures Xor(Xor(a, b), c) == Xor(a, Xor(b, c))
    ensures Xor(a, 0) == a
    ensures Xor(0, a) == a
    ensures Xor(a, a) == 0
  {
    hide Xor;
    XorCommutes(a, b);
    XorAssociates(a, b, c);
    XorUnit(a);
  }

  lemma XorSwap(a: bv32, b: bv32, c: bv32, d: bv32)
    ensures Xor(Xor(a, b), Xor(c, d)) == Xor(Xor(a, c), Xor(b, d))
  {
    hide Xor;
    XorRules(a, b, Xor(c, d));
    XorRules(b, c, d);
    XorRules(c, b, d);
    XorRules(a, c, Xor(b, d));
  }

  lemma HalfXor(a: bv32, b: bv32)
    ensures Half(Xor(a, b)) == Xor(Half(a), Half(b))
  {
  }

  lemma DoubleXor(a: bv32, b: bv32)
    ensures Double(Xor(a, b)) == Xor(Double(a), Double(b))
  {
  }

  lemma LowXor(a: bv32, b: bv32)
    ensures Low(Xor(a, b)) == (Low(a) != Low(b))
  {
  }

  lemma HighXor(a: bv32, b: bv32)
    ensures High(Xor(a, b)) == (High(a) != High(b))
  {
  }

  lemma WhenXor(p: bool, q: bool, a: bv32, b: bv32)
    ensures When(p, Xor(a, b)) == Xor(When(p, a), When(p, b))
    ensures When(p != q, a) == Xor(When(p, a), When(q, a))
  {
    XorRules(a, b, 0);
    XorRules(a, a, 0);
    XorRules(0, 0, 0);
  }

  // ---------------------------------------------------------------------------------------------
  // The bit-by-bit reference
  // ---------------------------------------------------------------------------------------------

  /** Shifts one message bit into the register. */
  function FeedBit(c: bv32, bit: bool): bv32 {
    Xor(Half(c), When(Low(c) != bit, POLY))
  }

  function FeedBits(c: bv32, bits: seq<bool>): bv32
    decreases |bits|
  {
    if bits == [] then c else FeedBits(FeedBit(c, bits[0]), bits[1..])
  }

  /** The bits of a byte in transmission order, least significant first. */
  function ByteBits(b: Byte): (bits: seq<bool>)
    ensures |bits| == 8
  {
    [LowBit(b), LowBit(b >> 1), LowBit(b >> 2), LowBit(b >> 3),
     LowBit(b >> 4), LowBit(b >> 5), LowBit(b >> 6), LowBit(b >> 7)]
  }

  predicate LowBit(b: Byte) { b & 1 == 1 }

  function MessageBits(s: seq<Byte>): (bits: seq<bool>)
    ensures |bits| == 8 * |s|
  {
    if s == [] then [] else ByteBits(s[0]) + MessageBits(s[1..])
  }

  function Not(a: bv32): bv32 { !a }

  /** CRC-32C of `s`, continuing from a string whose checksum is `crc`. */
  function ReferenceExtend(crc: bv32, s: seq<Byte>): bv32 {
    Not(FeedBits(Not(crc), MessageBits(s)))
  }

  function ReferenceCrc(s: seq<Byte>): bv32 {
    ReferenceExtend(0, s)
  }

  // ---------------------------------------------------------------------------------------------
  // Register arithmetic: one zero bit is multiplication by x
  // ---------------------------------------------------------------------------------------------

  function Step(c: bv32): bv32 {
    Xor(Half(c), When(Low(c), POLY))
  }

  /** The register after `n` zero bits. */
  function Bits(c: bv32, n: nat): bv32
    decreases n
  {
    if n == 0 then c else Bits(Step(c), n - 1)
  }

  lemma StepXor(a: bv32, b: bv32)
    ensures Step(Xor(a, b)) == Xor(Step(a), Step(b))
  {
    HalfXor(a, b);
    LowXor(a, b);
    WhenXor(Low(a), Low(b), POLY, 0);
    XorSwap(Half(a), When(Low(a), POLY), Half(b), When(Low(b), POLY));
  }

  lemma {:induction false} BitsXor(a: bv32, b: bv32, n: nat)
    ensures Bits(Xor(a, b), n) == Xor(Bits(a, n), Bits(b, n))
    decreases n
  {
    if n > 0 {
      StepXor(a, b);
      BitsXor(Step(a), Step(b), n - 1);
    }
  }

  lemma {:induction false} BitsAdd(c: bv32, m: nat, n: nat)
    ensures Bits(c, m + n) == Bits(Bits(c, m), n)
    decreases m
  {
    if m > 0 {
      BitsAdd(Step(c), m - 1, n);
    }
  }

  lemma {:induction false} BitsZero(n: nat)
    ensures Bits(0, n) == 0
    decreases n
  {
    if n > 0 {
      assert Step(0) == 0;
      BitsZero(n - 1);
    }
  }

  lemma {:induction false} BitsStep(c: bv32, n: nat)
    ensures Bits(Step(c), n) == Step(Bits(c, n))
    decreases n
  {
    if n > 0 {
      BitsStep(Step(c), n - 1);
    }
  }

  // ---------------------------------------------------------------------------------------------
  // Byte-at-a-time equals bit-at-a-time
  // ---------------------------------------------------------------------------------------------

  function Word(b: Byte): bv32 { b as bv32 }

  /** The register after feeding `s` a byte at a time. */
  function Feed(c: bv32, s: seq<Byte>): bv32
    decreases |s|
  {
    if s == [] then c else Feed(Bits(Xor(c, Word(s[0])), 8), s[1..])
  }

  function Shr(b: Byte, n: nat): Byte
    requires n <= 8
  {
    b >> n
  }

  lemma ShrOnce(b: Byte, n: nat)
    requires n < 8
    ensures Shr(Shr(b, n), 1) == Shr(b, n + 1)
  {
  }

  lemma WordHalf(b: Byte)
    ensures Half(Word(b)) == Word(Shr(b, 1))
    ensures Low(Word(b)) == LowBit(b)
  {
  }

  /** One step with a byte mixed in consumes its low bit; the rest waits, shifted. */
  lemma FeedBitWaits(c: bv32, b: Byte)
    ensures Step(Xor(c, Word(b))) == Xor(FeedBit(c, LowBit(b)), Word(Shr(b, 1)))
  {
    WordHalf(b);
    HalfXor(c, Word(b));
    LowXor(c, Word(b));
    var p := When(Low(c) != LowBit(b), POLY);
    XorRules(Half(c), Word(Shr(b, 1)), p);
    XorRules(Half(c), p, Word(Shr(b, 1)));
    XorRules(Word(Shr(b, 1)), p, 0);
  }

  lemma {:induction false} FeedBitsAppend(c: bv32, s: seq<bool>, t: seq<bool>)
    ensures FeedBits(c, s + t) == FeedBits(FeedBits(c, s), t)
    decreases |s|
  {
    if s == [] {
      assert s + t == t;
    } else {
      assert (s + t)[1..] == s[1..] + t;
      FeedBitsAppend(FeedBit(c, s[0]), s[1..], t);
    }
  }

  /** The byte's bits from the `n`-th on take exactly the steps that are left. */
  lemma {:induction false} FeedHighBits(c: bv32, b: Byte, n: nat)
    requires n <= 8
    ensures Bits(Xor(c, Word(Shr(b, n))), 8 - n) == FeedBits(c, ByteBits(b)[n..])
    decreases 8 - n
  {
    if n == 8 {
      assert Word(Shr(b, 8)) == 0;
      XorRules(c, 0, 0);
    } else {
      var rest := ByteBits(b)[n..];
      FeedBitWaits(c, Shr(b, n));
      ShrOnce(b, n);
      ByteBit(b, n);
      hide ByteBits, Xor, Word, Shr, FeedBit, Step, LowBit;
      assert rest[1..] == ByteBits(b)[n + 1..];
      FeedHighBits(FeedBit(c, rest[0]), b, n + 1);
    }
  }

  lemma ByteBit(b: Byte, n: nat)
    requires n < 8
    ensures ByteBits(b)[n] == LowBit(Shr(b, n))
  {
    assert b >> 0 == b;
    if n == 0 {} else if n == 1 {} else if n == 2 {} else if n == 3 {}
    else if n == 4 {} else if n == 5 {} else if n == 6 {} else {}
  }

  lemma {:induction false} FeedIsBitwise(c: bv32, s: seq<Byte>)
    ensures Feed(c, s) == FeedBits(c, MessageBits(s))
    decreases |s|
  {
    if s != [] {
      assert Shr(s[0], 0) == s[0];
      FeedHighBits(c, s[0], 0);
      assert ByteBits(s[0])[0..] == ByteBits(s[0]);
      FeedBitsAppend(c, ByteBits(s[0]), MessageBits(s[1..]));
      FeedIsBitwise(Bits(Xor(c, Word(s[0])), 8), s[1..]);
    }
  }

  lemma {:induction false} FeedAppend(c: bv32, s: seq<Byte>, t: seq<Byte>)
    ensures Feed(c, s + t) == Feed(Feed(c, s), t)
    decreases |s|
  {
    if s == [] {
      assert s + t == t;
    } else {
      assert (s + t)[1..] == s[1..] + t;
      FeedAppend(Bits(Xor(c, Word(s[0])), 8), s[1..], t);
    }
  }

  lemma NotNot(a: bv32)
    ensures Not(Not(a)) == a
    ensures Not(a) == Xor(a, 0xffffffff)
  {
  }

  lemma ExtendIsFeed(crc: bv32, s: seq<Byte>)
    ensures ReferenceExtend(crc, s) == Not(Feed(Not(crc), s))
  {
    FeedIsBitwise(Not(crc), s);
  }

  /** Extending twice is extending by the concatenation. */
  lemma ExtendAppend(crc: bv32, s: seq<Byte>, t: seq<Byte>)
    ensures ReferenceExtend(ReferenceExtend(crc, s), t) == ReferenceExtend(crc, s + t)
  {
    FeedIsBitwise(Not(crc), s);
    NotNot(Feed(Not(crc), s));
    FeedIsBitwise(Feed(Not(crc), s), t);
    FeedIsBitwise(Not(crc), s + t);
    FeedAppend(Not(crc), s, t);
  }

  // ---------------------------------------------------------------------------------------------
  // The published tables hold 8, 16, 24 and 32 steps of every byte
  // ---------------------------------------------------------------------------------------------

  function RawStep(c: bv32): bv32 {
    (c >> 1) ^ (if c & 1 == 1 then 0x82f63b78 else 0)
  }

  function RawStep8(c: bv32): bv32 {
    RawStep(RawStep(RawStep(RawStep(RawStep(RawStep(RawStep(RawStep(c))))))))
  }

  lemma RawIsStep(c: bv32)
    ensures RawStep(c) == Step(c)
  {
  }

  lemma Bits8(c: bv32)
    ensures Bits(c, 8) == RawStep8(c)
  {
    var c1 := RawStep(c);
    var c2 := RawStep(c1);
    var c3 := RawStep(c2);
    var c4 := RawStep(c3);
    var c5 := RawStep(c4);
    var c6 := RawStep(c5);
    var c7 := RawStep(c6);
    RawIsStep(c); RawIsStep(c1); RawIsStep(c2); RawIsStep(c3);
    RawIsStep(c4); RawIsStep(c5); RawIsStep(c6); RawIsStep(c7);
    assert Bits(c, 8) == Bits(c2, 6) == Bits(c4, 4) == Bits(c6, 2);
  }

  lemma Table0Raw(i: Byte)
    ensures Table0(i) == RawStep8(i as bv32)
  {
  }

  lemma Table1RawLow(i: Byte)
    requires i < 0x80
    ensures Table1(i) == RawStep8(RawStep8(i as bv32))
  {
  }

  lemma Table1RawHigh(i: Byte)
    requires 0x80 <= i
    ensures Table1(i) == RawStep8(RawStep8(i as bv32))
  {
  }

  lemma Table2RawLow(i: Byte)
    requires i < 0x80
    ensures Table2(i) == RawStep8(RawStep8(RawStep8(i as bv32)))
  {
  }

  lemma Table2RawHigh(i: Byte)
    requires 0x80 <= i
    ensures Table2(i) == RawStep8(RawStep8(RawStep8(i as bv32)))
  {
  }

  lemma Table3RawLow(i: Byte)
    requires i < 0x80
    ensures Table3(i) == RawStep8(RawStep8(RawStep8(RawStep8(i as bv32))))
  {
  }

  lemma Table3RawHigh(i: Byte)
    requires 0x80 <= i
    ensures Table3(i) == RawStep8(RawStep8(RawStep8(RawStep8(i as bv32))))
  {
  }

  lemma TablesCorrect(i: Byte)
    ensures Table0(i) == Bits(Word(i), 8)
    ensures Table1(i) == Bits(Word(i), 16)
    ensures Table2(i) == Bits(Word(i), 24)
    ensures Table3(i) == Bits(Word(i), 32)
  {
    hide Table0, Table1, Table2, Table3, RawStep8, Bits;
    var c0 := Word(i);
    var c1 := RawStep8(c0);
    var c2 := RawStep8(c1);
    var c3 := RawStep8(c2);
    Bits8(c0); Bits8(c1); Bits8(c2); Bits8(c3);
    BitsAdd(c0, 8, 8);
    BitsAdd(c0, 16, 8);
    BitsAdd(c0, 24, 8);
    Table0Raw(i);
    if i < 0x80 {
      Table1RawLow(i); Table2RawLow(i); Table3RawLow(i);
    } else {
      Table1RawHigh(i); Table2RawHigh(i); Table3RawHigh(i);
    }
  }

  // ---------------------------------------------------------------------------------------------
  // Four bytes at a time
  // ---------------------------------------------------------------------------------------------

  function Up8(a: bv32): bv32 { a << 8 }

  predicate Fits24(a: bv32) { a & 0xff000000 == 0 }

  /** The little-endian value of up to four bytes. */
  function LittleEndian(s: seq<Byte>): bv32
    requires |s| <= 4
  {
    if s == [] then 0 else Xor(Word(s[0]), Up8(LittleEndian(s[1..])))
  }

  lemma LittleEndianFits(s: seq<Byte>)
    requires |s| <= 3
    ensures Fits24(LittleEndian(s))
  {
    var b0 := if |s| > 0 then s[0] else 0;
    var b1 := if |s| > 1 then s[1] else 0;
    var b2 := if |s| > 2 then s[2] else 0;
    ThreeBytesFit(b0, b1, b2);
    assert Word(0) == 0 && Up8(0) == 0 && Xor(0, 0) == 0;
    if |s| == 3 {
      assert LittleEndian(s[1..][1..][1..]) == 0;
      XorRules(Word(b2), 0, 0);
      assert LittleEndian(s[1..][1..]) == Word(b2);
      assert LittleEndian(s[1..]) == Xor(Word(b1), Up8(Word(b2)));
    } else if |s| == 2 {
      assert LittleEndian(s[1..][1..]) == 0;
      XorRules(Word(b1), 0, 0);
      assert LittleEndian(s[1..]) == Word(b1);
    } else if |s| == 1 {
      assert LittleEndian(s[1..]) == 0;
    }
  }

  lemma ThreeBytesFit(b0: Byte, b1: Byte, b2: Byte)
    ensures Fits24(Xor(Word(b0), Up8(Xor(Word(b1), Up8(Word(b2))))))
  {
  }

  lemma Up8Raw(a: bv32)
    requires Fits24(a)
    ensures RawStep8(Up8(a)) == a
  {
  }

  /** Bytes above the lowest only move down during eight steps. */
  lemma BitsUp8(c: bv32, r: bv32)
    requires Fits24(r)
    ensures Bits(Xor(c, Up8(r)), 8) == Xor(Bits(c, 8), r)
  {
    BitsXor(c, Up8(r), 8);
    Bits8(Up8(r));
    Up8Raw(r);
  }

  lemma {:induction false} FeedWord(c: bv32, s: seq<Byte>)
    requires |s| <= 4
    ensures Feed(c, s) == Bits(Xor(c, LittleEndian(s)), 8 * |s|)
    decreases |s|
  {
    if s == [] {
      XorRules(c, 0, 0);
    } else {
      var r := LittleEndian(s[1..]);
      LittleEndianFits(s[1..]);
      XorRules(c, Word(s[0]), Up8(r));
      BitsUp8(Xor(c, Word(s[0])), r);
      BitsAdd(Xor(c, LittleEndian(s)), 8, 8 * (|s| - 1));
      FeedWord(Bits(Xor(c, Word(s[0])), 8), s[1..]);
    }
  }

  function ByteAt(c: bv32, k: nat): Byte
    requires k < 4
  {
    if k == 0 then (c & 0xff) as bv8
    else if k == 1 then ((c >> 8) & 0xff) as bv8
    else if k == 2 then ((c >> 16) & 0xff) as bv8
    else ((c >> 24) & 0xff) as bv8
  }

  function TableStep(c: bv32): bv32 {
    Xor(Xor(Xor(Table3(ByteAt(c, 0)), Table2(ByteAt(c, 1))), Table1(ByteAt(c, 2))), Table0(ByteAt(c, 3)))
  }

  lemma SplitBytes(c: bv32)
    ensures c == Xor(Word(ByteAt(c, 0)), Up8(Xor(Word(ByteAt(c, 1)), Up8(Xor(Word(ByteAt(c, 2)), Up8(Word(ByteAt(c, 3))))))))
  {
    WordsOf(c);
    hide ByteAt, Word;
    SplitRaw(c);
  }

  lemma WordsOf(c: bv32)
    ensures Word(ByteAt(c, 0)) == c & 0xff
    ensures Word(ByteAt(c, 1)) == (c >> 8) & 0xff
    ensures Word(ByteAt(c, 2)) == (c >> 16) & 0xff
    ensures Word(ByteAt(c, 3)) == (c >> 24) & 0xff
  {
  }

  lemma SplitRaw(c: bv32)
    ensures c == (c & 0xff) ^ ((((c >> 8) & 0xff) ^ ((((c >> 16) & 0xff) ^ (((c >> 24) & 0xff) << 8)) << 8)) << 8)
  {
  }

  lemma TwoBytesFit(b1: Byte, b2: Byte)
    ensures Fits24(Xor(Word(b1), Up8(Word(b2)))) && Fits24(Word(b1))
  {
  }

  /** The four-table lookup is thirty-two steps of the register. */
  lemma TableStepCorrect(c: bv32)
    ensures TableStep(c) == Bits(c, 32)
  {
    hide Table0, Table1, Table2, Table3, Xor, Word, Up8, ByteAt, Fits24, Bits;
    var b0, b1, b2, b3 := ByteAt(c, 0), ByteAt(c, 1), ByteAt(c, 2), ByteAt(c, 3);
    SplitBytes(c);
    TablesCorrect(b0); TablesCorrect(b1); TablesCorrect(b2); TablesCorrect(b3);
    var r3 := Word(b3);
    var r2 := Xor(Word(b2), Up8(r3));
    var r1 := Xor(Word(b1), Up8(r2));
    ThreeBytesFit(b1, b2, b3);
    TwoBytesFit(b2, b3);
    TwoBytesFit(b3, b3);
    PeelByte(Word(b0), r1, 24);
    PeelByte(Word(b1), r2, 16);
    PeelByte(Word(b2), r3, 8);
    XorRules(Bits(Word(b0), 32), Bits(Word(b1), 24), Xor(Bits(Word(b2), 16), Bits(r3, 8)));
    XorRules(Xor(Bits(Word(b0), 32), Bits(Word(b1), 24)), Bits(Word(b2), 16), Bits(r3, 8));
  }

  lemma PeelByte(low: bv32, r: bv32, n: nat)
    requires Fits24(r)
    ensures Bits(Xor(low, Up8(r)), 8 + n) == Xor(Bits(low, 8 + n), Bits(r, n))
  {
    BitsAdd(Xor(low, Up8(r)), 8, n);
    BitsUp8(low, r);
    BitsXor(Bits(low, 8), r, n);
    BitsAdd(low, 8, n);
  }

  // ---------------------------------------------------------------------------------------------
  // ExtendImpl<Slow_CRC32>
  // ---------------------------------------------------------------------------------------------

  lemma TableByte(l: bv32, b: Byte)
    ensures Xor(Table0(ByteAt(Xor(l, Word(b)), 0)), l >> 8) == Bits(Xor(l, Word(b)), 8)
  {
    hide Table0, Bits;
    var c := ByteAt(Xor(l, Word(b)), 0);
    var r := l >> 8;
    SplitLow(l, b);
    TablesCorrect(c);
    assert Fits24(r);
    hide ByteAt, Word, Xor, Up8, Fits24;
    BitsUp8(Word(c), r);
  }

  lemma SplitLow(l: bv32, b: Byte)
    ensures Xor(l, Word(b)) == Xor(Word(ByteAt(Xor(l, Word(b)), 0)), Up8(l >> 8))
  {
    WordsOf(Xor(l, Word(b)));
    hide ByteAt;
  }

  /** STEP1 of ExtendImpl: one byte through the first table. */
  function StepOne(l: bv32, b: Byte): bv32 {
    Xor(Table0(ByteAt(Xor(l, Word(b)), 0)), l >> 8)
  }

  /** The register `l` has consumed the first `p` bytes of the buffer, starting from `c`. */
  ghost predicate Consumed(c: bv32, buf: seq<Byte>, p: nat, l: bv32) {
    p <= |buf| && l == Feed(c, buf[..p])
  }

  lemma StepOneConsumes(c: bv32, buf: seq<Byte>, p: nat, l: bv32)
    requires Consumed(c, buf, p, l) && p < |buf|
    ensures Consumed(c, buf, p + 1, StepOne(l, buf[p]))
  {
    TableByte(l, buf[p]);
    FeedOne(l, buf[p]);
    hide Table0, Bits, Feed;
    assert buf[..p + 1] == buf[..p] + [buf[p]];
    FeedAppend(c, buf[..p], [buf[p]]);
  }

  lemma FeedOne(l: bv32, b: Byte)
    ensures Feed(l, [b]) == Bits(Xor(l, Word(b)), 8)
  {
    assert [b][1..] == [];
  }

  lemma TableStepConsumes(c: bv32, buf: seq<Byte>, p: nat, l: bv32)
    requires Consumed(c, buf, p, l) && p + 4 <= |buf|
    ensures Consumed(c, buf, p + 4, TableStep(Xor(l, LittleEndian(buf[p..p + 4]))))
  {
    hide TableStep, LittleEndian, Bits, Feed, Xor;
    TableStepCorrect(Xor(l, LittleEndian(buf[p..p + 4])));
    FeedWord(l, buf[p..p + 4]);
    assert buf[..p + 4] == buf[..p] + buf[p..p + 4];
    FeedAppend(c, buf[..p], buf[p..p + 4]);
  }

  lemma ConsumedNothing(c: bv32, buf: seq<Byte>)
    ensures Consumed(c, buf, 0, c)
  {
    assert buf[..0] == [];
  }

  lemma ConsumedAll(crc: bv32, buf: seq<Byte>, l: bv32)
    requires Consumed(Not(crc), buf, |buf|, l)
    ensures Not(l) == ReferenceExtend(crc, buf)
  {
    hide Not, Feed;
    assert buf[..|buf|] == buf;
    ExtendIsFeed(crc, buf);
  }

  /** Slow_CRC32: eight bytes through the four tables; `c` is the register before the buffer. */
  method SlowCrc32(l: bv32, p: nat, buf: seq<Byte>, ghost c: bv32) returns (l': bv32, p': nat)
    requires p + 8 <= |buf|
    requires Consumed(c, buf, p, l)
    ensures p' == p + 8
    ensures Consumed(c, buf, p', l')
  {
    hide *;
    TableStepConsumes(c, buf, p, l);
    l' := TableStep(Xor(l, LittleEndian(buf[p..p + 4])));
    p' := p + 4;
    TableStepConsumes(c, buf, p', l');
    l' := TableStep(Xor(l', LittleEndian(buf[p'..p' + 4])));
    p' := p' + 4;
  }

  /** ExtendImpl for a buffer that starts at address `addr`: bytes up to the next 16-byte boundary
      one at a time, then sixteen and eight at a time, then the rest. */
  method ExtendImpl(crc: bv32, buf: seq<Byte>, addr: nat) returns (r: bv32)
    ensures r == ReferenceExtend(crc, buf)
  {
    hide *;
    var l := Not(crc);
    var p := 0;
    ghost var c := Not(crc);
    ConsumedNothing(c, buf);
    var x := (16 - addr % 16) % 16;
    if x <= |buf| {
      while p != x
        invariant p <= x
        invariant Consumed(c, buf, p, l)
      {
        StepOneConsumes(c, buf, p, l);
        l := StepOne(l, buf[p]);
        p := p + 1;
      }
    }
    while |buf| - p >= 16
      invariant p <= |buf|
      invariant Consumed(c, buf, p, l)
    {
      l, p := SlowCrc32(l, p, buf, c);
      l, p := SlowCrc32(l, p, buf, c);
    }
    while |buf| - p >= 8
      invariant p <= |buf|
      invariant Consumed(c, buf, p, l)
    {
      l, p := SlowCrc32(l, p, buf, c);
    }
    while p != |buf|
      invariant p <= |buf|
      invariant Consumed(c, buf, p, l)
    {
      StepOneConsumes(c, buf, p, l);
      l := StepOne(l, buf[p]);
      p := p + 1;
    }
    ConsumedAll(crc, buf, l);
    r := Not(l);
  }

  // ---------------------------------------------------------------------------------------------
  // Multiplication in GF(2)[x]/P, all operands reflected
  // ---------------------------------------------------------------------------------------------

  /** gf_multiply_sw_1 of the source: one bit of `b`, from the highest, per call. */
  function GfMultiplyFrom(i: nat, p: bv32, a: bv32, b: bv32): bv32
    requires i <= 32
    decreases 32 - i
  {
    if i == 32 then p
    else GfMultiplyFrom(i + 1, Xor(p, When(High(b), a)), Step(a), Double(b))
  }

  function GfMultiply(a: bv32, b: bv32): bv32 {
    GfMultiplyFrom(0, 0, a, b)
  }

  /** The sum of `Bits(a, j)` over the `n` highest bits `j` of `b` that are set. */
  function Product(a: bv32, b: bv32, n: nat): bv32
    decreases n
  {
    if n == 0 then 0 else Xor(When(High(b), a), Product(Step(a), Double(b), n - 1))
  }

  lemma {:induction false} MultiplyIsProduct(i: nat, p: bv32, a: bv32, b: bv32)
    requires i <= 32
    ensures GfMultiplyFrom(i, p, a, b) == Xor(p, Product(a, b, 32 - i))
    decreases 32 - i
  {
    hide Step, Xor, High, Double, When;
    if i == 32 {
      XorRules(p, 0, 0);
    } else {
      var h := When(High(b), a);
      MultiplyIsProduct(i + 1, Xor(p, h), Step(a), Double(b));
      XorRules(p, h, Product(Step(a), Double(b), 31 - i));
    }
  }

  lemma {:induction false} ProductXorLeft(a: bv32, a': bv32, b: bv32, n: nat)
    ensures Product(Xor(a, a'), b, n) == Xor(Product(a, b, n), Product(a', b, n))
    decreases n
  {
    hide Step, Xor, High, Double, When;
    if n == 0 {
      XorRules(0, 0, 0);
    } else {
      StepXor(a, a');
      ProductXorLeft(Step(a), Step(a'), Double(b), n - 1);
      WhenXor(High(b), High(b), a, a');
      XorSwap(When(High(b), a), When(High(b), a'), Product(Step(a), Double(b), n - 1), Product(Step(a'), Double(b), n - 1));
    }
  }

  lemma {:induction false} ProductXorRight(a: bv32, b: bv32, b': bv32, n: nat)
    ensures Product(a, Xor(b, b'), n) == Xor(Product(a, b, n), Product(a, b', n))
    decreases n
  {
    hide Step, Xor, High, Double, When;
    if n == 0 {
      XorRules(0, 0, 0);
    } else {
      HighXor(b, b');
      DoubleXor(b, b');
      ProductXorRight(Step(a), Double(b), Double(b'), n - 1);
      WhenXor(High(b), High(b'), a, a);
      XorSwap(When(High(b), a), When(High(b'), a), Product(Step(a), Double(b), n - 1), Product(Step(a), Double(b'), n - 1));
    }
  }

  lemma StepWhen(p: bool, a: bv32)
    ensures Step(When(p, a)) == When(p, Step(a))
  {
    assert Step(0) == 0;
  }

  lemma {:induction false} ProductStepLeft(a: bv32, b: bv32, n: nat)
    ensures Product(Step(a), b, n) == Step(Product(a, b, n))
    decreases n
  {
    assert Step(0) == 0;
    hide Step, Xor, High, Double, When;
    if n > 0 {
      ProductStepLeft(Step(a), Double(b), n - 1);
      StepWhen(High(b), a);
      StepXor(When(High(b), a), Product(Step(a), Double(b), n - 1));
    }
  }

  /** Reordering: the left factor may itself be a sum of steps of `e`. */
  lemma {:induction false} ProductSwap(e: bv32, a: bv32, b: bv32, n: nat)
    ensures Product(Product(e, a, n), b, 32) == Product(Product(e, b, 32), a, n)
    decreases n
  {
    hide Step, Xor, High, Double, When;
    if n == 0 {
      ProductZero(b, 32);
    } else {
      var h := When(High(a), e);
      ProductXorLeft(h, Product(Step(e), Double(a), n - 1), b, 32);
      ProductSwap(Step(e), Double(a), b, n - 1);
      ProductStepLeft(e, b, 32);
      ProductWhen(High(a), e, b);
    }
  }

  lemma {:induction false} ProductZero(b: bv32, n: nat)
    ensures Product(0, b, n) == 0
    decreases n
  {
    assert Step(0) == 0;
    if n > 0 {
      ProductZero(Double(b), n - 1);
      XorRules(0, 0, 0);
    }
  }

  lemma ProductWhen(p: bool, e: bv32, b: bv32)
    ensures Product(When(p, e), b, 32) == When(p, Product(e, b, 32))
  {
    ProductZero(b, 32);
  }

  // The polynomial 1 is the unit: its steps are the single-bit words.

  function HalfTimes(a: bv32, n: nat): bv32
    decreases n
  {
    if n == 0 then a else HalfTimes(Half(a), n - 1)
  }

  lemma {:induction false} HalfTimesXor(a: bv32, b: bv32, n: nat)
    ensures HalfTimes(Xor(a, b), n) == Xor(HalfTimes(a, n), HalfTimes(b, n))
    decreases n
  {
    hide Xor, Half;
    if n > 0 {
      HalfXor(a, b);
      HalfTimesXor(Half(a), Half(b), n - 1);
    }
  }

  lemma {:induction false} HalfTimesAdd(a: bv32, m: nat, n: nat)
    ensures HalfTimes(a, m + n) == HalfTimes(HalfTimes(a, m), n)
    decreases m
  {
    hide Half;
    if m > 0 {
      HalfTimesAdd(Half(a), m - 1, n);
    }
  }

  lemma HalfTimes8(a: bv32)
    ensures HalfTimes(a, 8) == a >> 8
  {
    var a2 := Half(Half(a));
    var a4 := Half(Half(a2));
    var a6 := Half(Half(a4));
    assert HalfTimes(a, 8) == HalfTimes(a2, 6) == HalfTimes(a4, 4) == HalfTimes(a6, 2);
  }

  lemma HalfTimes32(a: bv32)
    ensures HalfTimes(a, 32) == 0
  {
    assert (((a >> 8) >> 8) >> 8) >> 8 == 0;
    hide HalfTimes;
    HalfTimes8(a);
    HalfTimes8(a >> 8);
    HalfTimes8((a >> 8) >> 8);
    HalfTimes8(((a >> 8) >> 8) >> 8);
    HalfTimesAdd(a, 8, 8);
    HalfTimesAdd(a, 16, 8);
    HalfTimesAdd(a, 24, 8);
  }

  predicate AllEven(m: bv32, n: nat)
    decreases n
  {
    n == 0 || (!Low(m) && AllEven(Half(m), n - 1))
  }

  lemma OneIsEven()
    ensures AllEven(ONE, 31)
  {
    assert AllEven(0x00000080, 7);
    assert AllEven(0x00008000, 15);
    assert AllEven(0x00800000, 23);
  }

  lemma {:induction false} EvenAt(m: bv32, n: nat, k: nat)
    requires AllEven(m, n) && k < n
    ensures !Low(HalfTimes(m, k))
    decreases k
  {
    if k > 0 {
      EvenAt(Half(m), n - 1, k - 1);
    }
  }

  lemma SplitHigh(b: bv32)
    ensures b == Xor(When(High(b), ONE), Half(Double(b)))
  {
    assert b == (b & 0x80000000) ^ ((b << 1) >> 1);
    HighRaw(b);
  }

  lemma HighRaw(b: bv32)
    ensures b & 0x80000000 == When(High(b), ONE)
  {
    assert b & 0x80000000 == 0x80000000 || b & 0x80000000 == 0;
  }

  lemma HalfTimesWhen(p: bool, n: nat)
    ensures HalfTimes(When(p, ONE), n) == When(p, HalfTimes(ONE, n))
  {
    HalfTimesZero(n);
  }

  lemma {:induction false} HalfTimesZero(n: nat)
    ensures HalfTimes(0, n) == 0
    decreases n
  {
    assert Half(0) == 0;
    if n > 0 {
      HalfTimesZero(n - 1);
    }
  }

  lemma ProductUnfold(a: bv32, b: bv32, n: nat)
    requires n > 0
    ensures Product(a, b, n) == Xor(When(High(b), a), Product(Step(a), Double(b), n - 1))
    ensures Product(a, b, 0) == 0
  {
  }

  lemma HalfTimesUnfold(a: bv32, n: nat)
    ensures HalfTimes(Half(a), n) == HalfTimes(a, n + 1)
    ensures HalfTimes(a, 1) == Half(a)
  {
    assert HalfTimes(a, 1) == HalfTimes(Half(a), 0);
  }

  lemma EvenStep(m: bv32)
    requires !Low(m)
    ensures Step(m) == Half(m)
  {
    XorUnit(Half(m));
  }

  lemma {:induction false} ProductOfBit(b: bv32, k: nat)
    requires k <= 32
    ensures Product(HalfTimes(ONE, k), b, 32 - k) == HalfTimes(b, k)
    decreases 32 - k
  {
    hide *;
    if k == 32 {
      HalfTimes32(b);
      ProductUnfold(HalfTimes(ONE, 32), b, 1);
    } else {
      var m := HalfTimes(ONE, k);
      SplitHigh(b);
      HalfTimesXor(When(High(b), ONE), Half(Double(b)), k);
      HalfTimesWhen(High(b), k);
      HalfTimesUnfold(Double(b), k);
      HalfTimesAdd(ONE, k, 1);
      HalfTimesUnfold(m, 0);
      ProductUnfold(m, b, 32 - k);
      ProductOfBit(Double(b), k + 1);
      if k == 31 {
        ProductUnfold(Step(m), Double(b), 1);
        HalfTimes32(Double(b));
      } else {
        OneIsEven();
        EvenAt(ONE, 31, k);
        EvenStep(m);
      }
    }
  }

  lemma ProductOne(a: bv32)
    ensures Product(ONE, a, 32) == a
  {
    ProductOfBit(a, 0);
  }

  /** The product is commutative. */
  lemma ProductCommutes(a: bv32, b: bv32)
    ensures Product(a, b, 32) == Product(b, a, 32)
  {
    hide Product;
    ProductOne(a);
    ProductOne(b);
    ProductSwap(ONE, a, b, 32);
  }

  /** Multiplying by the power x^n is n steps of the register. */
  lemma {:induction false} ProductOfPower(a: bv32, n: nat)
    ensures Product(a, Bits(ONE, n), 32) == Bits(a, n)
    decreases n
  {
    hide Product, Step;
    if n == 0 {
      ProductCommutes(a, ONE);
      ProductOne(a);
    } else {
      var b := Bits(ONE, n - 1);
      BitsStep(ONE, n - 1);
      ProductCommutes(a, Step(b));
      ProductStepLeft(b, a, 32);
      ProductCommutes(b, a);
      ProductOfPower(a, n - 1);
      BitsStep(a, n - 1);
    }
  }

  /** gf_multiply_sw by a power of x appends that many zero bits. */
  lemma MultiplyByPower(a: bv32, n: nat)
    ensures GfMultiply(a, Bits(ONE, n)) == Bits(a, n)
  {
    hide Product;
    MultiplyIsProduct(0, 0, a, Bits(ONE, n));
    XorRules(Product(a, Bits(ONE, n), 32), 0, 0);
    ProductOfPower(a, n);
  }

  // ---------------------------------------------------------------------------------------------
  // The table of powers and Crc32AppendZeroes
  // ---------------------------------------------------------------------------------------------

  /** gf_powers_memo: the polynomial, squared `i` times. */
  function GfPower(i: nat): bv32 {
    if i == 0 then POLY else GfMultiply(GfPower(i - 1), GfPower(i - 1))
  }

  lemma OneTo32()
    ensures Bits(ONE, 32) == POLY
  {
    assert RawStep8(0x80000000) == 0x00800000;
    assert RawStep8(0x00800000) == 0x00008000;
    assert RawStep8(0x00008000) == 0x00000080;
    assert RawStep8(0x00000080) == POLY;
    hide RawStep8, Bits;
    Bits8(0x80000000);
    Bits8(0x00800000);
    Bits8(0x00008000);
    Bits8(0x00000080);
    BitsAdd(ONE, 8, 8);
    BitsAdd(ONE, 16, 8);
    BitsAdd(ONE, 24, 8);
  }

  lemma {:induction false} GfPowerIsPower(i: nat)
    ensures GfPower(i) == Bits(ONE, 32 * Pow2(i))
    decreases i
  {
    hide GfMultiply, Bits;
    if i == 0 {
      OneTo32();
    } else {
      var n := 32 * Pow2(i - 1);
      GfPowerIsPower(i - 1);
      MultiplyByPower(GfPower(i - 1), n);
      BitsAdd(ONE, n, n);
    }
  }

  const POWERS: seq<bv32> := seq(62, i requires 0 <= i => GfPower(i))

  lemma PowersAt(k: nat)
    requires k < 62
    ensures |POWERS| == 62 && POWERS[k] == GfPower(k)
  {
  }

  function CountTrailingZeroBits(n: nat): (r: nat)
    requires n > 0
  {
    if n % 2 == 1 then 0 else 1 + CountTrailingZeroBits(n / 2)
  }

  /** `n >> z`. */
  function ShiftRight(n: nat, z: nat): nat
    decreases z
  {
    if z == 0 then n else ShiftRight(n / 2, z - 1)
  }

  lemma {:induction false} TrailingZeroBits(n: nat)
    requires n > 0
    ensures var z := CountTrailingZeroBits(n);
            ShiftRight(n, z) * Pow2(z) == n && ShiftRight(n, z) % 2 == 1 && ShiftRight(n, z) <= n
    decreases n
  {
    if n % 2 == 0 {
      TrailingZeroBits(n / 2);
      var z := CountTrailingZeroBits(n / 2);
      assert ShiftRight(n / 2, z) * (2 * Pow2(z)) == 2 * (ShiftRight(n / 2, z) * Pow2(z));
    }
  }

  lemma {:induction false} Pow2Add(m: nat, n: nat)
    ensures Pow2(m + n) == Pow2(m) * Pow2(n)
    decreases m
  {
    if m > 0 {
      Pow2Add(m - 1, n);
      assert Pow2(m) * Pow2(n) == 2 * (Pow2(m - 1) * Pow2(n));
    }
  }

  /** One more than the largest `size_t` divided by four. */
  const WORD_LIMIT: nat := 0x4000_0000_0000_0000

  /** The zero bits that `n` copies of the `k`-th power stand for. */
  function Span(k: nat, n: nat): (r: nat) {
    32 * (Pow2(k) * n)
  }

  lemma SpanBelow(k: nat, n: nat, len: nat)
    requires n > 0 && Span(k, n) <= 32 * len && len < WORD_LIMIT
    ensures k < 62
  {
    Pow2Of62();
    hide Pow2;
    if k >= 62 {
      Pow2Monotone(62, k);
      MulAtLeast(Pow2(k), n);
    }
  }

  lemma Pow2Of62()
    ensures Pow2(62) == WORD_LIMIT
  {
    assert Pow2(15) == 0x8000;
    Pow2Add(15, 16);
    Pow2Add(31, 31);
  }

  lemma MulAtLeast(a: nat, n: nat)
    requires n > 0
    ensures a * n >= a
  {
  }

  lemma SpanTrailing(k: nat, n: nat)
    requires n > 0
    ensures var z := CountTrailingZeroBits(n); Span(k + z, ShiftRight(n, z)) == Span(k, n)
  {
    hide Pow2, ShiftRight, CountTrailingZeroBits;
    var z := CountTrailingZeroBits(n);
    TrailingZeroBits(n);
    Pow2Add(k, z);
    MulRegroup(Pow2(k), Pow2(z), ShiftRight(n, z));
  }

  lemma MulRegroup(a: nat, b: nat, c: nat)
    ensures a * (c * b) == (a * b) * c
  {
  }

  lemma SpanOdd(k: nat, odd: nat)
    requires odd % 2 == 1
    ensures Span(k, odd) == 32 * Pow2(k) + Span(k + 1, odd / 2)
  {
    var h := odd / 2;
    assert odd == 2 * h + 1;
    assert Pow2(k) * (2 * h + 1) == Pow2(k) + 2 * Pow2(k) * h;
  }

  /** Crc32AppendZeroes: `4 * lenOver4` zero bytes in as many multiplications as `lenOver4` has one bits.
      The bound is that of a `size_t` divided by four; it keeps the power index inside the table. */
  method Crc32AppendZeroes(crc: bv32, lenOver4: nat) returns (r: bv32)
    requires lenOver4 < WORD_LIMIT
    ensures r == Bits(crc, 32 * lenOver4)
  {
    hide *;
    r := crc;
    var lenBits := lenOver4;
    var k := 0;
    SpanStart(lenOver4);
    while lenBits != 0
      invariant Span(k, lenBits) <= 32 * lenOver4
      invariant Bits(r, Span(k, lenBits)) == Bits(crc, 32 * lenOver4)
      decreases lenBits
    {
      var z := CountTrailingZeroBits(lenBits);
      TrailingZeroBits(lenBits);
      SpanTrailing(k, lenBits);
      lenBits := ShiftRight(lenBits, z);
      k := k + z;
      SpanBelow(k, lenBits, lenOver4);
      SpanOdd(k, lenBits);
      BitsAdd(r, 32 * Pow2(k), Span(k + 1, lenBits / 2));
      PowersAt(k);
      GfPowerIsPower(k);
      MultiplyByPower(r, 32 * Pow2(k));
      r := GfMultiply(r, POWERS[k]);
      lenBits := lenBits / 2;
      k := k + 1;
    }
    SpanNone(k);
    BitsNone(r);
  }

  lemma SpanStart(n: nat)
    ensures Span(0, n) == 32 * n
  {
  }

  lemma SpanNone(k: nat)
    ensures Span(k, 0) == 0
  {
  }

  lemma BitsNone(r: bv32)
    ensures Bits(r, 0) == r
  {
  }

  // ---------------------------------------------------------------------------------------------
  // Crc32cCombine
  // ---------------------------------------------------------------------------------------------

  function Zeroes(n: nat): (z: seq<Byte>)
    ensures |z| == n
  {
    if n == 0 then [] else [0] + Zeroes(n - 1)
  }

  lemma {:induction false} FeedZeroes(c: bv32, n: nat)
    ensures Feed(c, Zeroes(n)) == Bits(c, 8 * n)
    decreases n
  {
    if n > 0 {
      assert Word(0) == 0;
      XorRules(c, 0, 0);
      assert Zeroes(n)[1..] == Zeroes(n - 1);
      FeedZeroes(Bits(c, 8), n - 1);
      BitsAdd(c, 8, 8 * (n - 1));
    }
  }

  /** Feeding is affine: the starting register only shifts along. */
  lemma {:induction false} FeedXor(c: bv32, d: bv32, s: seq<Byte>)
    ensures Feed(Xor(c, d), s) == Xor(Bits(c, 8 * |s|), Feed(d, s))
    decreases |s|
  {
    hide Xor, Word;
    if s != [] {
      var w := Word(s[0]);
      XorRules(c, d, w);
      BitsXor(c, Xor(d, w), 8);
      FeedXor(Bits(c, 8), Bits(Xor(d, w), 8), s[1..]);
      BitsAdd(c, 8, 8 * (|s| - 1));
    }
  }

  /** What Crc32cCombine computes on the pure registers, and why it is the register of the whole. */
  lemma CombineRegisters(a: seq<Byte>, b: seq<Byte>, ones: bv32)
    ensures Xor(Bits(Xor(Feed(ones, a), ones), 8 * |b|), Feed(ones, b)) == Feed(ones, a + b)
  {
    hide Xor, Bits, Feed;
    var fa := Feed(ones, a);
    var n := 8 * |b|;
    FeedAppend(ones, a, b);
    XorRules(fa, 0, 0);
    XorRules(ones, 0, 0);
    FeedXor(fa, 0, b);
    FeedXor(ones, 0, b);
    BitsXor(fa, ones, n);
    var f, o, z := Bits(fa, n), Bits(ones, n), Feed(0, b);
    XorRules(f, o, Xor(o, z));
    XorRules(o, o, z);
    XorRules(z, 0, 0);
  }

  lemma BitsSplit(c: bv32, n: nat)
    ensures Bits(Bits(c, 8 * (n % 4)), 32 * (n / 4)) == Bits(c, 8 * n)
  {
    BitsAdd(c, 8 * (n % 4), 32 * (n / 4));
  }

  /** The pure checksum extended by `n` zero bytes the ordinary way (PureExtend of the source). */
  method PureExtendZeroes(crc: bv32, n: nat, addr: nat) returns (r: bv32)
    ensures r == Bits(crc, 8 * n)
  {
    hide Not, Bits, Feed;
    r := ExtendImpl(Not(crc), Zeroes(n), addr);
    NotNot(crc);
    FeedIsBitwise(crc, Zeroes(n));
    FeedZeroes(crc, n);
    NotNot(Bits(crc, 8 * n));
    r := Not(r);
  }

  /** Crc32cCombine: from two checksums and the length of the second string, the checksum of their
      concatenation. `addr` is the address of the local zero buffer; the length is a `size_t`. */
  method Crc32cCombine(crc1: bv32, crc2: bv32, crc2len: nat, addr: nat) returns (r: bv32)
    requires crc2len < 4 * WORD_LIMIT
    ensures forall a: seq<Byte>, b: seq<Byte> ::
              crc1 == ReferenceCrc(a) && crc2 == ReferenceCrc(b) && crc2len == |b| ==> r == ReferenceCrc(a + b)
  {
    hide Xor, Not, Bits;
    var ones: bv32 := 0xffffffff;
    var tmp := Xor(Not(crc1), ones);
    ghost var start := tmp;
    if crc2len % 4 != 0 {
      tmp := PureExtendZeroes(tmp, crc2len % 4, addr);
    } else {
      BitsNone(tmp);
    }
    tmp := Crc32AppendZeroes(tmp, crc2len / 4);
    BitsSplit(start, crc2len);
    r := Not(Xor(tmp, Not(crc2)));
    forall a: seq<Byte>, b: seq<Byte> |
      crc1 == ReferenceCrc(a) && crc2 == ReferenceCrc(b) && crc2len == |b|
      ensures r == ReferenceCrc(a + b)
    {
      NotZero();
      CrcIsFeed(a);
      CrcIsFeed(b);
      CrcIsFeed(a + b);
      CombineRegisters(a, b, ones);
    }
  }

  lemma NotZero()
    ensures Not(0) == 0xffffffff
  {
  }

  lemma CrcIsFeed(s: seq<Byte>)
    ensures Not(ReferenceCrc(s)) == Feed(0xffffffff, s)
    ensures ReferenceCrc(s) == Not(Feed(0xffffffff, s))
  {
    NotZero();
    FeedIsBitwise(0xffffffff, s);
    NotNot(Feed(0xffffffff, s));
  }
}
