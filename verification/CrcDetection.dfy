/** What the CRC-32C of AquaZFS/util/crc32c.cc notices of a damaged message, whatever the message: all damage
    within 32 consecutive bits, and all that changes the parity. And what it does not: for every message
    there is one way to add four bytes and keep the register. */
module CrcDetection {
  import opened Crc32c

  // ---------------------------------------------------------------------------------------------
  // The register forgets nothing
  // ---------------------------------------------------------------------------------------------

  /** The top bit tells whether the polynomial was added. */
  lemma FeedBitTop(c: bv32, bit: bool)
    ensures High(FeedBit(c, bit)) == (Low(c) != bit)
  {
    assert !High(Half(c)) && High(POLY);
    hide Half, Low;
    HighXor(Half(c), When(Low(c) != bit, POLY));
  }

  lemma HalfAndLow(c: bv32, d: bv32)
    requires Half(c) == Half(d) && Low(c) == Low(d)
    ensures c == d
  {
  }

  lemma FeedBitInjective(c: bv32, d: bv32, bit: bool)
    requires FeedBit(c, bit) == FeedBit(d, bit)
    ensures c == d
  {
    FeedBitTop(c, bit);
    FeedBitTop(d, bit);
    hide Half, Low, Xor;
    var w := When(Low(c) != bit, POLY);
    XorAssociates(Half(c), w, w);
    XorAssociates(Half(d), w, w);
    XorUnit(w);
    XorUnit(Half(c));
    XorUnit(Half(d));
    HalfAndLow(c, d);
  }

  lemma {:induction false} FeedBitsInjective(c: bv32, d: bv32, bits: seq<bool>)
    requires FeedBits(c, bits) == FeedBits(d, bits)
    ensures c == d
    decreases |bits|
  {
    hide FeedBit;
    if bits != [] {
      FeedBitsInjective(FeedBit(c, bits[0]), FeedBit(d, bits[0]), bits[1..]);
      FeedBitInjective(c, d, bits[0]);
    }
  }

  // ---------------------------------------------------------------------------------------------
  // Bursts
  // ---------------------------------------------------------------------------------------------

  /** Two registers that two bits bring together: they differ in the lowest bit exactly if the bits do. */
  lemma FeedBitsMeet(c: bv32, d: bv32, p: bool, q: bool)
    ensures FeedBit(c, p) == FeedBit(d, q) ==> Half(Xor(c, d)) == 0 && Low(Xor(c, d)) == (p != q)
    ensures !High(Xor(FeedBit(c, p), FeedBit(d, q))) ==> Half(Xor(c, d)) == Xor(FeedBit(c, p), FeedBit(d, q))
  {
    FeedBitTop(c, p);
    FeedBitTop(d, q);
    HighXor(FeedBit(c, p), FeedBit(d, q));
    HalfXor(c, d);
    LowXor(c, d);
    hide Half, Low, High, Xor;
    var v, w := When(Low(c) != p, POLY), When(Low(d) != q, POLY);
    if v == w {
      XorSwap(Half(c), v, Half(d), w);
      XorUnit(v);
      XorUnit(Xor(Half(c), Half(d)));
    }
    XorUnit(FeedBit(c, p));
  }

  /** The highest bit of `a` is bit n. */
  predicate TopBit(a: bv32, n: nat) { HalfTimes(a, n) == 1 }

  lemma TopBitUp(a: bv32, n: nat)
    requires n <= 30 && TopBit(a, n)
    ensures !High(a)
  {
    hide HalfTimes;
    if High(a) {
      HalfTimes31(a);
      HalfTimesAdd(a, n, 31 - n);
      OneVanishes(31 - n);
    }
  }

  lemma HalfTimes31(a: bv32)
    requires High(a)
    ensures HalfTimes(a, 31) == 1
  {
    assert (((a >> 8) >> 8) >> 8) >> 7 == 1;
    var b := ((a >> 8) >> 8) >> 8;
    assert HalfTimes(b, 7) == b >> 7 by {
      var b2 := Half(Half(b));
      var b4 := Half(Half(b2));
      var b6 := Half(Half(b4));
      assert HalfTimes(b, 7) == HalfTimes(b2, 5) == HalfTimes(b4, 3) == HalfTimes(b6, 1) == Half(b6);
    }
    hide HalfTimes;
    HalfTimes8(a);
    HalfTimes8(a >> 8);
    HalfTimes8((a >> 8) >> 8);
    HalfTimesAdd(a, 8, 8);
    HalfTimesAdd(a, 16, 8);
    HalfTimesAdd(a, 24, 7);
  }

  lemma OneVanishes(n: nat)
    requires n > 0
    ensures HalfTimes(1, n) == 0
  {
    assert Half(1) == 0;
    ZeroStays(n - 1);
  }

  lemma {:induction false} ZeroStays(n: nat)
    ensures HalfTimes(0, n) == 0
    decreases n
  {
    assert Half(0) == 0;
    if n > 0 { ZeroStays(n - 1); }
  }

  /** The place of the last difference. */
  function LastDifference(e: seq<bool>, f: seq<bool>): (j: nat)
    requires |e| == |f| && e != f
    ensures j < |e| && e[j] != f[j] && e[j + 1..] == f[j + 1..]
  {
    if e[1..] == f[1..] then
      assert e == [e[0]] + e[1..] && f == [f[0]] + f[1..];
      0
    else LastDifference(e[1..], f[1..]) + 1
  }

  /** Registers that different bits bring together differ themselves, up to the place of the last difference
      of the bits and no higher. */
  lemma {:induction false} BurstApart(c: bv32, d: bv32, e: seq<bool>, f: seq<bool>)
    requires |e| == |f| <= 32 && e != f && FeedBits(c, e) == FeedBits(d, f)
    ensures TopBit(Xor(c, d), LastDifference(e, f))
    decreases |e|
  {
    hide FeedBit, Xor, Half, High, Low;
    var c1, d1 := FeedBit(c, e[0]), FeedBit(d, f[0]);
    FeedBitsMeet(c, d, e[0], f[0]);
    assert e == [e[0]] + e[1..] && f == [f[0]] + f[1..];
    if e[1..] == f[1..] {
      FeedBitsInjective(c1, d1, e[1..]);
      OnlyLow(Xor(c, d));
    } else {
      BurstApart(c1, d1, e[1..], f[1..]);
      TopBitUp(Xor(c1, d1), LastDifference(e[1..], f[1..]));
    }
  }

  lemma OnlyLow(a: bv32)
    requires Half(a) == 0 && Low(a)
    ensures a == 1
  {
  }

  /** Two bit strings that differ, and only within 32 consecutive places. */
  predicate Burst(e: seq<bool>, f: seq<bool>, i: nat) {
    && |e| == |f| && e != f
    && forall k :: 0 <= k < |e| && (k < i || k >= i + 32) ==> e[k] == f[k]
  }

  /** Where the window ends. */
  function Upto(e: seq<bool>, i: nat): nat { if i + 32 < |e| then i + 32 else |e| }

  lemma BurstParts(e: seq<bool>, f: seq<bool>, i: nat)
    requires Burst(e, f, i)
    ensures i <= |e| && i <= Upto(e, i) <= i + 32
    ensures e[..i] == f[..i] && e[Upto(e, i)..] == f[Upto(e, i)..] && e[i..Upto(e, i)] != f[i..Upto(e, i)]
  {
    var k, j := LastDifference(e, f), Upto(e, i);
    assert e[k] != f[k] && i <= k < j;
    assert e[i..j][k - i] != f[i..j][k - i];
  }

  lemma ThreeParts(e: seq<bool>, i: nat, j: nat)
    requires i <= j <= |e|
    ensures e == e[..i] + e[i..j] + e[j..]
  {
  }

  lemma BurstChanges(c: bv32, e: seq<bool>, f: seq<bool>, i: nat)
    requires Burst(e, f, i)
    ensures FeedBits(c, e) != FeedBits(c, f)
  {
    BurstParts(e, f, i);
    hide FeedBits, Burst;
    var j := Upto(e, i);
    ThreeParts(e, i, j);
    ThreeParts(f, i, j);
    var p := FeedBits(c, e[..i]);
    FeedBitsAppend(c, e[..i] + e[i..j], e[j..]);
    FeedBitsAppend(c, e[..i], e[i..j]);
    FeedBitsAppend(c, f[..i] + f[i..j], f[j..]);
    FeedBitsAppend(c, f[..i], f[i..j]);
    if FeedBits(c, e) == FeedBits(c, f) {
      FeedBitsInjective(FeedBits(p, e[i..j]), FeedBits(p, f[i..j]), e[j..]);
      BurstApart(p, p, e[i..j], f[i..j]);
      NoTop(p, LastDifference(e[i..j], f[i..j]));
    }
  }

  lemma NoTop(p: bv32, n: nat)
    ensures !TopBit(Xor(p, p), n)
  {
    XorUnit(p);
    ZeroStays(n);
  }

  lemma NotInjective(a: bv32, b: bv32)
    requires Not(a) == Not(b)
    ensures a == b
  {
    NotNot(a);
    NotNot(b);
  }

  /** Any damage within 32 consecutive bits changes the checksum. */
  lemma BurstDetected(crc: bv32, s: seq<Byte>, t: seq<Byte>, i: nat)
    requires Burst(MessageBits(s), MessageBits(t), i)
    ensures ReferenceExtend(crc, s) != ReferenceExtend(crc, t)
  {
    hide FeedBits, MessageBits;
    BurstChanges(Not(crc), MessageBits(s), MessageBits(t), i);
    if ReferenceExtend(crc, s) == ReferenceExtend(crc, t) {
      NotInjective(FeedBits(Not(crc), MessageBits(s)), FeedBits(Not(crc), MessageBits(t)));
    }
  }

  lemma {:induction false} MessageBitsAppend(s: seq<Byte>, t: seq<Byte>)
    ensures MessageBits(s + t) == MessageBits(s) + MessageBits(t)
  {
    hide ByteBits;
    if s == [] {
      assert s + t == t;
    } else {
      assert (s + t)[1..] == s[1..] + t;
      MessageBitsAppend(s[1..], t);
    }
  }

  lemma ByteBitsInjective(a: Byte, b: Byte)
    requires ByteBits(a) == ByteBits(b)
    ensures a == b
  {
    assert ByteBits(a)[0] == ByteBits(b)[0] && ByteBits(a)[1] == ByteBits(b)[1] && ByteBits(a)[2] == ByteBits(b)[2];
    assert ByteBits(a)[3] == ByteBits(b)[3] && ByteBits(a)[4] == ByteBits(b)[4] && ByteBits(a)[5] == ByteBits(b)[5];
    assert ByteBits(a)[6] == ByteBits(b)[6] && ByteBits(a)[7] == ByteBits(b)[7];
    SameBits(a, b);
  }

  lemma SameBits(a: Byte, b: Byte)
    requires LowBit(a) == LowBit(b) && LowBit(a >> 1) == LowBit(b >> 1) && LowBit(a >> 2) == LowBit(b >> 2)
    requires LowBit(a >> 3) == LowBit(b >> 3) && LowBit(a >> 4) == LowBit(b >> 4) && LowBit(a >> 5) == LowBit(b >> 5)
    requires LowBit(a >> 6) == LowBit(b >> 6) && LowBit(a >> 7) == LowBit(b >> 7)
    ensures a == b
  {
  }

  lemma {:induction false} MessageBitsInjective(s: seq<Byte>, t: seq<Byte>)
    requires |s| == |t| && s != t
    ensures MessageBits(s) != MessageBits(t)
  {
    hide ByteBits;
    if s[0] != t[0] {
      if MessageBits(s) == MessageBits(t) {
        assert ByteBits(s[0]) == MessageBits(s)[..8] == MessageBits(t)[..8] == ByteBits(t[0]);
        ByteBitsInjective(s[0], t[0]);
      }
    } else {
      assert s == [s[0]] + s[1..] && t == [t[0]] + t[1..];
      MessageBitsInjective(s[1..], t[1..]);
      assert MessageBits(s)[8..] == MessageBits(s[1..]) && MessageBits(t)[8..] == MessageBits(t[1..]);
    }
  }

  /** Damage to up to four bytes in a row is such damage. */
  lemma BytesBurst(p: seq<Byte>, s: seq<Byte>, t: seq<Byte>, q: seq<Byte>)
    requires |s| == |t| <= 4 && s != t
    ensures Burst(MessageBits(p + s + q), MessageBits(p + t + q), |MessageBits(p)|)
  {
    MessageBitsInjective(s, t);
    MessageBitsAppend(p + s, q);
    MessageBitsAppend(p + t, q);
    MessageBitsAppend(p, s);
    MessageBitsAppend(p, t);
    hide MessageBits;
    var n, m := |MessageBits(p)|, |MessageBits(s)|;
    var e, f := MessageBits(p) + MessageBits(s) + MessageBits(q), MessageBits(p) + MessageBits(t) + MessageBits(q);
    assert e[n..n + m] == MessageBits(s) && f[n..n + m] == MessageBits(t);
  }

  // ---------------------------------------------------------------------------------------------
  // Parity
  // ---------------------------------------------------------------------------------------------

  /** Whether an odd number of the bits is set. */
  function Odd(bits: seq<bool>): bool
    decreases |bits|
  {
    if bits == [] then false else bits[0] != Odd(bits[1..])
  }

  lemma {:induction false} OddAppend(s: seq<bool>, t: seq<bool>)
    ensures Odd(s + t) == (Odd(s) != Odd(t))
    decreases |s|
  {
    if s == [] {
      assert s + t == t;
    } else {
      assert (s + t)[1..] == s[1..] + t;
      OddAppend(s[1..], t);
    }
  }

  lemma {:induction false} OddZeroes(bits: seq<bool>)
    requires forall k :: 0 <= k < |bits| ==> !bits[k]
    ensures !Odd(bits)
    decreases |bits|
  {
    if bits != [] { OddZeroes(bits[1..]); }
  }

  /** Whether an odd number of the lowest n bits of the register is set. */
  function OddFrom(c: bv32, n: nat): bool
    decreases n
  {
    n > 0 && Low(c) != OddFrom(Half(c), n - 1)
  }

  predicate OddWord(c: bv32) { OddFrom(c, 32) }

  lemma {:induction false} OddFromXor(a: bv32, b: bv32, n: nat)
    ensures OddFrom(Xor(a, b), n) == (OddFrom(a, n) != OddFrom(b, n))
    decreases n
  {
    hide Xor, Half, Low;
    if n > 0 {
      LowXor(a, b);
      HalfXor(a, b);
      OddFromXor(Half(a), Half(b), n - 1);
    }
  }

  lemma {:induction false} OddFromMore(c: bv32, n: nat)
    ensures OddFrom(c, n + 1) == (OddFrom(c, n) != Low(HalfTimes(c, n)))
    decreases n
  {
    hide Half, Low;
    if n > 0 { OddFromMore(Half(c), n - 1); }
  }

  lemma OddHalf(c: bv32)
    ensures OddWord(Half(c)) == (OddWord(c) != Low(c))
  {
    assert !Low(0);
    hide Half, Low, HalfTimes;
    OddFromMore(c, 32);
    HalfTimes32(c);
    assert OddFrom(c, 33) == (Low(c) != OddFrom(Half(c), 32));
  }

  lemma Odd4(c: bv32, n: nat)
    ensures OddFrom(c, n + 4) == (Low(c) != (Low(Half(c)) != (Low(Half(Half(c))) != (Low(Half(Half(Half(c)))) != OddFrom(Half(Half(Half(Half(c)))), n)))))
  {
    hide Half, Low;
    assert OddFrom(Half(c), n + 3) == (Low(Half(c)) != OddFrom(Half(Half(c)), n + 2));
    assert OddFrom(Half(Half(c)), n + 2) == (Low(Half(Half(c))) != OddFrom(Half(Half(Half(c))), n + 1));
  }

  lemma {:induction false} ZeroEven(n: nat)
    ensures !OddFrom(0, n)
    decreases n
  {
    assert Half(0) == 0 && !Low(0);
    if n > 0 { ZeroEven(n - 1); }
  }

  /** The polynomial has an even number of terms, the one of degree 32 included. */
  lemma PolyOdd()
    ensures OddWord(POLY) && !OddWord(0)
  {
    ZeroEven(32);
    NoBitsEven(0);
    hide OddFrom;
    Odd4(0x00000008, 0);
    assert OddFrom(0x00000008, 4);
    Odd4(0x00000082, 4);
    assert !OddFrom(0x00000082, 8);
    Odd4(0x0000082f, 8);
    assert !OddFrom(0x0000082f, 12);
    Odd4(0x000082f6, 12);
    assert !OddFrom(0x000082f6, 16);
    Odd4(0x00082f63, 16);
    assert !OddFrom(0x00082f63, 20);
    Odd4(0x0082f63b, 20);
    assert OddFrom(0x0082f63b, 24);
    Odd4(0x082f63b7, 24);
    assert !OddFrom(0x082f63b7, 28);
    Odd4(0x82f63b78, 28);
  }

  lemma NoBitsEven(c: bv32)
    ensures !OddFrom(c, 0)
  {
  }

  lemma FeedBitOdd(c: bv32, bit: bool)
    ensures OddWord(FeedBit(c, bit)) == (OddWord(c) != bit)
  {
    hide OddFrom, Half, Low, Xor;
    PolyOdd();
    OddHalf(c);
    OddFromXor(Half(c), When(Low(c) != bit, POLY), 32);
  }

  lemma {:induction false} FeedBitsOdd(c: bv32, bits: seq<bool>)
    ensures OddWord(FeedBits(c, bits)) == (OddWord(c) != Odd(bits))
    decreases |bits|
  {
    hide OddWord, FeedBit;
    if bits != [] {
      FeedBitOdd(c, bits[0]);
      FeedBitsOdd(FeedBit(c, bits[0]), bits[1..]);
    }
  }

  /** Any two messages, of whatever lengths, that differ in parity have different checksums. */
  lemma ParityDetected(crc: bv32, s: seq<Byte>, t: seq<Byte>)
    requires Odd(MessageBits(s)) != Odd(MessageBits(t))
    ensures ReferenceExtend(crc, s) != ReferenceExtend(crc, t)
  {
    hide FeedBits, MessageBits, Odd, OddWord;
    FeedBitsOdd(Not(crc), MessageBits(s));
    FeedBitsOdd(Not(crc), MessageBits(t));
    if ReferenceExtend(crc, s) == ReferenceExtend(crc, t) {
      NotInjective(FeedBits(Not(crc), MessageBits(s)), FeedBits(Not(crc), MessageBits(t)));
    }
  }

  // ---------------------------------------------------------------------------------------------
  // What goes unnoticed
  // ---------------------------------------------------------------------------------------------

  function StepBack(c: bv32): bv32 {
    if High(c) then Double(Xor(c, POLY)) | 1 else Double(c)
  }

  lemma StepForth(c: bv32)
    ensures Step(StepBack(c)) == c
  {
    hide Xor, High, Half, Low, Double;
    TopAdded(c);
    DoubleHalf(if High(c) then Xor(c, POLY) else c);
    XorAssociates(c, POLY, POLY);
    XorUnit(POLY);
    XorUnit(c);
  }

  lemma TopAdded(c: bv32)
    ensures High(Xor(c, POLY)) == !High(c)
  {
    assert High(POLY);
    HighXor(c, POLY);
  }

  lemma DoubleHalf(x: bv32)
    requires !High(x)
    ensures Half(Double(x)) == x && !Low(Double(x))
    ensures Half(Double(x) | 1) == x && Low(Double(x) | 1)
  {
  }

  function BitsBack(c: bv32, n: nat): bv32
    decreases n
  {
    if n == 0 then c else BitsBack(StepBack(c), n - 1)
  }

  lemma {:induction false} BitsForth(c: bv32, n: nat)
    ensures Bits(BitsBack(c, n), n) == c
    decreases n
  {
    hide Step, StepBack;
    if n > 0 {
      BitsForth(StepBack(c), n - 1);
      BitsStep(BitsBack(StepBack(c), n - 1), n - 1);
      StepForth(c);
    }
  }

  /** The four bytes of a word, lowest first. */
  function WordBytes(c: bv32): (s: seq<Byte>)
    ensures |s| == 4
  {
    [ByteAt(c, 0), ByteAt(c, 1), ByteAt(c, 2), ByteAt(c, 3)]
  }

  lemma WordBytesBack(c: bv32)
    ensures LittleEndian(WordBytes(c)) == c
  {
    hide Word, ByteAt, Up8, Xor;
    var b0, b1, b2, b3 := ByteAt(c, 0), ByteAt(c, 1), ByteAt(c, 2), ByteAt(c, 3);
    LittleEndianCons(b3, []);
    LittleEndianCons(b2, [b3]);
    LittleEndianCons(b1, [b2, b3]);
    LittleEndianCons(b0, [b1, b2, b3]);
    assert [b2] + [b3] == [b2, b3] && [b1] + [b2, b3] == [b1, b2, b3] && [b0] + [b1, b2, b3] == [b0, b1, b2, b3] && [b3] + [] == [b3];
    SplitBytes(c);
    Nothing();
    XorUnit(Word(b3));
  }

  lemma LittleEndianCons(b: Byte, s: seq<Byte>)
    requires |s| <= 3
    ensures LittleEndian([b] + s) == Xor(Word(b), Up8(LittleEndian(s))) && LittleEndian([]) == 0
  {
    assert ([b] + s)[1..] == s;
  }

  lemma Nothing()
    ensures Up8(0) == 0
  {
  }

  /** The four bytes that take register c to register d. */
  function Bridge(c: bv32, d: bv32): (s: seq<Byte>)
    ensures |s| == 4
  {
    WordBytes(Xor(c, BitsBack(d, 32)))
  }

  /** There is exactly one way to do it. */
  lemma BridgeOnly(c: bv32, d: bv32, w: seq<Byte>)
    requires |w| == 4
    ensures FeedBits(c, MessageBits(w)) == d <==> w == Bridge(c, d)
  {
    hide BitsBack, Bits, LittleEndian, Feed, WordBytes, MessageBits, FeedBits, Xor;
    var s := Bridge(c, d);
    var b := BitsBack(d, 32);
    WordBytesBack(Xor(c, b));
    XorRules(c, c, b);
    XorUnit(b);
    FeedWord(c, s);
    BitsForth(d, 32);
    FeedIsBitwise(c, s);
    FeedIsBitwise(c, w);
    assert FeedBits(c, MessageBits(s)) == d;
    if w != s {
      BytesBurst([], w, s, []);
      assert [] + w + [] == w && [] + s + [] == s;
      BurstChanges(c, MessageBits(w), MessageBits(s), |MessageBits([])|);
    }
  }
}
