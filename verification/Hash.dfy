/** The seeded 128-bit mixing function of AquaZFS/util/hash.cc, its hand-written inverse, and the
    64-by-64-bit multiplication of AquaZFS/base/math128.h that both use. Words are naturals below
    2^64; every operation states its wrap-around. */
module BijectiveHash {
  import opened Powers
  import opened Coding

  type Word = U64

  // ---------------------------------------------------------------------------------------------
  // Exclusive or, bit by bit
  // ---------------------------------------------------------------------------------------------

  function XorNat(a: nat, b: nat): nat
    decreases a + b
  {
    if a + b == 0 then 0
    else (if a % 2 != b % 2 then 1 else 0) + 2 * XorNat(a / 2, b / 2)
  }

  lemma {:induction false} XorFits(a: nat, b: nat, k: nat)
    requires a < Pow2(k) && b < Pow2(k)
    ensures XorNat(a, b) < Pow2(k)
    decreases k
  {
    if k > 0 {
      XorFits(a / 2, b / 2, k - 1);
    }
  }

  lemma Pow2Of64()
    ensures Pow2(64) == W64
  {
    assert Pow2(8) == 0x100;
    assert Pow2(16) == 0x100 * Pow2(8);
    assert Pow2(24) == 0x100 * Pow2(16);
    assert Pow2(32) == 0x100 * Pow2(24);
    assert Pow2(40) == 0x100 * Pow2(32);
    assert Pow2(48) == 0x100 * Pow2(40);
    assert Pow2(56) == 0x100 * Pow2(48);
  }

  function Xor(a: Word, b: Word): (r: Word) {
    Pow2Of64();
    XorFits(a, b, 64);
    XorNat(a, b)
  }

  lemma XorParts(a: nat, b: nat)
    ensures XorNat(a, b) / 2 == XorNat(a / 2, b / 2)
    ensures XorNat(a, b) % 2 == if a % 2 != b % 2 then 1 else 0
  {
  }

  lemma SameParts(x: nat, y: nat)
    requires x / 2 == y / 2 && x % 2 == y % 2
    ensures x == y
  {
  }

  lemma {:induction false} XorNatCancels(a: nat, b: nat)
    ensures XorNat(XorNat(a, b), b) == a
    decreases a + b
  {
    XorParts(a, b);
    XorParts(XorNat(a, b), b);
    if a + b > 0 {
      hide XorNat;
      XorNatCancels(a / 2, b / 2);
      SameParts(XorNat(XorNat(a, b), b), a);
    }
  }

  lemma {:induction false} XorNatAssociates(a: nat, b: nat, c: nat)
    ensures XorNat(XorNat(a, b), c) == XorNat(a, XorNat(b, c))
    decreases a + b + c
  {
    XorParts(a, b);
    XorParts(b, c);
    XorParts(XorNat(a, b), c);
    XorParts(a, XorNat(b, c));
    if a + b + c > 0 {
      hide XorNat;
      XorNatAssociates(a / 2, b / 2, c / 2);
      SameParts(XorNat(XorNat(a, b), c), XorNat(a, XorNat(b, c)));
    }
  }

  lemma {:induction false} XorNatCommutes(a: nat, b: nat)
    ensures XorNat(a, b) == XorNat(b, a)
    decreases a + b
  {
    if a + b > 0 {
      XorNatCommutes(a / 2, b / 2);
    }
  }

  lemma {:induction false} XorNatZero(a: nat)
    ensures XorNat(a, 0) == a
    decreases a
  {
    if a > 0 {
      XorNatZero(a / 2);
    }
  }

  function Shr(a: nat, k: nat): (r: nat)
    ensures r <= a
    decreases k
  {
    if k == 0 then a else Shr(a / 2, k - 1)
  }

  lemma {:induction false} ShrXor(a: nat, b: nat, k: nat)
    ensures Shr(XorNat(a, b), k) == XorNat(Shr(a, k), Shr(b, k))
    decreases k
  {
    if k > 0 {
      XorParts(a, b);
      ShrXor(a / 2, b / 2, k - 1);
    }
  }

  lemma {:induction false} ShrAdd(a: nat, j: nat, k: nat)
    ensures Shr(Shr(a, j), k) == Shr(a, j + k)
    decreases j
  {
    if j > 0 {
      ShrAdd(a / 2, j - 1, k);
    }
  }

  lemma {:induction false} ShrVanishes(a: nat, k: nat)
    requires a < Pow2(k)
    ensures Shr(a, k) == 0
    decreases k
  {
    if k > 0 {
      ShrVanishes(a / 2, k - 1);
    }
  }

  /** Mixing in a shift by half the width or more is its own inverse. */
  lemma ShiftMixInverse(h: Word, k: nat)
    requires k >= 32
    ensures var g := Xor(h, Shr(h, k)); Xor(g, Shr(g, k)) == h
  {
    var s := Shr(h, k);
    ShrXor(h, s, k);
    ShrAdd(h, k, k);
    Pow2Of64();
    Pow2Monotone(64, 2 * k);
    ShrVanishes(h, 2 * k);
    XorNatZero(s);
    XorNatCancels(h, s);
  }

  // ---------------------------------------------------------------------------------------------
  // Wrapping arithmetic
  // ---------------------------------------------------------------------------------------------

  function Add(a: Word, b: Word): Word { (a + b) % W64 }

  function Sub(a: Word, b: Word): Word { (a - b) % W64 }

  function Mul(a: Word, b: Word): Word { (a * b) % W64 }

  lemma AddSub(a: Word, b: Word)
    ensures Sub(Add(a, b), a) == b && Sub(Add(a, b), b) == a
    ensures Add(Sub(a, b), b) == a && Add(a, Sub(b, a)) == b
  {
    AddCases(a, b);
    SubCases(a, b);
    SubCases(b, a);
    SubCases(Add(a, b), a);
    SubCases(Add(a, b), b);
    AddCases(Sub(a, b), b);
    AddCases(a, Sub(b, a));
  }

  lemma AddCases(a: Word, b: Word)
    ensures Add(a, b) == if a + b < W64 then a + b else a + b - W64
  {
    assert (a + b) % 0x1_0000_0000_0000_0000 == if a + b < W64 then a + b else a + b - W64;
  }

  lemma SubCases(a: Word, b: Word)
    ensures Sub(a, b) == if b <= a then a - b else a - b + W64
  {
    assert (a - b) % 0x1_0000_0000_0000_0000 == if b <= a then a - b else a - b + W64;
  }

  lemma Wrap64(x: Word, t: int)
    ensures (x + W64 * t) % W64 == x
  {
    assert (x + 0x1_0000_0000_0000_0000 * t) % 0x1_0000_0000_0000_0000 == x;
  }

  lemma Wrap32(x: nat, t: int)
    requires x < W32
    ensures (x + W32 * t) % W32 == x
  {
    assert (x + 0x1_0000_0000 * t) % 0x1_0000_0000 == x;
  }

  /** Multiplying by `c` and then by its inverse `d` modulo `m` is the identity modulo `m`. */
  lemma InverseMultiple(a: nat, c: nat, d: nat, k: nat, m: nat)
    requires m > 0 && c * d == k * m + 1
    ensures ((a * c) % m) * d == a + m * (a * k - ((a * c) / m) * d)
  {
    var q := (a * c) / m;
    var r := (a * c) % m;
    assert r == a * c - q * m;
    calc {
      r * d;
      (a * c - q * m) * d;
      a * (c * d) - q * m * d;
      a * (k * m + 1) - q * m * d;
      a + m * (a * k - q * d);
    }
  }

  const PRIME_A: Word := 0x9E3779B185EBCA87
  const INVERSE_A: Word := 0x887493432badb37
  const PRIME_B: Word := 0xC2B2AE3D27D4EB4F
  const INVERSE_B: Word := 0xba79078168d4baf
  const PRIME_C: Word := 0x165667919E3779F9
  const INVERSE_C: Word := 0x8da8ee41d6df849
  const PRIME_D: nat := 0x85EBCA77
  const INVERSE_D: nat := 0xb6c92f47
  const LENGTH_MIX: Word := 0x3c0000000000000

  predicate Inverses(c: Word, d: Word) { c * d % W64 == 1 }

  lemma ConstantsInverse()
    ensures Inverses(PRIME_A, INVERSE_A) && Inverses(INVERSE_A, PRIME_A)
    ensures Inverses(PRIME_B, INVERSE_B) && Inverses(INVERSE_B, PRIME_B)
    ensures Inverses(PRIME_C, INVERSE_C) && Inverses(INVERSE_C, PRIME_C)
  {
  }

  lemma MulInverse(a: Word, c: Word, d: Word)
    requires Inverses(c, d)
    ensures Mul(Mul(a, c), d) == a
  {
    var k := (c * d) / W64;
    InverseMultiple(a, c, d, k, W64);
    Wrap64(a, a * k - ((a * c) / W64) * d);
  }

  // ---------------------------------------------------------------------------------------------
  // Multiply64to128
  // ---------------------------------------------------------------------------------------------

  function Upper64(a: Word, b: Word): Word {
    UpperFits(a, b);
    (a * b) / W64
  }

  lemma UpperFits(a: Word, b: Word)
    ensures 0 <= (a * b) / W64 < W64
  {
    MulMonotone(a, 0xffff_ffff_ffff_ffff, b);
    assert 0 <= (a * b) / 0x1_0000_0000_0000_0000 < 0x1_0000_0000_0000_0000;
  }

  lemma MulMonotone(a: nat, b: nat, c: nat)
    requires a <= b
    ensures 0 <= a * c <= b * c
  {
  }

  /** The largest product of two 32-bit words. */
  const HALF_PRODUCT: nat := 0xffff_fffe_0000_0001

  lemma HalfProduct(x: nat, y: nat)
    requires x < W32 && y < W32
    ensures 0 <= x * y <= HALF_PRODUCT
  {
    MulMonotone(x, 0xffff_ffff, y);
  }

  lemma ProductOfHalves(al: nat, ah: nat, bl: nat, bh: nat)
    ensures (ah * W32 + al) * (bh * W32 + bl) == bl * al + (bl * ah + bh * al) * W32 + (bh * ah) * W64
  {
    Distribute(ah * W32, al, bh * W32, bl);
    RegroupScale(ah, bh);
    RegroupScale1(ah, bl);
    RegroupScale1(bh, al);
  }

  lemma Distribute(a: nat, b: nat, c: nat, d: nat)
    ensures (a + b) * (c + d) == a * c + a * d + b * c + b * d
  {
  }

  lemma RegroupScale(x: nat, y: nat)
    ensures (x * W32) * (y * W32) == (y * x) * W64
  {
    assert (x * 0x1_0000_0000) * (y * 0x1_0000_0000) == (y * x) * 0x1_0000_0000_0000_0000;
  }

  lemma RegroupScale1(x: nat, y: nat)
    ensures (x * W32) * y == (y * x) * W32 && y * (x * W32) == (x * y) * W32
  {
  }

  /** The carry chain over the four partial products, every step reduced modulo 2^64 as the machine
      does; no step in fact wraps. */
  method AddPartialProducts(p0: nat, p1: nat, p2: nat, p3: nat) returns (upper: Word, lower: Word)
    requires p0 <= HALF_PRODUCT && p1 <= HALF_PRODUCT && p2 <= HALF_PRODUCT && p3 <= HALF_PRODUCT
    ensures upper * W64 + lower == p0 + (p1 + p2) * W32 + p3 * W64
  {
    NoWrap(p0);
    var tmp := p0 % W64;
    lower := tmp % W32;
    tmp := tmp / W32;
    NoWrap(tmp + p1);
    tmp := (tmp + p1) % W64;
    assert tmp * W32 + lower == p0 + p1 * W32;
    NoWrap(p2);
    var tmp2 := p2 % W64;
    NoWrap(tmp + tmp2 % W32);
    tmp := (tmp + tmp2 % W32) % W64;
    assert tmp * W32 + lower == p0 + (p1 + p2 % W32) * W32;
    ShiftUp(tmp);
    lower := lower + (tmp * W32) % W64;
    tmp := tmp / W32;
    assert tmp * W64 + lower == p0 + (p1 + p2 % W32) * W32;
    NoWrap(tmp + tmp2 / W32);
    tmp := (tmp + tmp2 / W32) % W64;
    assert tmp * W64 + lower == p0 + (p1 + p2) * W32;
    NoWrap(tmp + p3);
    tmp := (tmp + p3) % W64;
    upper := tmp;
  }

  lemma NoWrap(x: nat)
    requires x < W64
    ensures x % W64 == x
  {
  }

  lemma ShiftUp(x: nat)
    ensures (x * W32) % W64 == (x % W32) * W32
    ensures x * W32 == (x / W32) * W64 + (x % W32) * W32
  {
    var q, r := x / W32, x % W32;
    assert x == q * W32 + r;
    DivModOf(q, r * W32, x * W32);
  }

  /** Multiply64to128 without a 128-bit type: four 32-bit products. The result is the exact product. */
  method Multiply64to128(a: Word, b: Word) returns (upper: Word, lower: Word)
    ensures upper * W64 + lower == a * b
    ensures upper == Upper64(a, b) && lower == Mul(a, b)
  {
    var al, ah, bl, bh := a % W32, a / W32, b % W32, b / W32;
    HalfProduct(bl, al);
    HalfProduct(bl, ah);
    HalfProduct(bh, al);
    HalfProduct(bh, ah);
    upper, lower := AddPartialProducts(bl * al, bl * ah, bh * al, bh * ah);
    ProductOfHalves(al, ah, bl, bh);
    DivModOf(upper, lower, a * b);
  }

  lemma DivModOf(upper: nat, lower: Word, x: nat)
    requires upper * W64 + lower == x
    ensures x / W64 == upper && x % W64 == lower
  {
    assert x / 0x1_0000_0000_0000_0000 == upper;
  }

  // ---------------------------------------------------------------------------------------------
  // The building blocks of the hash and their inverses
  // ---------------------------------------------------------------------------------------------

  function Avalanche(h: Word): Word {
    var h1 := Xor(h, Shr(h, 37));
    var h2 := Mul(h1, PRIME_C);
    Xor(h2, Shr(h2, 32))
  }

  function Unavalanche(h: Word): Word {
    var h1 := Xor(h, Shr(h, 32));
    var h2 := Mul(h1, INVERSE_C);
    Xor(h2, Shr(h2, 37))
  }

  lemma AvalancheInverse(h: Word)
    ensures Unavalanche(Avalanche(h)) == h
    ensures Avalanche(Unavalanche(h)) == h
  {
    ConstantsInverse();
    hide Xor, Mul, Shr, Inverses;
    var h1 := Xor(h, Shr(h, 37));
    ShiftMixInverse(h, 37);
    MulInverse(h1, PRIME_C, INVERSE_C);
    ShiftMixInverse(Mul(h1, PRIME_C), 32);
    var g1 := Xor(h, Shr(h, 32));
    ShiftMixInverse(h, 32);
    MulInverse(g1, INVERSE_C, PRIME_C);
    ShiftMixInverse(Mul(g1, INVERSE_C), 37);
  }

  /** x + lower32(x) * 0x85EBCA76 */
  function Spread(x: Word): Word {
    Add(x, (x % W32) * 0x85EBCA76)
  }

  function HighHalf(x: Word): Word { x - x % W32 }

  /** The inverse of Spread, as BijectiveUnhash2x64 writes it out. */
  function Unspread(y: Word): Word {
    var tmp32 := ((y % W32) * INVERSE_D) % W32;
    var hi := Sub(y, tmp32);
    Add(Sub(HighHalf(hi), HighHalf(tmp32 * 0x85EBCA76)), tmp32)
  }

  lemma InverseD(t: nat)
    requires t < W32
    ensures (((t * PRIME_D) % W32) * INVERSE_D) % W32 == t
    ensures (((t * INVERSE_D) % W32) * PRIME_D) % W32 == t
  {
    var k := (PRIME_D * INVERSE_D) / W32;
    InverseMultiple(t, PRIME_D, INVERSE_D, k, W32);
    Wrap32(t, t * k - ((t * PRIME_D) / W32) * INVERSE_D);
    InverseMultiple(t, INVERSE_D, PRIME_D, k, W32);
    Wrap32(t, t * k - ((t * INVERSE_D) / W32) * PRIME_D);
  }

  lemma LowOfAdd(x: Word, p: Word)
    ensures Add(x, p) % W32 == (x % W32 + p % W32) % W32
  {
    AddCases(x, p);
    var s := x % W32 + p % W32;
    assert x + p == s + W32 * (x / W32 + p / W32);
    if x + p < W64 {
      LowShift(s, x / W32 + p / W32);
    } else {
      LowShift(s, x / W32 + p / W32 - W32);
    }
  }

  lemma LowShift(s: nat, t: int)
    ensures (s + W32 * t) % W32 == s % W32
  {
    assert (s + 0x1_0000_0000 * t) % 0x1_0000_0000 == s % 0x1_0000_0000;
  }

  lemma HighOfAdd(h: Word, p: Word)
    requires h % W32 == 0
    ensures HighHalf(Add(h, p)) == Add(h, HighHalf(p))
  {
    LowOfAdd(h, p);
    AddCases(h, p);
    AddCases(h, HighHalf(p));
    assert Add(h, p) % W32 == p % W32;
  }

  lemma LowOfScaled(t: nat)
    requires t < W32
    ensures (t + (t * 0x85EBCA76) % W32) % W32 == (t * PRIME_D) % W32
  {
    var p := t * 0x85EBCA76;
    assert t + p == t * PRIME_D;
    LowShift(t + p % W32, p / W32);
  }

  lemma MoveSub(x: Word, p: Word, t: Word)
    requires t <= x
    ensures Sub(Add(x, p), t) == Add(x - t, p)
  {
    AddCases(x, p);
    AddCases(x - t, p);
    SubCases(Add(x, p), t);
  }

  lemma UnspreadSpread(x: Word)
    ensures Unspread(Spread(x)) == x
  {
    var t := x % W32;
    var p := t * 0x85EBCA76;
    var h := HighHalf(x);
    LowOfAdd(x, p);
    LowOfScaled(t);
    InverseD(t);
    MoveSub(x, p, t);
    LowShift(0, x / W32);
    HighOfAdd(h, p);
    AddSub(h, HighHalf(p));
    AddCases(h, t);
    hide Add, Sub, HighHalf;
    assert ((Spread(x) % W32) * INVERSE_D) % W32 == t;
  }

  lemma SpreadUnspread(y: Word)
    ensures Spread(Unspread(y)) == y
  {
    var t := ((y % W32) * INVERSE_D) % W32;
    var p := t * 0x85EBCA76;
    InverseD(y % W32);
    LowOfScaled(t);
    var hi := Sub(y, t);
    LowOfSub(y, t, p % W32);
    var d := Sub(HighHalf(hi), HighHalf(p));
    LowOfHighs(hi, p);
    RestoreLow(d, t);
    SpreadTotal(y, hi, d, t, p);
  }

  lemma RestoreLow(d: Word, t: nat)
    requires t < W32 && d % W32 == 0 && d + W32 <= W64
    ensures Add(d, t) == d + t && (d + t) % W32 == t
  {
    AddCases(d, t);
    LowShift(t, d / W32);
  }

  /** The four parts of the sum that Spread(Unspread(y)) computes add up to `y` modulo 2^64. */
  lemma SpreadTotal(y: Word, hi: Word, d: Word, t: nat, p: Word)
    requires t < W32 && d + t < W64
    requires hi == Sub(y, t) && hi % W32 == p % W32
    requires d == Sub(HighHalf(hi), HighHalf(p))
    ensures Add(d + t, p) == y
  {
    SubCases(y, t);
    SubCases(HighHalf(hi), HighHalf(p));
    AddCases(d + t, p);
  }

  lemma LowOfSub(y: Word, t: nat, q: nat)
    requires t < W32 && q < W32 && (t + q) % W32 == y % W32
    ensures Sub(y, t) % W32 == q
  {
    SubCases(y, t);
    var d := Sub(y, t);
    var c := (t + q) / W32;
    if t <= y {
      assert d == q + W32 * (y / W32 - c);
      LowShift(q, y / W32 - c);
    } else {
      assert d == q + W32 * (y / W32 - c + W32);
      LowShift(q, y / W32 - c + W32);
    }
  }

  lemma LowOfHighs(a: Word, b: Word)
    ensures Sub(HighHalf(a), HighHalf(b)) % W32 == 0
    ensures Sub(HighHalf(a), HighHalf(b)) + W32 <= W64
  {
    SubCases(HighHalf(a), HighHalf(b));
    var n := a / W32 - b / W32;
    if HighHalf(b) <= HighHalf(a) {
      LowShift(0, n);
    } else {
      LowShift(0, n + W32);
    }
  }

  /** EndianSwapValue on 64 bits: the eight bytes in reverse order. */
  function EndianSwap(x: Word): Word { ReverseBytes(x, 8) }

  function ReverseBytes(x: nat, n: nat): (r: nat)
    ensures r < Pow256(n)
    decreases n
  {
    if n == 0 then 0
    else
      assert Pow256(n) == 0x100 * Pow256(n - 1);
      assert (x % 0x100) * Pow256(n - 1) <= 0xff * Pow256(n - 1);
      (x % 0x100) * Pow256(n - 1) + ReverseBytes(x / 0x100, n - 1)
  }

  // ---------------------------------------------------------------------------------------------
  // BijectiveHash2x64 and BijectiveUnhash2x64
  // ---------------------------------------------------------------------------------------------

  datatype Pair = Pair(high: Word, low: Word)

  function FlipLow(seed: Word): Word { Sub(0x59973f0033362349, seed) }

  function FlipHigh(seed: Word): Word { Add(0xc202797692d63d58, seed) }

  function Hash2x64(x: Pair, seed: Word): Pair {
    var mixed := Xor(Xor(x.low, x.high), FlipLow(seed));
    var lo := Add(Mul(mixed, PRIME_A), LENGTH_MIX);
    var inHigh := Xor(x.high, FlipHigh(seed));
    var hi := Add(Upper64(mixed, PRIME_A), Spread(inHigh));
    var lo1 := Xor(lo, EndianSwap(hi));
    var hi1 := Add(Upper64(lo1, PRIME_B), Mul(hi, PRIME_B));
    Pair(Avalanche(hi1), Avalanche(Mul(lo1, PRIME_B)))
  }

  function Unhash2x64(y: Pair, seed: Word): Pair {
    var lo := Mul(Unavalanche(y.low), INVERSE_B);
    var hi := Mul(Sub(Unavalanche(y.high), Upper64(lo, PRIME_B)), INVERSE_B);
    var lo1 := Mul(Sub(Xor(lo, EndianSwap(hi)), LENGTH_MIX), INVERSE_A);
    var hi1 := Unspread(Sub(hi, Upper64(lo1, PRIME_A)));
    var high := Xor(hi1, FlipHigh(seed));
    Pair(high, Xor(lo1, Xor(high, FlipLow(seed))))
  }

  lemma XorCancels(a: Word, b: Word)
    ensures Xor(Xor(a, b), b) == a
  {
    XorNatCancels(a, b);
  }

  lemma XorAssociates(a: Word, b: Word, c: Word)
    ensures Xor(Xor(a, b), c) == Xor(a, Xor(b, c))
  {
    XorNatAssociates(a, b, c);
  }

  /** Unhashing undoes hashing, for every input and every seed. */
  lemma UnhashHash(x: Pair, seed: Word)
    ensures Unhash2x64(Hash2x64(x, seed), seed) == x
  {
    ConstantsInverse();
    hide Xor, Add, Sub, Mul, Upper64, Spread, Unspread, EndianSwap, Avalanche, Unavalanche, Inverses, FlipLow, FlipHigh;
    var flip := FlipLow(seed);
    var mixed := Xor(Xor(x.low, x.high), flip);
    var product := Mul(mixed, PRIME_A);
    var lo := Add(product, LENGTH_MIX);
    var inHigh := Xor(x.high, FlipHigh(seed));
    var spread := Spread(inHigh);
    var hi := Add(Upper64(mixed, PRIME_A), spread);
    var lo1 := Xor(lo, EndianSwap(hi));
    var product1 := Mul(lo1, PRIME_B);
    var scaled := Mul(hi, PRIME_B);
    var hi1 := Add(Upper64(lo1, PRIME_B), scaled);
    AvalancheInverse(product1);
    AvalancheInverse(hi1);
    MulInverse(lo1, PRIME_B, INVERSE_B);
    AddSub(Upper64(lo1, PRIME_B), scaled);
    MulInverse(hi, PRIME_B, INVERSE_B);
    XorCancels(lo, EndianSwap(hi));
    AddSub(product, LENGTH_MIX);
    MulInverse(mixed, PRIME_A, INVERSE_A);
    AddSub(Upper64(mixed, PRIME_A), spread);
    UnspreadSpread(inHigh);
    XorCancels(x.high, FlipHigh(seed));
    XorAssociates(x.low, x.high, flip);
    XorCancels(x.low, Xor(x.high, flip));
  }

  /** Hashing undoes unhashing, so the hash is a bijection on pairs of words. */
  lemma HashUnhash(y: Pair, seed: Word)
    ensures Hash2x64(Unhash2x64(y, seed), seed) == y
  {
    ConstantsInverse();
    hide Xor, Add, Sub, Mul, Upper64, Spread, Unspread, EndianSwap, Avalanche, Unavalanche, Inverses, FlipLow, FlipHigh;
    var flip := FlipLow(seed);
    var u, v := Unavalanche(y.low), Unavalanche(y.high);
    var lo := Mul(u, INVERSE_B);
    var rest := Sub(v, Upper64(lo, PRIME_B));
    var hi := Mul(rest, INVERSE_B);
    var swapped := Xor(lo, EndianSwap(hi));
    var lo0 := Sub(swapped, LENGTH_MIX);
    var lo1 := Mul(lo0, INVERSE_A);
    var rest1 := Sub(hi, Upper64(lo1, PRIME_A));
    var hi1 := Unspread(rest1);
    var high := Xor(hi1, FlipHigh(seed));
    XorAssociates(lo1, high, flip);
    XorCancels(lo1, Xor(high, flip));
    var low := Xor(lo1, Xor(high, flip));
    XorAssociates(low, high, flip);
    MulInverse(lo0, INVERSE_A, PRIME_A);
    AddSub(swapped, LENGTH_MIX);
    XorCancels(hi1, FlipHigh(seed));
    SpreadUnspread(rest1);
    AddSub(Upper64(lo1, PRIME_A), hi);
    XorCancels(lo, EndianSwap(hi));
    MulInverse(u, INVERSE_B, PRIME_B);
    MulInverse(rest, INVERSE_B, PRIME_B);
    AddSub(Upper64(lo, PRIME_B), v);
    AvalancheInverse(y.low);
    AvalancheInverse(y.high);
  }

  /** BijectiveHash2x64 statement by statement, on the portable multiplication. */
  method BijectiveHash2x64(high: Word, low: Word, seed: Word) returns (outHigh: Word, outLow: Word)
    ensures Pair(outHigh, outLow) == Hash2x64(Pair(high, low), seed)
    ensures Unhash2x64(Pair(outHigh, outLow), seed) == Pair(high, low)
  {
    UnhashHash(Pair(high, low), seed);
    hide Xor, Add, Sub, Mul, Upper64, Spread, EndianSwap, Avalanche, Unhash2x64;
    var bitflipl, bitfliph := FlipLow(seed), FlipHigh(seed);
    var hi, lo := Multiply64to128(Xor(Xor(low, high), bitflipl), PRIME_A);
    lo := Add(lo, LENGTH_MIX);
    var inHigh := Xor(high, bitfliph);
    hi := Add(hi, Spread(inHigh));
    lo := Xor(lo, EndianSwap(hi));
    var upper, lower := Multiply64to128(lo, PRIME_B);
    lo := lower;
    hi := Add(upper, Mul(hi, PRIME_B));
    outLow := Avalanche(lo);
    outHigh := Avalanche(hi);
  }

  /** BijectiveUnhash2x64 statement by statement. */
  method BijectiveUnhash2x64(high: Word, low: Word, seed: Word) returns (outHigh: Word, outLow: Word)
    ensures Pair(outHigh, outLow) == Unhash2x64(Pair(high, low), seed)
    ensures Hash2x64(Pair(outHigh, outLow), seed) == Pair(high, low)
  {
    HashUnhash(Pair(high, low), seed);
    hide Xor, Add, Sub, Mul, Upper64, Unspread, EndianSwap, Unavalanche, Hash2x64;
    var bitflipl, bitfliph := FlipLow(seed), FlipHigh(seed);
    var lo, hi := Unavalanche(low), Unavalanche(high);
    lo := Mul(lo, INVERSE_B);
    var upper, lower := Multiply64to128(lo, PRIME_B);
    hi := Mul(Sub(hi, upper), INVERSE_B);
    lo := Xor(lo, EndianSwap(hi));
    lo := Mul(Sub(lo, LENGTH_MIX), INVERSE_A);
    upper, lower := Multiply64to128(lo, PRIME_A);
    hi := Unspread(Sub(hi, upper));
    hi := Xor(hi, bitfliph);
    outLow := Xor(lo, Xor(hi, bitflipl));
    outHigh := hi;
  }
}
