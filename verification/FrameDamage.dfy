/** What reading the metadata log makes of a damaged frame (AquaMetaLog::ReadRecord in AquaZFS/fs/fs_aquafs.cc):
    the record is under its checksum, and so is its length. Where ParseAt is Bad, ReadRecord answers with an
    error. */
module FrameDamage {
  import opened Coding
  import opened Zoned
  import opened Extents
  import opened ZonedDevice
  import opened MetaLog
  import Crc32c
  import opened CrcDetection

  /** The bits of a string, in the order in which the checksum takes them. */
  function BitsOf(s: seq<Byte>): (bits: seq<bool>)
    ensures |bits| == 8 * |s|
  {
    Crc32c.MessageBits(Raw(s))
  }

  /** The register after a string, from the beginning. */
  function Register(s: seq<Byte>): bv32 { Crc32c.FeedBits(Crc32c.Not(0), BitsOf(s)) }

  lemma RawAppend(s: seq<Byte>, t: seq<Byte>)
    ensures Raw(s + t) == Raw(s) + Raw(t)
  {
  }

  lemma WordBack(a: bv32)
    ensures (a as nat) as bv32 == a
  {
  }

  lemma WordApart(a: bv32, b: bv32)
    requires a != b
    ensures a as nat != b as nat
  {
    WordBack(a);
    WordBack(b);
  }

  lemma ByteBack(a: Byte)
    ensures (a as Crc32c.Byte) as nat == a
  {
    if a < 0x10 {} else if a < 0x20 {} else if a < 0x30 {} else if a < 0x40 {} else if a < 0x50 {} else if a < 0x60 {}
    else if a < 0x70 {} else if a < 0x80 {} else if a < 0x90 {} else if a < 0xa0 {} else if a < 0xb0 {} else if a < 0xc0 {}
    else if a < 0xd0 {} else if a < 0xe0 {} else if a < 0xf0 {} else {}
  }

  /** The checksums are equal exactly if the registers are. */
  lemma CrcByRegister(size: U32, r: seq<Byte>, size': U32, r': seq<Byte>)
    ensures CrcOf(size, r) == CrcOf(size', r') <==> Register(PutFixed32(size) + r) == Register(PutFixed32(size') + r')
  {
    CrcIsReference(size, r);
    CrcIsReference(size', r');
    hide PutFixed32, Crc32c.MessageBits, Crc32c.FeedBits, Crc32c.Not, CrcOf, Raw;
    var c, d := Register(PutFixed32(size) + r), Register(PutFixed32(size') + r');
    if c != d {
      if Crc32c.Not(c) == Crc32c.Not(d) { NotInjective(c, d); }
      WordApart(Crc32c.Not(c), Crc32c.Not(d));
    }
  }

  lemma CrcExtends(size: U32, r: seq<Byte>)
    ensures CrcOf(size, r) == Crc32c.ReferenceExtend(Crc32c.ReferenceCrc(Raw(PutFixed32(size))), Raw(r)) as nat
  {
    Crc32c.ExtendAppend(0, Raw(PutFixed32(size)), Raw(r));
    hide PutFixed32;
  }

  // ---------------------------------------------------------------- a place in a zone

  /** At this place stand a checksum field and a length field, and behind them `body`. */
  predicate Stands(z: Zone, pos: nat, crc: U32, size: U32, body: seq<Byte>) {
    && z.start <= pos < z.wp
    && pos - z.start + HEADER_SIZE + |body| <= |z.data|
    && z.data[pos - z.start..pos - z.start + HEADER_SIZE + |body|] == PutFixed32(crc) + PutFixed32(size) + body
  }

  lemma FieldsStand(z: Zone, pos: nat, crc: U32, size: U32, body: seq<Byte>)
    requires Stands(z, pos, crc, size, body)
    ensures var d := z.data[pos - z.start..];
      CrcField(d) == crc && SizeField(d) == size && d[HEADER_SIZE..HEADER_SIZE + |body|] == body
  {
    hide PutFixed32, GetFixed32;
    var d, c, n := z.data[pos - z.start..], PutFixed32(crc), PutFixed32(size);
    var rest := d[HEADER_SIZE + |body|..];
    assert d == c + n + body + rest by { assert d[..HEADER_SIZE + |body|] == c + n + body; }
    assert d == c + (n + body + rest);
    GetPutFixed32(crc, n + body + rest);
    assert d[4..] == n + (body + rest);
    GetPutFixed32(size, body + rest);
  }

  /** What is read there, once the checksum is compared. */
  lemma ParseStands(z: Zone, pos: nat, crc: U32, size: U32, body: seq<Byte>, bs: nat)
    requires bs > 0 && Stands(z, pos, crc, size, body) && size <= |body|
    ensures CrcOf(size, body[..size]) != Unmask(crc) ==> ParseAt(z, pos, bs) == Bad
    ensures CrcOf(size, body[..size]) == Unmask(crc) && size < INT ==>
      ParseAt(z, pos, bs) == Found(body[..size], pos + Padded(HEADER_SIZE + size, bs))
  {
    FieldsStand(z, pos, crc, size, body);
    Inside(z, pos, crc, size, body);
    hide CrcField, SizeField, CrcOf, Unmask, Padded, PutFixed32, Stands;
    ParseFields(z, pos, crc, size, z.data[pos - z.start..], body, bs);
  }

  lemma Inside(z: Zone, pos: nat, crc: U32, size: U32, body: seq<Byte>)
    requires Stands(z, pos, crc, size, body)
    ensures z.start <= pos < z.wp && pos - z.start + HEADER_SIZE + |body| <= |z.data|
  {
  }

  lemma ParseFields(z: Zone, pos: nat, crc: U32, size: U32, d: seq<Byte>, body: seq<Byte>, bs: nat)
    requires bs > 0 && z.start <= pos < z.wp && pos - z.start <= |z.data| && d == z.data[pos - z.start..]
    requires |d| >= HEADER_SIZE + |body| && CrcField(d) == crc && SizeField(d) == size <= |body|
    requires d[HEADER_SIZE..HEADER_SIZE + |body|] == body
    ensures CrcOf(size, body[..size]) != Unmask(crc) ==> ParseAt(z, pos, bs) == Bad
    ensures CrcOf(size, body[..size]) == Unmask(crc) && size < INT ==>
      ParseAt(z, pos, bs) == Found(body[..size], pos + Padded(HEADER_SIZE + size, bs))
  {
    hide CrcField, SizeField, CrcOf, Unmask, Padded;
    assert d[HEADER_SIZE..HEADER_SIZE + size] == body[..size];
  }

  // ---------------------------------------------------------------- damage to the record

  /** Any damage to a record within 32 consecutive bits is noticed. */
  lemma RecordDamage(z: Zone, pos: nat, r: seq<Byte>, r': seq<Byte>, i: nat, bs: nat)
    requires bs > 0 && |r| < W32 && Stands(z, pos, Checksum(r), |r|, r')
    requires |r'| == |r| && Burst(BitsOf(r), BitsOf(r'), i)
    ensures ParseAt(z, pos, bs) == Bad
  {
    RecordNoticed(r, r', i);
    hide *;
    assert r'[..|r|] == r';
    ParseStands(z, pos, Checksum(r), |r|, r', bs);
  }

  lemma RecordNoticed(r: seq<Byte>, r': seq<Byte>, i: nat)
    requires |r'| == |r| < W32 && Burst(BitsOf(r), BitsOf(r'), i)
    ensures CrcOf(|r|, r') != Unmask(Checksum(r))
  {
    ChecksumIs(r);
    BitsAre(r);
    BitsAre(r');
    hide *;
    var c := Crc32c.ReferenceCrc(Raw(PutFixed32(|r|)));
    CrcExtends(|r|, r);
    CrcExtends(|r|, r');
    BurstDetected(c, Raw(r), Raw(r'), i);
    WordApart(Crc32c.ReferenceExtend(c, Raw(r)), Crc32c.ReferenceExtend(c, Raw(r')));
  }

  lemma BitsAre(s: seq<Byte>)
    ensures BitsOf(s) == Crc32c.MessageBits(Raw(s))
  {
  }

  /** One byte of it, say. */
  lemma ByteDamage(z: Zone, pos: nat, r: seq<Byte>, k: nat, b: Byte, bs: nat)
    requires bs > 0 && |r| < W32 && k < |r| && b != r[k] && Stands(z, pos, Checksum(r), |r|, r[k := b])
    ensures ParseAt(z, pos, bs) == Bad
  {
    hide PutFixed32, Burst, Checksum, Stands;
    var p, q := Raw(r[..k]), Raw(r[k + 1..]);
    var s, t := Raw([r[k]]), Raw([b]);
    assert Raw(r) == p + s + q && Raw(r[k := b]) == p + t + q;
    ByteApart(r[k], b);
    BytesBurst(p, s, t, q);
    RecordDamage(z, pos, r, r[k := b], |Crc32c.MessageBits(p)|, bs);
  }

  lemma ByteApart(a: Byte, b: Byte)
    requires a != b
    ensures Raw([a]) != Raw([b]) && |Raw([a])| == |Raw([b])| == 1
  {
    ByteBack(a);
    ByteBack(b);
    assert Raw([a])[0] == a as Crc32c.Byte && Raw([b])[0] == b as Crc32c.Byte;
  }

  // ---------------------------------------------------------------- damage to the header

  /** Damage to the checksum field is noticed, whatever it is. */
  lemma ChecksumDamage(z: Zone, pos: nat, r: seq<Byte>, crc: U32, bs: nat)
    requires bs > 0 && |r| < W32 && crc != Checksum(r) && Stands(z, pos, crc, |r|, r)
    ensures ParseAt(z, pos, bs) == Bad
  {
    hide CrcOf, Mask, Unmask, PutFixed32;
    MaskUnmask(crc);
    assert r[..|r|] == r;
    ParseStands(z, pos, crc, |r|, r, bs);
  }

  lemma MaskUnmask(x: U32)
    ensures Mask(Unmask(x)) == x
  {
    var rot := (x + (W32 - MASK_DELTA)) % W32;
    var hi, lo := rot / 0x2_0000, rot % 0x2_0000;
    assert hi < 0x8000 && rot == hi * 0x2_0000 + lo;
    var crc := hi + lo * 0x8000;
    assert crc / 0x8000 == lo && crc % 0x8000 == hi;
    BackWrap(x, MASK_DELTA);
  }

  lemma BackWrap(x: U32, d: U32)
    ensures ((x + (W32 - d)) % W32 + d) % W32 == x
  {
    if x + (W32 - d) < W32 {
      assert (x + (W32 - d)) % W32 == x + (W32 - d);
    } else {
      assert (x + (W32 - d)) % W32 == x + (W32 - d) - W32;
    }
  }

  /** Damage to the length is noticed if it changes the parity of what the checksum covers: of the length
      field, and of the bytes that now count as the record. */
  lemma LengthDamage(z: Zone, pos: nat, r: seq<Byte>, size: U32, body: seq<Byte>, bs: nat)
    requires bs > 0 && |r| < W32 && Stands(z, pos, Checksum(r), size, body) && size <= |body|
    requires Odd(BitsOf(PutFixed32(size) + body[..size])) != Odd(BitsOf(PutFixed32(|r|) + r))
    ensures ParseAt(z, pos, bs) == Bad
  {
    LengthNoticed(r, size, body[..size]);
    hide *;
    ParseStands(z, pos, Checksum(r), size, body, bs);
  }

  lemma LengthNoticed(r: seq<Byte>, size: U32, r': seq<Byte>)
    requires |r| < W32 && Odd(BitsOf(PutFixed32(size) + r')) != Odd(BitsOf(PutFixed32(|r|) + r))
    ensures CrcOf(size, r') != Unmask(Checksum(r))
  {
    var s, t := PutFixed32(size) + r', PutFixed32(|r|) + r;
    ChecksumIs(r);
    BitsAre(s);
    BitsAre(t);
    hide *;
    CrcIsReference(|r|, r);
    CrcIsReference(size, r');
    ParityDetected(0, Raw(s), Raw(t));
    WordApart(Crc32c.ReferenceExtend(0, Raw(s)), Crc32c.ReferenceExtend(0, Raw(t)));
  }

  lemma CrcIsReference(size: U32, r: seq<Byte>)
    ensures CrcOf(size, r) == Crc32c.ReferenceExtend(0, Raw(PutFixed32(size) + r)) as nat
  {
    hide PutFixed32;
    RawAppend(PutFixed32(size), r);
  }

  /** So of a length that has grown into the padding any odd number of wrong bits is noticed. */
  lemma LengthGrown(z: Zone, pos: nat, r: seq<Byte>, size: U32, n: nat, bs: nat)
    requires bs > 0 && |r| < W32 && |r| <= size <= |r| + n && Stands(z, pos, Checksum(r), size, r + Zeros(n))
    requires Odd(BitsOf(PutFixed32(size))) != Odd(BitsOf(PutFixed32(|r|)))
    ensures ParseAt(z, pos, bs) == Bad
  {
    var body, zeros := r + Zeros(n), Zeros(size - |r|);
    assert body[..size] == r + zeros;
    hide PutFixed32, Odd, Stands, Checksum;
    OddParts(PutFixed32(size), r + zeros);
    OddParts(r, zeros);
    OddParts(PutFixed32(|r|), r);
    ZerosEven(size - |r|);
    LengthDamage(z, pos, r, size, body, bs);
  }

  lemma OddParts(s: seq<Byte>, t: seq<Byte>)
    ensures Odd(BitsOf(s + t)) == (Odd(BitsOf(s)) != Odd(BitsOf(t)))
  {
    RawAppend(s, t);
    MessageBitsAppend(Raw(s), Raw(t));
    OddAppend(BitsOf(s), BitsOf(t));
  }

  lemma {:induction false} ZerosEven(n: nat)
    ensures !Odd(BitsOf(Zeros(n)))
    decreases n
  {
    if n > 0 {
      assert Zeros(n) == Zeros(n - 1) + [0];
      OddParts(Zeros(n - 1), [0]);
      ZerosEven(n - 1);
      OneZero();
    }
  }

  lemma OneZero()
    ensures !Odd(BitsOf([0]))
  {
    assert Raw([0]) == [0 as Crc32c.Byte];
    var bits := BitsOf([0]);
    assert Crc32c.MessageBits(Raw([0])[1..]) == [];
    assert bits == Crc32c.ByteBits(0 as Crc32c.Byte);
    OddZeroes(bits);
  }

  /** In general it is not noticed: whatever the record begins with, there is one ending of four bytes, and
      only one, with which a length that is four too small goes through and cuts the record off. */
  lemma LengthCut(z: Zone, pos: nat, p: seq<Byte>, w: seq<Byte>, bs: nat)
    requires bs > 0 && |w| == 4 && |p| + 4 < INT && Stands(z, pos, Checksum(p + w), |p|, p + w)
    ensures var unnoticed := Raw(w) == Bridge(Register(PutFixed32(|p| + 4) + p), Register(PutFixed32(|p|) + p));
      ParseAt(z, pos, bs) == if unnoticed then Found(p, pos + Padded(HEADER_SIZE + |p|, bs)) else Bad
  {
    hide CrcOf, Mask, Unmask, PutFixed32, Stands, Bridge, Padded, Register, Raw, Checksum, ParseAt;
    CutUnnoticed(p, w);
    assert (p + w)[..|p|] == p;
    ParseStands(z, pos, Checksum(p + w), |p|, p + w, bs);
  }

  lemma CutUnnoticed(p: seq<Byte>, w: seq<Byte>)
    requires |w| == 4 && |p| + 4 < INT
    ensures CrcOf(|p|, p) == Unmask(Checksum(p + w)) <==>
      Raw(w) == Bridge(Register(PutFixed32(|p| + 4) + p), Register(PutFixed32(|p|) + p))
  {
    ChecksumIs(p + w);
    hide *;
    var n := |p| + 4;
    var head := PutFixed32(n) + p;
    CrcByRegister(|p|, p, n, p + w);
    assert PutFixed32(n) + (p + w) == head + w;
    RegisterOn(head, w);
    BridgeOnly(Register(head), Register(PutFixed32(|p|) + p), Raw(w));
    assert |Raw(w)| == 4 by { RawLength(w); }
  }

  lemma RawLength(s: seq<Byte>)
    ensures |Raw(s)| == |s|
  {
  }

  lemma RegisterOn(s: seq<Byte>, t: seq<Byte>)
    ensures Register(s + t) == Crc32c.FeedBits(Register(s), Crc32c.MessageBits(Raw(t)))
  {
    RawAppend(s, t);
    MessageBitsAppend(Raw(s), Raw(t));
    hide Crc32c.MessageBits, Crc32c.FeedBits, Raw;
    Crc32c.FeedBitsAppend(Crc32c.Not(0), Crc32c.MessageBits(Raw(s)), Crc32c.MessageBits(Raw(t)));
  }
}
