/** The metadata log in its zone: AquaMetaLog::AddRecord, Read and ReadRecord (AquaZFS/fs/fs_aquafs.cc), with
    the checksum mask of AquaZFS/util/crc32c.h. The meta zones are a Device of their own here, whose token
    counters nobody uses. */
module MetaLog {
  import opened Coding
  import opened Zoned
  import opened Extents
  import opened ZonedDevice
  import Crc32c

  // ---------------------------------------------------------------- the checksum of a record

  const MASK_DELTA: nat := 0xa282ead8

  /** Right by 15 bits around, then the constant; 32 bits wide. The two shifted parts share no bits. */
  function Mask(crc: U32): U32 {
    ((crc / 0x8000 + crc % 0x8000 * 0x2_0000) + MASK_DELTA) % W32
  }

  function Unmask(masked: U32): U32 {
    var rot := (masked + (W32 - MASK_DELTA)) % W32;
    rot / 0x2_0000 + rot % 0x2_0000 * 0x8000
  }

  lemma UnmaskMask(crc: U32)
    ensures Unmask(Mask(crc)) == crc
  {
    var hi, lo := crc / 0x8000, crc % 0x8000;
    var rot := hi + lo * 0x2_0000;
    assert hi < 0x2_0000;
    assert rot < W32;
    WrapBack(rot, MASK_DELTA);
    assert rot / 0x2_0000 == lo && rot % 0x2_0000 == hi;
  }

  lemma WrapBack(x: U32, d: U32)
    ensures ((x + d) % W32 + (W32 - d)) % W32 == x
  {
    if x + d < W32 {
      assert (x + d) % W32 == x + d;
    } else {
      assert (x + d) % W32 == x + d - W32;
    }
  }

  function Raw(s: seq<Byte>): seq<Crc32c.Byte> { seq(|s|, i requires 0 <= i < |s| => s[i] as Crc32c.Byte) }

  function CrcOf(size: U32, r: seq<Byte>): U32 {
    Crc32c.ReferenceCrc(Raw(PutFixed32(size)) + Raw(r)) as nat
  }

  /** What the header holds: the masked CRC-32C of the length field and the record. */
  function Checksum(r: seq<Byte>): U32
    requires |r| < W32
  {
    Mask(CrcOf(|r|, r))
  }

  /** AddRecord and ReadRecord extend the checksum in two pieces. */
  method ComputeCrc(size: U32, record: seq<Byte>) returns (crc: U32)
    ensures crc == CrcOf(size, record)
  {
    var c := Crc32c.ExtendImpl(0, Raw(PutFixed32(size)), 0);
    c := Crc32c.ExtendImpl(c, Raw(record), 0);
    Crc32c.ExtendAppend(0, Raw(PutFixed32(size)), Raw(record));
    crc := c as nat;
  }

  // ---------------------------------------------------------------- the frame of a record

  const HEADER_SIZE: nat := 8

  function Frame(r: seq<Byte>, bs: nat): (s: seq<Byte>)
    requires bs > 0 && |r| < W32
    ensures |s| == Padded(HEADER_SIZE + |r|, bs)
  {
    PutFixed32(Checksum(r)) + PutFixed32(|r|) + r + Zeros(Pad(HEADER_SIZE + |r|, bs))
  }

  /** The count of a device read is an int: a longer record is written and cannot be read. */
  predicate Readable(r: seq<Byte>) { 0 < |r| < INT }

  datatype Parse = Eof | Found(record: seq<Byte>, next: nat) | Bad | Beyond

  function CrcField(d: seq<Byte>): U32
    requires |d| >= HEADER_SIZE
  {
    GetFixed32(d).value.value
  }

  function SizeField(d: seq<Byte>): U32
    requires |d| >= HEADER_SIZE
  {
    GetFixed32(d[4..]).value.value
  }

  /** ReadRecord at a place in a zone; Beyond if it would read past what was written. */
  function ParseAt(z: Zone, pos: nat, bs: nat): Parse
    requires bs > 0
  {
    if pos >= z.wp then Eof
    else if pos < z.start || pos - z.start + HEADER_SIZE > |z.data| then Beyond
    else
      var d := z.data[pos - z.start..];
      var crc, size := CrcField(d), SizeField(d);
      if size == W32 - 1 && crc == W32 - 1 then Bad
      else if HEADER_SIZE + size > |d| then Beyond
      else if size >= INT then Bad
      else
        var r := d[HEADER_SIZE..HEADER_SIZE + size];
        if CrcOf(size, r) != Unmask(crc) then Bad
        else Found(r, pos + Padded(HEADER_SIZE + size, bs))
  }

  /** A frame read back gives its record and the place of the next, if the record is readable, and is no valid
      record if not. */
  lemma ParseFrame(z: Zone, pos: nat, r: seq<Byte>, bs: nat)
    requires bs > 0 && 0 < |r| < W32 && z.start <= pos < z.wp
    requires pos - z.start + |Frame(r, bs)| <= |z.data|
    requires z.data[pos - z.start..pos - z.start + |Frame(r, bs)|] == Frame(r, bs)
    ensures ParseAt(z, pos, bs) == if Readable(r) then Found(r, pos + |Frame(r, bs)|) else Bad
  {
    hide CrcField, SizeField, Checksum, Padded, Unmask, CrcOf, Frame;
    var d := z.data[pos - z.start..];
    var n := |Frame(r, bs)|;
    assert d[..n] == Frame(r, bs);
    PaddedMore(HEADER_SIZE + |r|, bs);
    HeaderOfFrame(d, r, bs);
    ChecksumIs(r);
  }

  lemma ChecksumIs(r: seq<Byte>)
    requires |r| < W32
    ensures Unmask(Checksum(r)) == CrcOf(|r|, r)
  {
    hide Mask, Unmask, CrcOf;
    UnmaskMask(CrcOf(|r|, r));
  }

  lemma HeaderOfFrame(d: seq<Byte>, r: seq<Byte>, bs: nat)
    requires bs > 0 && |r| < W32 && |Frame(r, bs)| <= |d| && d[..|Frame(r, bs)|] == Frame(r, bs)
    ensures HEADER_SIZE + |r| <= |d|
    ensures CrcField(d) == Checksum(r) && SizeField(d) == |r|
    ensures d[HEADER_SIZE..HEADER_SIZE + |r|] == r
  {
    hide PutFixed32, GetFixed32, Checksum, Pad, Zeros;
    var n, crc, size, zeros := |Frame(r, bs)|, PutFixed32(Checksum(r)), PutFixed32(|r|), Zeros(Pad(HEADER_SIZE + |r|, bs));
    var rest := d[n..];
    assert d == Frame(r, bs) + rest;
    assert Frame(r, bs) == crc + size + r + zeros;
    assert d == crc + (size + r + zeros + rest);
    GetPutFixed32(Checksum(r), size + r + zeros + rest);
    assert d[4..] == size + (r + zeros + rest);
    GetPutFixed32(|r|, r + zeros + rest);
    assert d[HEADER_SIZE..] == r + zeros + rest;
  }

  // ---------------------------------------------------------------- a whole log

  predicate Sized(rs: seq<seq<Byte>>) {
    forall i :: 0 <= i < |rs| ==> |rs[i]| < W32
  }

  predicate AllReadable(rs: seq<seq<Byte>>) {
    forall i :: 0 <= i < |rs| ==> Readable(rs[i])
  }

  function Frames(rs: seq<seq<Byte>>, bs: nat): seq<Byte>
    requires bs > 0 && Sized(rs)
  {
    if rs == [] then [] else Frame(rs[0], bs) + Frames(rs[1..], bs)
  }

  /** AddRecord at the end of a log. */
  lemma {:induction false} FramesSnoc(rs: seq<seq<Byte>>, r: seq<Byte>, bs: nat)
    requires bs > 0 && |r| < W32 && Sized(rs)
    ensures Frames(rs + [r], bs) == Frames(rs, bs) + Frame(r, bs)
  {
    hide Frame;
    if rs == [] {
      assert ([] + [r])[1..] == [];
    } else {
      FramesSnoc(rs[1..], r, bs);
      assert (rs + [r])[1..] == rs[1..] + [r];
      assert Frame(rs[0], bs) + (Frames(rs[1..], bs) + Frame(r, bs)) == Frame(rs[0], bs) + Frames(rs[1..], bs) + Frame(r, bs);
    }
  }

  datatype Contents = Contents(records: seq<seq<Byte>>) | Broken

  /** ReadRecord again and again, until it returns the empty record of the end. */
  function ReadAll(z: Zone, pos: nat, bs: nat): Contents
    requires bs > 0
    decreases if pos < z.wp then z.wp - pos else 0
  {
    match ParseAt(z, pos, bs)
    case Eof => Contents([])
    case Bad => Broken
    case Beyond => Broken
    case Found(r, next) =>
      if r == [] then Contents([])
      else
        PaddedMore(HEADER_SIZE + |r|, bs);
        var rest := ReadAll(z, next, bs);
        if rest.Broken? then Broken else Contents([r] + rest.records)
  }

  /** One record off the front. */
  lemma ReadAllStep(z: Zone, pos: nat, bs: nat)
    requires bs > 0 && ReadAll(z, pos, bs).Contents?
    ensures match ParseAt(z, pos, bs)
      case Eof => ReadAll(z, pos, bs) == Contents([])
      case Found(r, next) =>
        if r == [] then ReadAll(z, pos, bs) == Contents([])
        else ReadAll(z, next, bs).Contents? && ReadAll(z, pos, bs) == Contents([r] + ReadAll(z, next, bs).records)
      case Bad => false
      case Beyond => false
  {
    hide ParseAt;
  }

  /** A list of records in a reset zone is read back in order, and then the end, if and only if all of them
      are readable. */
  lemma {:induction false} ReadBack(z: Zone, pos: nat, rs: seq<seq<Byte>>, bs: nat)
    requires bs > 0 && Sized(rs) && forall i :: 0 <= i < |rs| ==> rs[i] != []
    requires z.wp == z.start + |z.data| && z.start <= pos <= z.wp
    requires z.data[pos - z.start..] == Frames(rs, bs)
    ensures ReadAll(z, pos, bs) == if AllReadable(rs) then Contents(rs) else Broken
    decreases |rs|
  {
    hide Frame, ParseAt, Readable, AllReadable;
    if rs == [] {
      NoneReadable();
      AtEnd(z, pos, bs);
    } else {
      var r, n := rs[0], |Frame(rs[0], bs)|;
      ReadableFrom(rs);
      PaddedMore(HEADER_SIZE + |r|, bs);
      assert z.data[pos - z.start..][..n] == z.data[pos - z.start..pos - z.start + n];
      ParseFrame(z, pos, r, bs);
      assert z.data[pos + n - z.start..] == z.data[pos - z.start..][n..];
      ReadBack(z, pos + n, rs[1..], bs);
      assert rs == [r] + rs[1..];
    }
  }

  lemma NoneReadable()
    ensures AllReadable([])
  {
  }

  lemma ReadableFrom(rs: seq<seq<Byte>>)
    requires rs != []
    ensures AllReadable(rs) <==> Readable(rs[0]) && AllReadable(rs[1..])
  {
    assert forall i :: 1 <= i < |rs| ==> rs[i] == rs[1..][i - 1];
  }

  lemma AtEnd(z: Zone, pos: nat, bs: nat)
    requires bs > 0 && pos >= z.wp
    ensures ParseAt(z, pos, bs) == Eof
  {
  }

  // ---------------------------------------------------------------- the log as an object

  datatype Status = Ok | NoSpace | IOError

  lemma DataWithin(zs: seq<Zone>, i: nat, bs: nat, zoneSize: nat)
    requires bs > 0 && ZonesOk(zs, bs, zoneSize) && i < |zs|
    ensures |zs[i].data| <= zs[i].maxCapacity && zs[i].start + |zs[i].data| <= zs[i].wp
  {
    assert ZoneOk(zs[i], bs, zoneSize);
  }

  /** A read of what was written gives it. */
  lemma WrittenRead(zs: seq<Zone>, i: nat, pos: nat, s: seq<Byte>, bs: nat, zoneSize: nat)
    requires bs > 0 && ZonesOk(zs, bs, zoneSize) && i < |zs| && zs[i].start <= pos && Reads(zs, pos, s)
    ensures pos - zs[i].start + |s| <= |zs[i].data| ==> s == zs[i].data[pos - zs[i].start..pos - zs[i].start + |s|]
  {
    hide ZonesOk, ByteAt;
    if pos - zs[i].start + |s| <= |zs[i].data| {
      forall k | 0 <= k < |s| ensures s[k] == zs[i].data[pos - zs[i].start + k] {
        ByteWritten(zs, i, pos + k, 0, bs, zoneSize);
        assert ByteAt(zs, pos + k, 0) in {None, Some(s[k])};
      }
    }
  }

  lemma FieldsRead(zs: seq<Zone>, i: nat, pos: nat, h: seq<Byte>, bs: nat, zoneSize: nat)
    requires bs > 0 && ZonesOk(zs, bs, zoneSize) && i < |zs| && zs[i].start <= pos && Reads(zs, pos, h)
    requires |h| == HEADER_SIZE
    ensures pos - zs[i].start + HEADER_SIZE <= |zs[i].data| ==>
      var d := zs[i].data[pos - zs[i].start..];
      CrcField(d) == GetFixed32(h).value.value && SizeField(d) == GetFixed32(h[4..]).value.value
  {
    hide Reads, ZonesOk;
    if pos - zs[i].start + HEADER_SIZE <= |zs[i].data| {
      WrittenRead(zs, i, pos, h, bs, zoneSize);
      var d := zs[i].data[pos - zs[i].start..];
      assert d[..4] == h[..4];
      assert d[4..][..4] == h[4..][..4];
    }
  }

  /** The next record starts on a block. */
  lemma NextPlace(pos: nat, n: nat, bs: nat)
    requires bs > 0 && Aligned(pos, bs)
    ensures pos + n + Pad(pos + n, bs) == pos + Padded(n, bs) && Aligned(pos + Padded(n, bs), bs)
  {
    hide Pad, Aligned;
    PaddedIs(n, bs);
    PadAligns(n, bs);
    AlignedSum(pos, Padded(n, bs), bs);
    PadAligns(pos + n, bs);
    PadBelow(pos + n, pos + Padded(n, bs), bs);
    AlignedSum(pos + n + Pad(pos + n, bs), pos, bs);
    PadBelow(n, n + Pad(pos + n, bs), bs);
  }

  class AquaMetaLog {
    const dev: Device
    const zone: nat
    var readPos: nat

    /** The caller hands over a zone it has acquired. */
    constructor (dev: Device, zone: nat)
      requires dev.Valid() && zone < |dev.zones| && dev.zones[zone].busy
      ensures Valid() && this.dev == dev && this.zone == zone && readPos == dev.zones[zone].start
    {
      this.dev, this.zone := dev, zone;
      readPos := dev.zones[zone].start;
    }

    ghost predicate Valid()
      reads this, dev
    {
      dev.Valid() && zone < |dev.zones| && dev.zones[zone].busy && dev.zones[zone].start <= readPos
    }

    /** A record goes out in one frame, or not at all if the zone has no room for it. Lengths are 32 bits. */
    method AddRecord(record: seq<Byte>) returns (st: Status)
      requires Valid()
      modifies dev`zones
      ensures Valid() && dev.Slack() == old(dev.Slack())
      ensures var frame := Frame(record[..|record| % W32], dev.bs);
        && st == (if |frame| <= old(dev.zones)[zone].capacity then Ok else NoSpace)
        && dev.zones == if st == Ok then old(dev.zones)[zone := Appended(old(dev.zones)[zone], frame)] else old(dev.zones)
    {
      hide ZonesOk, ZoneOk, ActiveZones, PutFixed32, Mask, Zeros;
      var recordSz := |record| % W32;
      var data := record[..recordSz];
      var physSz := Padded(HEADER_SIZE + recordSz, dev.bs);
      PadAligns(HEADER_SIZE + recordSz, dev.bs);
      var crc := ComputeCrc(recordSz, data);
      var frame := PutFixed32(Mask(crc)) + PutFixed32(recordSz) + data + Zeros(Pad(HEADER_SIZE + recordSz, dev.bs));
      assert frame == Frame(data, dev.bs);
      var buffer := new Byte[physSz](i requires 0 <= i < physSz => frame[i]);
      assert buffer[0..physSz] == frame;
      var ok := dev.Append(zone, buffer, 0, physSz);
      st := if ok then Ok else NoSpace;
    }

    /** Read into a buffer from the read position on; nothing at the write pointer. A read that gets no more
        bytes ends here as an error. */
    method Read(buffer: array<Byte>) returns (st: Status, eof: bool)
      requires Valid() && buffer.Length < W32
      modifies this`readPos, buffer, dev`faults
      ensures Valid() && dev.faults >= old(dev.faults) && st in {Ok, IOError}
      ensures eof <==> old(readPos) >= dev.zones[zone].wp
      ensures eof ==> st == Ok && readPos == old(readPos) && dev.faults == old(dev.faults)
      ensures st == Ok && !eof ==> readPos == old(readPos) + buffer.Length && Reads(dev.zones, old(readPos), buffer[..])
      ensures !eof && dev.faults == old(dev.faults) ==>
        (st == Ok <==> buffer.Length < INT && old(readPos) + buffer.Length <= dev.zones[zone].start + dev.zones[zone].maxCapacity)
    {
      hide Reads, ZonesOk, ActiveZones, ToInt;
      st, eof := Ok, false;
      if readPos >= dev.zones[zone].wp { return Ok, true; }
      var toRead := buffer.Length;
      if readPos + toRead > dev.zones[zone].start + dev.zones[zone].maxCapacity { return IOError, false; }
      var read := 0;
      ReadsNone(dev.zones, readPos);
      assert buffer[..0] == [];
      while read < toRead
        invariant 0 <= read <= toRead == buffer.Length && readPos == old(readPos) + read
        invariant dev.faults >= old(dev.faults)
        invariant dev.faults == old(dev.faults) ==> read == 0 || (read == toRead && toRead < INT)
        invariant Reads(dev.zones, old(readPos), buffer[..read])
      {
        ghost var got := buffer[..read];
        IntOf(toRead - read);
        var ret := dev.Read(buffer, read, readPos, toRead - read);
        if ret <= 0 { return IOError, false; }
        assert buffer[..read] == got;
        SplitArray(buffer, 0, read, read + ret);
        ReadsTwice(dev.zones, old(readPos), got, buffer[read..read + ret]);
        read := read + ret;
        readPos := readPos + ret;
      }
      assert buffer[..read] == buffer[..];
    }

    /** ReadRecord: unless a read fails it carries out ParseAt. The empty record stands for the end. */
    method ReadRecord() returns (st: Status, record: seq<Byte>)
      requires Valid() && Aligned(readPos, dev.bs)
      modifies this`readPos, dev`faults
      ensures Valid() && dev.faults >= old(dev.faults) && st in {Ok, IOError}
      ensures st == Ok ==> Aligned(readPos, dev.bs) && (record != [] ==> old(readPos) < dev.zones[zone].wp && old(readPos) < readPos)
      ensures dev.faults == old(dev.faults) ==>
        match ParseAt(dev.zones[zone], old(readPos), dev.bs)
        case Eof => st == Ok && record == [] && readPos == old(readPos)
        case Found(r, next) => st == Ok && record == r && readPos == next && Aligned(readPos, dev.bs)
        case Bad => st == IOError
        case Beyond => true
    {
      hide ZonesOk, ActiveZones, Reads, CrcField, SizeField, CrcOf, Unmask, Padded, GetFixed32, Aligned;
      ghost var z, pos := dev.zones[zone], readPos;
      record := [];
      var header := new Byte[HEADER_SIZE];
      var eof;
      st, eof := Read(header);
      DataWithin(dev.zones, zone, dev.bs, dev.zoneSize);
      if st != Ok || eof { return; }
      var crc := GetFixed32(header[..]).value.value;
      var size := GetFixed32(header[4..]).value.value;
      FieldsRead(dev.zones, zone, pos, header[..], dev.bs, dev.zoneSize);
      assert header[..][4..] == header[4..];
      if size == W32 - 1 && crc == W32 - 1 { return IOError, []; }
      st, record := ReadBody(pos, crc, size);
    }

    /** The rest of ReadRecord, behind the header. */
    method ReadBody(ghost pos: nat, crc: U32, size: U32) returns (st: Status, record: seq<Byte>)
      requires Valid() && Aligned(pos, dev.bs) && readPos == pos + HEADER_SIZE
      requires dev.zones[zone].start <= pos < dev.zones[zone].wp
      requires pos - dev.zones[zone].start + HEADER_SIZE <= |dev.zones[zone].data| ==>
        var d := dev.zones[zone].data[pos - dev.zones[zone].start..]; CrcField(d) == crc && SizeField(d) == size
      requires !(size == W32 - 1 && crc == W32 - 1)
      modifies this`readPos, dev`faults
      ensures Valid() && dev.faults >= old(dev.faults) && st in {Ok, IOError}
      ensures st == Ok ==> Aligned(readPos, dev.bs) && pos < readPos
      ensures dev.faults == old(dev.faults) ==>
        match ParseAt(dev.zones[zone], pos, dev.bs)
        case Eof => false
        case Found(r, next) => st == Ok && record == r && readPos == next && Aligned(readPos, dev.bs)
        case Bad => st == IOError
        case Beyond => true
    {
      hide ZonesOk, ActiveZones, Reads, CrcField, SizeField, CrcOf, Unmask, Padded, Aligned, ZoneOk, ParseAt, Pad;
      ghost var z := dev.zones[zone];
      ParseBody(z, pos, crc, size, dev.bs);
      DataWithin(dev.zones, zone, dev.bs, dev.zoneSize);
      NextPlace(pos, HEADER_SIZE + size, dev.bs);
      var body := new Byte[size];
      var eof;
      st, eof := Read(body);
      if st != Ok { return st, []; }
      record := if eof then [] else body[..];
      if !eof { WrittenRead(dev.zones, zone, pos + HEADER_SIZE, body[..], dev.bs, dev.zoneSize); }
      ghost var at := pos - z.start + HEADER_SIZE;
      assert at + size <= |z.data| ==> record == z.data[at..at + size];
      var actual := ComputeCrc(size, record);
      if actual != Unmask(crc) { return IOError, []; }
      PadAligns(readPos, dev.bs);
      readPos := readPos + Pad(readPos, dev.bs);
    }
  }

  /** ParseAt, once the header is known. */
  lemma ParseBody(z: Zone, pos: nat, crc: U32, size: U32, bs: nat)
    requires bs > 0 && z.start <= pos < z.wp && !(size == W32 - 1 && crc == W32 - 1)
    requires pos - z.start + HEADER_SIZE <= |z.data| ==>
      var d := z.data[pos - z.start..]; CrcField(d) == crc && SizeField(d) == size
    ensures var at := pos - z.start + HEADER_SIZE;
      ParseAt(z, pos, bs) ==
        if at + size > |z.data| then Beyond
        else if size >= INT then Bad
        else if CrcOf(size, z.data[at..at + size]) != Unmask(crc) then Bad
        else Found(z.data[at..at + size], pos + Padded(HEADER_SIZE + size, bs))
  {
    hide CrcField, SizeField, CrcOf, Unmask, Padded;
    Within(z.data, pos - z.start, HEADER_SIZE, size);
  }

  lemma Within(s: seq<Byte>, i: nat, h: nat, n: nat)
    ensures i + h + n <= |s| ==> s[i..][h..h + n] == s[i + h..i + h + n]
  {
  }
}
