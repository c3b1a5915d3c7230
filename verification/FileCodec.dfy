/** The on-disk form of a file's metadata (ZoneFile::EncodeTo and DecodeFrom in
    AquaZFS/fs/io_aquafs.cc) and of the records of the metadata log (AquaZFS/fs/fs_aquafs.cc). */
module FileCodec {
  import opened Coding

  /** A file name is a byte string. */
  type Name = seq<Byte>

  datatype Extent = Extent(start: U64, length: U64)

  /** What a metadata record says about one file. */
  datatype FileMeta = FileMeta(
    id: U64,
    size: U64,
    lifetime: U32,
    extents: seq<Extent>,
    mtime: U64,
    extentStart: U64,
    sparse: bool,
    links: seq<Name>)

  datatype Result<+T> = Ok(value: T) | Corruption

  /** The value of `extentStart` for a file with no active extent. */
  const NO_EXTENT: U64 := 0xffff_ffff_ffff_ffff

  const FILE_ID: U32 := 1
  const FILE_SIZE: U32 := 3
  const WRITE_LIFE_TIME_HINT: U32 := 4
  const EXTENT: U32 := 5
  const MODIFICATION_TIME: U32 := 6
  const ACTIVE_EXTENT_START: U32 := 7
  const IS_SPARSE: U32 := 8
  const LINKED_FILENAME: U32 := 9

  /** The I/O zones of the device: where each starts, and their common size. */
  datatype Geometry = Geometry(ioStarts: seq<nat>, zoneSize: nat)
  {
    /** GetIOZone finds a zone for this offset. */
    predicate HasIoZone(offset: nat) {
      exists i :: 0 <= i < |ioStarts| && ioStarts[i] <= offset < ioStarts[i] + zoneSize
    }
  }

  // ---------------------------------------------------------------------------------------------
  // Encoding
  // ---------------------------------------------------------------------------------------------

  function EncodeExtent(e: Extent): seq<Byte> {
    PutFixed64(e.start) + PutFixed64(e.length)
  }

  function EncodeExtents(es: seq<Extent>): seq<Byte> {
    if es == [] then []
    else PutFixed32(EXTENT) + PutLengthPrefixed(EncodeExtent(es[0])) + EncodeExtents(es[1..])
  }

  function EncodeLinks(links: seq<Name>): seq<Byte> {
    if links == [] then []
    else PutFixed32(LINKED_FILENAME) + PutLengthPrefixed(links[0]) + EncodeLinks(links[1..])
  }

  /** ZoneFile::EncodeTo, from extent number `from` on. */
  function EncodeTo(f: FileMeta, from: nat): seq<Byte>
    requires from <= |f.extents|
  {
    PutFixed32(FILE_ID) + PutFixed64(f.id) +
    PutFixed32(FILE_SIZE) + PutFixed64(f.size) +
    PutFixed32(WRITE_LIFE_TIME_HINT) + PutFixed32(f.lifetime) +
    EncodeExtents(f.extents[from..]) +
    PutFixed32(MODIFICATION_TIME) + PutFixed64(f.mtime) +
    PutFixed32(ACTIVE_EXTENT_START) + PutFixed64(f.extentStart) +
    (if f.sparse then PutFixed32(IS_SPARSE) else []) +
    EncodeLinks(f.links)
  }

  // ---------------------------------------------------------------------------------------------
  // Decoding
  // ---------------------------------------------------------------------------------------------

  /** A freshly constructed ZoneFile object. */
  function NewFile(id: U64): FileMeta {
    FileMeta(id, 0, 0, [], 0, NO_EXTENT, false, [])
  }

  /** ZoneExtent::DecodeFrom accepts exactly sixteen bytes. */
  function DecodeExtent(s: seq<Byte>): Result<Extent> {
    if |s| != 16 then Corruption
    else
      var start := GetFixed64(s).value;
      Ok(Extent(start.value, GetFixed64(start.rest).value.value))
  }

  /** One turn of the decoding loop: the file so far and the input left, after `tag`. */
  function DecodeTag(f: FileMeta, tag: U32, input: seq<Byte>, g: Geometry): (r: Result<Parsed<FileMeta>>)
    ensures r.Ok? ==> |r.value.rest| <= |input|
  {
    if tag == FILE_SIZE then
      match GetFixed64(input) { case None => Corruption case Some(p) => Ok(Parsed(f.(size := p.value), p.rest)) }
    else if tag == WRITE_LIFE_TIME_HINT then
      match GetFixed32(input) { case None => Corruption case Some(p) => Ok(Parsed(f.(lifetime := p.value), p.rest)) }
    else if tag == EXTENT then
      match GetLengthPrefixed(input) {
        case None => Corruption
        case Some(p) =>
          match DecodeExtent(p.value) {
            case Corruption => Corruption
            case Ok(e) =>
              LengthPrefixedShrinks(input);
              if g.HasIoZone(e.start) then Ok(Parsed(f.(extents := f.extents + [e]), p.rest)) else Corruption
          }
      }
    else if tag == MODIFICATION_TIME then
      match GetFixed64(input) { case None => Corruption case Some(p) => Ok(Parsed(f.(mtime := p.value), p.rest)) }
    else if tag == ACTIVE_EXTENT_START then
      match GetFixed64(input) { case None => Corruption case Some(p) => Ok(Parsed(f.(extentStart := p.value), p.rest)) }
    else if tag == IS_SPARSE then
      Ok(Parsed(f.(sparse := true), input))
    else if tag == LINKED_FILENAME then
      match GetLengthPrefixed(input) {
        case None => Corruption
        case Some(p) =>
          LengthPrefixedShrinks(input);
          if |p.value| == 0 then Corruption else Ok(Parsed(f.(links := f.links + [p.value]), p.rest))
      }
    else Corruption
  }

  lemma LengthPrefixedShrinks(input: seq<Byte>)
    ensures match GetLengthPrefixed(input)
            case None => true
            case Some(p) => |p.rest| < |input| && |p.value| < |input|
  {
    VarintShrinks(input, 0, 0);
  }

  lemma {:induction false} VarintShrinks(input: seq<Byte>, shift: nat, acc: nat)
    ensures match DecodeVarint(input, shift, acc)
            case None => true
            case Some(p) => |p.rest| < |input|
    decreases |input|
  {
    if shift <= 28 && input != [] && input[0] >= 0x80 {
      VarintShrinks(input[1..], shift + 7, acc + ShiftLeft(input[0] - 0x80, shift));
    }
  }

  function DecodeTags(f: FileMeta, input: seq<Byte>, g: Geometry): Result<FileMeta>
    decreases |input|
  {
    match GetFixed32(input)
    case None => Ok(f)
    case Some(tag) =>
      match DecodeTag(f, tag.value, tag.rest, g)
      case Corruption => Corruption
      case Ok(p) => DecodeTags(p.value, p.rest, g)
  }

  function DecodeFile(input: seq<Byte>, g: Geometry): Result<FileMeta> {
    match GetFixed32(input)
    case None => Corruption
    case Some(tag) =>
      if tag.value != FILE_ID then Corruption
      else
        match GetFixed64(tag.rest)
        case None => Corruption
        case Some(id) => DecodeTags(NewFile(id.value), id.rest, g)
  }

  /** ZoneFile::DecodeFrom, the loop of the source. */
  method DecodeFrom(input: seq<Byte>, g: Geometry) returns (r: Result<FileMeta>)
    ensures r == DecodeFile(input, g)
  {
    hide DecodeTag;
    var tag := GetFixed32(input);
    if tag.None? || tag.value.value != FILE_ID {
      return Corruption;
    }
    var id := GetFixed64(tag.value.rest);
    if id.None? {
      return Corruption;
    }
    var file, left := NewFile(id.value.value), id.value.rest;
    while true
      invariant DecodeTags(file, left, g) == DecodeFile(input, g)
      decreases |left|
    {
      tag := GetFixed32(left);
      if tag.None? {
        break;
      }
      var step := DecodeTag(file, tag.value.value, tag.value.rest, g);
      if step.Corruption? {
        return Corruption;
      }
      file, left := step.value.value, step.value.rest;
    }
    r := Ok(file);
  }

  // ---------------------------------------------------------------------------------------------
  // The round trip
  // ---------------------------------------------------------------------------------------------

  /** Names are short enough for their 32-bit length prefix. */
  predicate NamesFit(links: seq<Name>) {
    forall i :: 0 <= i < |links| ==> |links[i]| < W32
  }

  predicate NamesNonEmpty(links: seq<Name>) {
    forall i :: 0 <= i < |links| ==> |links[i]| > 0
  }

  predicate ExtentsKnown(es: seq<Extent>, g: Geometry) {
    forall i :: 0 <= i < |es| ==> g.HasIoZone(es[i].start)
  }

  lemma DecodeAfterTag(f: FileMeta, tag: U32, input: seq<Byte>, g: Geometry)
    ensures DecodeTags(f, PutFixed32(tag) + input, g) ==
            match DecodeTag(f, tag, input, g) { case Corruption => Corruption case Ok(p) => DecodeTags(p.value, p.rest, g) }
  {
    GetPutFixed32(tag, input);
  }

  lemma DecodeEncodeExtent(e: Extent)
    ensures DecodeExtent(EncodeExtent(e)) == Ok(e)
  {
    GetPutFixed64(e.start, PutFixed64(e.length));
    GetPutFixed64(e.length, []);
    assert PutFixed64(e.length) + [] == PutFixed64(e.length);
  }

  lemma DecodeExtentTag(f: FileMeta, e: Extent, rest: seq<Byte>, g: Geometry)
    ensures DecodeTags(f, PutFixed32(EXTENT) + (PutLengthPrefixed(EncodeExtent(e)) + rest), g) ==
            if g.HasIoZone(e.start) then DecodeTags(f.(extents := f.extents + [e]), rest, g) else Corruption
  {
    var payload := EncodeExtent(e);
    DecodeAfterTag(f, EXTENT, PutLengthPrefixed(payload) + rest, g);
    GetPutLengthPrefixed(payload, rest);
    DecodeEncodeExtent(e);
    hide DecodeTags, PutFixed32, PutFixed64, PutLengthPrefixed, GetLengthPrefixed, DecodeExtent;
  }

  lemma DecodeLinkTag(f: FileMeta, name: Name, rest: seq<Byte>, g: Geometry)
    requires |name| < W32
    ensures DecodeTags(f, PutFixed32(LINKED_FILENAME) + (PutLengthPrefixed(name) + rest), g) ==
            if |name| > 0 then DecodeTags(f.(links := f.links + [name]), rest, g) else Corruption
  {
    DecodeAfterTag(f, LINKED_FILENAME, PutLengthPrefixed(name) + rest, g);
    GetPutLengthPrefixed(name, rest);
    hide DecodeTags, PutFixed32, PutFixed64, PutLengthPrefixed, GetLengthPrefixed, DecodeExtent;
  }

  lemma {:induction false} DecodeExtents(f: FileMeta, es: seq<Extent>, rest: seq<Byte>, g: Geometry)
    ensures DecodeTags(f, EncodeExtents(es) + rest, g) ==
            if ExtentsKnown(es, g) then DecodeTags(f.(extents := f.extents + es), rest, g) else Corruption
    decreases |es|
  {
    hide DecodeTags, PutFixed32, PutFixed64, PutLengthPrefixed, EncodeExtent;
    if es == [] {
      assert EncodeExtents(es) + rest == rest;
      assert f.extents + es == f.extents;
    } else {
      var after := EncodeExtents(es[1..]) + rest;
      assert EncodeExtents(es) + rest == PutFixed32(EXTENT) + (PutLengthPrefixed(EncodeExtent(es[0])) + after);
      DecodeExtentTag(f, es[0], after, g);
      ExtentsKnownSplit(es, g);
      var f' := f.(extents := f.extents + [es[0]]);
      DecodeExtents(f', es[1..], rest, g);
      assert f'.extents + es[1..] == f.extents + es;
    }
  }

  lemma ExtentsKnownSplit(es: seq<Extent>, g: Geometry)
    requires es != []
    ensures ExtentsKnown(es, g) <==> g.HasIoZone(es[0].start) && ExtentsKnown(es[1..], g)
  {
    if g.HasIoZone(es[0].start) && ExtentsKnown(es[1..], g) {
      forall i | 0 <= i < |es| ensures g.HasIoZone(es[i].start) {
        if i > 0 { assert es[1..][i - 1] == es[i]; }
      }
    }
  }

  lemma NamesSplit(links: seq<Name>)
    requires links != []
    ensures NamesNonEmpty(links) <==> |links[0]| > 0 && NamesNonEmpty(links[1..])
    ensures NamesFit(links) ==> |links[0]| < W32 && NamesFit(links[1..])
  {
    if |links[0]| > 0 && NamesNonEmpty(links[1..]) {
      forall i | 0 <= i < |links| ensures |links[i]| > 0 {
        if i > 0 { assert links[1..][i - 1] == links[i]; }
      }
    }
  }

  lemma {:induction false} DecodeLinks(f: FileMeta, links: seq<Name>, g: Geometry)
    requires NamesFit(links)
    ensures DecodeTags(f, EncodeLinks(links), g) ==
            if NamesNonEmpty(links) then Ok(f.(links := f.links + links)) else Corruption
    decreases |links|
  {
    hide DecodeTag, PutFixed32, PutLengthPrefixed;
    if links == [] {
      assert f.links + links == f.links;
    } else {
      hide DecodeTags;
      var after := EncodeLinks(links[1..]);
      assert EncodeLinks(links) == PutFixed32(LINKED_FILENAME) + (PutLengthPrefixed(links[0]) + after);
      NamesSplit(links);
      DecodeLinkTag(f, links[0], after, g);
      var f' := f.(links := f.links + [links[0]]);
      DecodeLinks(f', links[1..], g);
      assert f'.links + links[1..] == f.links + links;
    }
  }

  lemma DecodeFixed64Tag(f: FileMeta, tag: U32, v: U64, rest: seq<Byte>, g: Geometry)
    requires tag == FILE_SIZE || tag == MODIFICATION_TIME || tag == ACTIVE_EXTENT_START
    ensures DecodeTags(f, PutFixed32(tag) + (PutFixed64(v) + rest), g) ==
            DecodeTags(if tag == FILE_SIZE then f.(size := v)
                       else if tag == MODIFICATION_TIME then f.(mtime := v) else f.(extentStart := v), rest, g)
  {
    DecodeAfterTag(f, tag, PutFixed64(v) + rest, g);
    GetPutFixed64(v, rest);
  }

  lemma DecodeHintTag(f: FileMeta, v: U32, rest: seq<Byte>, g: Geometry)
    ensures DecodeTags(f, PutFixed32(WRITE_LIFE_TIME_HINT) + (PutFixed32(v) + rest), g) ==
            DecodeTags(f.(lifetime := v), rest, g)
  {
    DecodeAfterTag(f, WRITE_LIFE_TIME_HINT, PutFixed32(v) + rest, g);
    GetPutFixed32(v, rest);
  }

  lemma DecodeSparseTag(f: FileMeta, rest: seq<Byte>, g: Geometry)
    ensures DecodeTags(f, PutFixed32(IS_SPARSE) + rest, g) == DecodeTags(f.(sparse := true), rest, g)
  {
    DecodeAfterTag(f, IS_SPARSE, rest, g);
  }

  lemma DecodeTail(f: FileMeta, sparse: bool, links: seq<Name>, g: Geometry)
    requires NamesFit(links) && !f.sparse && f.links == []
    ensures DecodeTags(f, (if sparse then PutFixed32(IS_SPARSE) else []) + EncodeLinks(links), g) ==
            if NamesNonEmpty(links) then Ok(f.(sparse := sparse, links := links)) else Corruption
  {
    DecodeSparseTag(f, EncodeLinks(links), g);
    hide DecodeTags, PutFixed32, EncodeLinks, NamesNonEmpty;
    if sparse {
      DecodeLinks(f.(sparse := true), links, g);
    } else {
      assert [] + EncodeLinks(links) == EncodeLinks(links);
      DecodeLinks(f, links, g);
    }
    assert [] + links == links;
  }

  /** Decoding an encoded file gives back every field and the extents from `from` on, exactly when every
      such extent starts in a known I/O zone and no link name is empty; otherwise it reports corruption. */
  lemma DecodeEncodeFile(f: FileMeta, from: nat, g: Geometry)
    requires from <= |f.extents| && NamesFit(f.links)
    ensures DecodeFile(EncodeTo(f, from), g) ==
            if ExtentsKnown(f.extents[from..], g) && NamesNonEmpty(f.links)
            then Ok(f.(extents := f.extents[from..])) else Corruption
  {
    hide DecodeTags, DecodeTag, PutFixed32, PutFixed64, EncodeExtents, EncodeLinks, GetFixed32, GetFixed64, NamesNonEmpty, ExtentsKnown;
    var es := f.extents[from..];
    var sp := if f.sparse then PutFixed32(IS_SPARSE) else [];
    var tail := sp + EncodeLinks(f.links);
    var t3 := PutFixed32(ACTIVE_EXTENT_START) + (PutFixed64(f.extentStart) + tail);
    var t2 := PutFixed32(MODIFICATION_TIME) + (PutFixed64(f.mtime) + t3);
    var t1 := EncodeExtents(es) + t2;
    var t0 := PutFixed32(WRITE_LIFE_TIME_HINT) + (PutFixed32(f.lifetime) + t1);
    var body := PutFixed32(FILE_SIZE) + (PutFixed64(f.size) + t0);
    assert EncodeTo(f, from) == PutFixed32(FILE_ID) + (PutFixed64(f.id) + body);
    GetPutFixed32(FILE_ID, PutFixed64(f.id) + body);
    GetPutFixed64(f.id, body);
    var f0 := NewFile(f.id);
    DecodeFixed64Tag(f0, FILE_SIZE, f.size, t0, g);
    var f1 := f0.(size := f.size);
    DecodeHintTag(f1, f.lifetime, t1, g);
    var f2 := f1.(lifetime := f.lifetime);
    DecodeExtents(f2, es, t2, g);
    assert [] + es == es;
    var f3 := f2.(extents := es);
    DecodeFixed64Tag(f3, MODIFICATION_TIME, f.mtime, t3, g);
    var f4 := f3.(mtime := f.mtime);
    DecodeFixed64Tag(f4, ACTIVE_EXTENT_START, f.extentStart, tail, g);
    DecodeTail(f4.(extentStart := f.extentStart), f.sparse, f.links, g);
  }

  // ---------------------------------------------------------------------------------------------
  // Records of the metadata log
  // ---------------------------------------------------------------------------------------------

  const COMPLETE_FILES_SNAPSHOT: U32 := 1
  const FILE_UPDATE: U32 := 2
  const FILE_DELETION: U32 := 3
  const END_RECORD: U32 := 4
  const FILE_REPLACE: U32 := 5

  /** A snapshot lists one file per name; an update or replace carries one file. */
  datatype Record =
    | Snapshot(files: seq<FileMeta>)
    | Update(file: FileMeta)
    | Replace(file: FileMeta)
    | Deletion(id: U64, name: Name)
    | End

  function EncodeFileList(files: seq<FileMeta>): seq<Byte> {
    if files == [] then [] else PutLengthPrefixed(EncodeTo(files[0], 0)) + EncodeFileList(files[1..])
  }

  function EncodeRecord(r: Record): seq<Byte> {
    match r
    case Snapshot(files) => PutFixed32(COMPLETE_FILES_SNAPSHOT) + PutLengthPrefixed(EncodeFileList(files))
    case Update(f) => PutFixed32(FILE_UPDATE) + PutLengthPrefixed(EncodeTo(f, 0))
    case Replace(f) => PutFixed32(FILE_REPLACE) + PutLengthPrefixed(EncodeTo(f, 0))
    case Deletion(id, name) => PutFixed32(FILE_DELETION) + PutLengthPrefixed(PutFixed64(id) + PutLengthPrefixed(name))
    case End => PutFixed32(END_RECORD)
  }

  function DecodeFileList(input: seq<Byte>, g: Geometry): Result<seq<FileMeta>>
    decreases |input|
  {
    match GetLengthPrefixed(input)
    case None => Ok([])
    case Some(p) =>
      LengthPrefixedShrinks(input);
      match DecodeFile(p.value, g)
      case Corruption => Corruption
      case Ok(f) =>
        match DecodeFileList(p.rest, g)
        case Corruption => Corruption
        case Ok(fs) => Ok([f] + fs)
  }

  /** What RecoverFrom reads from one log record. A record too short for a tag ends the log like an
      end record. */
  function DecodeRecord(input: seq<Byte>, g: Geometry): Result<Record> {
    match GetFixed32(input)
    case None => Ok(End)
    case Some(tag) =>
      if tag.value == END_RECORD then Ok(End)
      else
        match GetLengthPrefixed(tag.rest)
        case None => Corruption
        case Some(data) =>
          if tag.value == COMPLETE_FILES_SNAPSHOT then
            match DecodeFileList(data.value, g) { case Corruption => Corruption case Ok(fs) => Ok(Snapshot(fs)) }
          else if tag.value == FILE_UPDATE then
            match DecodeFile(data.value, g) { case Corruption => Corruption case Ok(f) => Ok(Update(f)) }
          else if tag.value == FILE_REPLACE then
            match DecodeFile(data.value, g) { case Corruption => Corruption case Ok(f) => Ok(Replace(f)) }
          else if tag.value == FILE_DELETION then
            match GetFixed64(data.value) {
              case None => Corruption
              case Some(id) =>
                match GetLengthPrefixed(id.rest) {
                  case None => Corruption
                  case Some(name) => Ok(Deletion(id.value, name.value))
                }
            }
          else Corruption
  }

  /** What every file of the table satisfies: extents on the device, names that can be written. */
  predicate FileStorable(f: FileMeta, g: Geometry) {
    ExtentsKnown(f.extents, g) && NamesFit(f.links) && NamesNonEmpty(f.links) && |EncodeTo(f, 0)| < W32
  }

  predicate FilesStorable(fs: seq<FileMeta>, g: Geometry) {
    forall i :: 0 <= i < |fs| ==> FileStorable(fs[i], g)
  }

  predicate RecordStorable(r: Record, g: Geometry) {
    match r
    case Snapshot(files) => FilesStorable(files, g) && |EncodeFileList(files)| < W32
    case Update(f) => FileStorable(f, g)
    case Replace(f) => FileStorable(f, g)
    case Deletion(id, name) => |name| < W32 && |PutFixed64(id) + PutLengthPrefixed(name)| < W32
    case End => true
  }

  lemma DecodeStorableFile(f: FileMeta, g: Geometry)
    requires FileStorable(f, g)
    ensures DecodeFile(EncodeTo(f, 0), g) == Ok(f)
  {
    DecodeEncodeFile(f, 0, g);
    assert f.extents[0..] == f.extents;
  }

  lemma NoLengthPrefixInNothing()
    ensures GetLengthPrefixed([]) == None
  {
  }

  lemma {:induction false} DecodeEncodeFileList(files: seq<FileMeta>, g: Geometry)
    requires FilesStorable(files, g)
    ensures DecodeFileList(EncodeFileList(files), g) == Ok(files)
    decreases |files|
  {
    hide DecodeFile, EncodeTo, PutLengthPrefixed, GetLengthPrefixed, FileStorable;
    if files == [] {
      NoLengthPrefixInNothing();
    } else {
      var payload := EncodeTo(files[0], 0);
      var after := EncodeFileList(files[1..]);
      assert FileStorable(files[0], g);
      StorableSize(files[0], g);
      GetPutLengthPrefixed(payload, after);
      DecodeStorableFile(files[0], g);
      DecodeEncodeFileList(files[1..], g);
      assert [files[0]] + files[1..] == files;
    }
  }

  lemma StorableSize(f: FileMeta, g: Geometry)
    requires FileStorable(f, g)
    ensures |EncodeTo(f, 0)| < W32
  {
  }

  /** Every record that the file system writes is read back as it was. */
  lemma DecodeEncodeRecord(r: Record, g: Geometry)
    requires RecordStorable(r, g)
    ensures DecodeRecord(EncodeRecord(r), g) == Ok(r)
  {
    hide DecodeFile, EncodeTo, DecodeFileList, EncodeFileList, FileStorable;
    hide PutFixed32, PutFixed64, PutLengthPrefixed, GetFixed32, GetFixed64, GetLengthPrefixed;
    match r
    case Snapshot(files) =>
      RecordPayload(COMPLETE_FILES_SNAPSHOT, EncodeFileList(files));
      DecodeEncodeFileList(files, g);
    case Update(f) =>
      StorableSize(f, g);
      RecordPayload(FILE_UPDATE, EncodeTo(f, 0));
      DecodeStorableFile(f, g);
    case Replace(f) =>
      StorableSize(f, g);
      RecordPayload(FILE_REPLACE, EncodeTo(f, 0));
      DecodeStorableFile(f, g);
    case Deletion(id, name) =>
      var payload := PutFixed64(id) + PutLengthPrefixed(name);
      RecordPayload(FILE_DELETION, payload);
      GetPutFixed64(id, PutLengthPrefixed(name));
      GetPutLengthPrefixed(name, []);
      assert PutLengthPrefixed(name) + [] == PutLengthPrefixed(name);
    case End =>
      GetPutFixed32(END_RECORD, []);
      assert PutFixed32(END_RECORD) + [] == PutFixed32(END_RECORD);
  }

  lemma RecordPayload(tag: U32, payload: seq<Byte>)
    requires |payload| < W32
    ensures GetFixed32(PutFixed32(tag) + PutLengthPrefixed(payload)) == Some(Parsed(tag, PutLengthPrefixed(payload)))
    ensures GetLengthPrefixed(PutLengthPrefixed(payload)) == Some(Parsed(payload, []))
  {
    GetPutFixed32(tag, PutLengthPrefixed(payload));
    GetPutLengthPrefixed(payload, []);
    assert PutLengthPrefixed(payload) + [] == PutLengthPrefixed(payload);
  }
}
