/** ZoneFile and ZonedWritableFile (AquaZFS/fs/io_aquafs.h and io_aquafs.cc), field by field. A ghost list
    of images records what the device and the metadata log hold after every single device write and
    every persisted record, so that what is said of it is said of a crash at any of those points. */
module ZoneFiles {
  import opened Coding
  import opened Zoned
  import opened Extents
  import opened ZonedDevice
  import opened FileSteps
  import opened Images
  import opened Recovery

  datatype Status = Ok | NoSpace | Waiting | IOError

  function GridOf(d: Device): Grid { Grid(d.bs, d.zoneSize) }

  lemma FrameIs(s: seq<Byte>, sparse: bool, p: seq<Byte>, bs: nat)
    requires bs > 0 && |p| < W64 && |s| == HeaderSize(sparse) + |p| + Pad(HeaderSize(sparse) + |p|, bs)
    requires sparse ==> s[..SPARSE_HEADER_SIZE] == PutFixed64(|p|)
    requires s[HeaderSize(sparse)..HeaderSize(sparse) + |p|] == p
    requires s[HeaderSize(sparse) + |p|..] == Zeros(|s| - HeaderSize(sparse) - |p|)
    ensures s == Frame(sparse, p, bs)
  {
    hide PutFixed64, Pad, Zeros;
    var h := HeaderSize(sparse);
    assert s == s[..h] + s[h..h + |p|] + s[h + |p|..];
  }

  /** memset and memcpy. */
  method Overwrite(buffer: array<Byte>, at: nat, s: seq<Byte>)
    requires at + |s| <= buffer.Length
    modifies buffer
    ensures buffer[..] == old(buffer[..])[..at] + s + old(buffer[..])[at + |s|..]
  {
    forall k | 0 <= k < |s| { buffer[at + k] := s[k]; }
  }

  /** Padding behind, header in front. */
  lemma PreparedIs(b0: seq<Byte>, b1: seq<Byte>, b2: seq<Byte>, sparse: bool, p: seq<Byte>, bs: nat)
    requires bs > 0 && |p| < W64
    requires var h, w := HeaderSize(sparse), HeaderSize(sparse) + |p|; var z := Zeros(Pad(w, bs));
      && w + |z| <= |b0| && b0[h..w] == p && b1 == b0[..w] + z + b0[w + |z|..]
      && b2 == if sparse then b1[..0] + PutFixed64(|p|) + b1[SPARSE_HEADER_SIZE..] else b1
    ensures var n := HeaderSize(sparse) + |p| + Pad(HeaderSize(sparse) + |p|, bs);
      n <= |b2| == |b0| && b2[..n] == Frame(sparse, p, bs) && b2[n..] == b0[n..]
  {
    hide PutFixed64, Pad, Zeros, Frame;
    var h, w := HeaderSize(sparse), HeaderSize(sparse) + |p|;
    var n := w + Pad(w, bs);
    assert b1[h..w] == p && b1[w..n] == Zeros(Pad(w, bs)) && b1[n..] == b0[n..];
    assert b2[h..] == b1[h..];
    assert b2[h..w] == b2[h..][..|p|] && b1[h..w] == b1[h..][..|p|];
    assert b2[w..n] == b2[h..][|p|..n - h] && b1[w..n] == b1[h..][|p|..n - h];
    FrameIs(b2[..n], sparse, p, bs);
  }

  /** memmove. */
  method MoveDown(buffer: array<Byte>, to: nat, from: nat, n: nat)
    requires to <= from && from + n <= buffer.Length
    modifies buffer
    ensures buffer[to..to + n] == old(buffer[from..from + n])
  {
    forall k | 0 <= k < n { buffer[to + k] := buffer[from + k]; }
  }

  /** A zone that is not full has room for a header and some data. */
  lemma RoomForHeader(capacity: nat, g: Grid)
    requires GridOk(g) && Aligned(capacity, g.bs) && capacity > 0
    ensures capacity > SPARSE_HEADER_SIZE
  {
    if capacity < g.bs { ModUnique(capacity, g.bs, 0, capacity); }
  }

  /** What is left in the buffer is behind what was written, which was padded only if nothing is left. */
  lemma AfterRound(b0: seq<Byte>, b1: seq<Byte>, h: nat, n: nat, left: nat, end: nat, rest: seq<Byte>)
    requires |b0| == |b1| && n <= left == |rest| && h + left <= |b0| && end <= |b0| && b0[h..h + left] == rest
    requires b1[end..] == b0[end..] && (n < left ==> end == h + n)
    ensures b1[h + n..h + left] == rest[n..]
  {
    assert rest[n..] == b0[h + n..h + left];
    if n < left {
      assert b1[h + n..h + left] == b1[end..][..left - n] && b0[h + n..h + left] == b0[end..][..left - n];
    }
  }

  lemma Piece(s: seq<Byte>, n: nat)
    requires n <= |s|
    ensures |s[..n]| == n && |s[n..]| == |s| - n
  {
  }

  /** How much goes into one write: all that is left, or what the zone takes, and then without padding. */
  lemma RoundSize(h: nat, left: nat, capacity: nat, g: Grid)
    requires GridOk(g) && Aligned(capacity, g.bs) && capacity > 0 && h <= SPARSE_HEADER_SIZE && left > 0
    ensures var wrSize := Least(h + left, capacity);
      && h < wrSize && wrSize <= Padded(wrSize, g.bs) <= capacity && Padded(wrSize, g.bs) <= Padded(h + left, g.bs)
      && h + left <= Padded(h + left, g.bs)
      && (wrSize < h + left ==> Padded(wrSize, g.bs) == capacity == wrSize)
  {
    RoomForHeader(capacity, g);
    var wrSize := Least(h + left, capacity);
    PadBelow(wrSize, capacity, g.bs);
    RoundFits(h + left, wrSize, g.bs);
  }

  /** Less data takes no more room. */
  lemma RoundFits(n: nat, m: nat, bs: nat)
    requires bs > 0 && m <= n
    ensures Padded(m, bs) <= Padded(n, bs)
  {
    PadAligns(n, bs);
    PadBelow(m, Padded(n, bs), bs);
  }

  /** What a read inside an extent has to give. */
  lemma PieceRead(zs: seq<Zone>, es: seq<Extent>, i: nat, at: nat, s: seq<Byte>, n: nat, bs: nat, zoneSize: nat)
    requires bs > 0 && ZonesOk(zs, bs, zoneSize) && ExtentsOk(zs, es) && i < |es| && n <= |s| && Reads(zs, at, s)
    requires es[i].start <= at && at + n <= es[i].start + es[i].length
    ensures var pos := TotalLength(es[..i]) + (at - es[i].start);
      pos + n <= |Content(zs, es)| && Content(zs, es)[pos..pos + n] == s[..n]
  {
    hide TotalLength, Content, ZonesOk, ByteAt;
    var e, pos := es[i], TotalLength(es[..i]) + (at - es[i].start);
    var z := zs[e.zone];
    assert ExtentOk(zs, e);
    ContentAt(zs, es, i);
    var c := Content(zs, es);
    var piece := c[TotalLength(es[..i])..TotalLength(es[..i]) + e.length];
    assert piece == ExtentBytes(zs, e);
    forall k | 0 <= k < n ensures c[pos + k] == s[k] {
      ByteWritten(zs, e.zone, at + k, 0, bs, zoneSize);
      assert ByteAt(zs, at + k, 0) in {None, Some(s[k])};
      assert c[pos + k] == piece[at + k - e.start];
    }
    assert c[pos..pos + n] == s[..n];
  }

  lemma Glue(s: seq<Byte>, from: nat, n: nat, m: nat)
    requires from + n + m <= |s|
    ensures s[from..from + n] + s[from + n..from + n + m] == s[from..from + n + m]
  {
  }

  /** The offset at the end of one extent is the beginning of the next. */
  lemma BoundaryExtent(zs: seq<Zone>, es: seq<Extent>, i: nat, j: nat, offset: nat)
    requires ExtentsOk(zs, es) && i < |es| && j < |es|
    requires offset == TotalLength(es[..i]) + es[i].length
    requires TotalLength(es[..j]) <= offset < TotalLength(es[..j]) + es[j].length
    ensures TotalLength(es[..j]) == offset && es[j].length > 0
  {
    TotalStep(es, i);
    TotalStep(es, j);
    assert ExtentOk(zs, es[j]);
    if j <= i {
      assert es[..i + 1][..j + 1] == es[..j + 1];
      TotalPrefix(es[..i + 1], j + 1);
    } else {
      assert es[..j][..i + 1] == es[..i + 1];
      TotalPrefix(es[..j], i + 1);
    }
  }

  function Least(a: nat, b: nat): nat { if a < b then a else b }

  /** More live bytes in one zone. */
  function Counted(zs: seq<Zone>, i: nat, n: nat): seq<Zone>
    requires i < |zs|
  {
    zs[i := zs[i].(used := zs[i].used + n)]
  }

  function Joined(es: seq<Extent>, rest: Option<seq<Extent>>): Option<seq<Extent>> {
    if rest.Some? then Some(es + rest.value) else None
  }

  /** A block read where a write begins shows the length of that write. */
  lemma BlockHeader(a: seq<Zone>, b: seq<Zone>, zone: nat, from: nat, to: nat, s: seq<Byte>, g: Grid)
    requires GridOk(g) && ZonesOk(a, g.bs, g.zoneSize) && zone < |a| && SameData(a, b)
    requires from < to && Segments(a[zone], zone, from, to, g.bs).Some?
    requires |s| == g.bs && Reads(b, from, s)
    ensures HeaderLength(a[zone], from) == GetFixed64(s[..SPARSE_HEADER_SIZE]).value.value
  {
    hide GetFixed64, ZonesOk, ByteAt, Reads;
    var h, d := s[..SPARSE_HEADER_SIZE], a[zone].data[from - a[zone].start..];
    forall k | 0 <= k < SPARSE_HEADER_SIZE ensures h[k] == d[k] {
      ReadsAt(b, from, s, k);
      ByteSame(a, b, from + k, 0);
      ByteWritten(a, zone, from + k, 0, g.bs, g.zoneSize);
    }
    assert h == d[..SPARSE_HEADER_SIZE];
    FirstEight(d);
  }

  lemma ReadsAt(zs: seq<Zone>, offset: nat, s: seq<Byte>, k: nat)
    requires Reads(zs, offset, s) && k < |s|
    ensures ByteAt(zs, offset + k, 0) in {None, Some(s[k])}
  {
  }

  lemma FirstEight(d: seq<Byte>)
    requires |d| >= SPARSE_HEADER_SIZE
    ensures GetFixed64(d).value.value == GetFixed64(d[..SPARSE_HEADER_SIZE]).value.value
  {
    assert d[..SPARSE_HEADER_SIZE][..8] == d[..8];
  }

  predicate SameData(a: seq<Zone>, b: seq<Zone>) {
    |a| == |b| && forall i :: 0 <= i < |a| ==> b[i].start == a[i].start && b[i].data == a[i].data
  }

  lemma {:induction false} ByteSame(a: seq<Zone>, b: seq<Zone>, at: nat, from: nat)
    requires SameData(a, b) && from <= |a|
    ensures ByteAt(b, at, from) == ByteAt(a, at, from)
    decreases |a| - from
  {
    if from < |a| { ByteSame(a, b, at, from + 1); }
  }

  function HeaderLength(z: Zone, from: nat): nat
    requires z.start <= from && from - z.start + SPARSE_HEADER_SIZE <= |z.data|
  {
    GetFixed64(z.data[from - z.start..]).value.value
  }

  /** One write off the front. */
  lemma SegmentsNext(z: Zone, zone: nat, from: nat, to: nat, bs: nat)
    requires bs > 0 && from < to && Segments(z, zone, from, to, bs).Some?
    ensures z.start <= from && from - z.start + SPARSE_HEADER_SIZE <= |z.data| && HeaderLength(z, from) > 0
    ensures var n := HeaderLength(z, from);
      Segments(z, zone, from, to, bs)
        == Joined([Extent(from + SPARSE_HEADER_SIZE, n, zone)], Segments(z, zone, from + Padded(SPARSE_HEADER_SIZE + n, bs), to, bs))
  {
    hide GetFixed64, Padded;
  }

  /** What has been found so far, and what is still to be found. */
  lemma FollowNext(z: Zone, zone: nat, all: Option<seq<Extent>>, found: seq<Extent>, next: nat, end: nat, bs: nat)
    requires bs > 0 && all == Joined(found, Segments(z, zone, next, end, bs)) && all.Some? && next < end
    ensures Segments(z, zone, next, end, bs).Some?
    ensures z.start <= next && next - z.start + SPARSE_HEADER_SIZE <= |z.data| && HeaderLength(z, next) > 0
    ensures var n := HeaderLength(z, next);
      all == Joined(found + [Extent(next + SPARSE_HEADER_SIZE, n, zone)], Segments(z, zone, next + Padded(SPARSE_HEADER_SIZE + n, bs), end, bs))
  {
    hide Segments, Padded, HeaderLength;
    SegmentsNext(z, zone, next, end, bs);
    var n := HeaderLength(z, next);
    var e, rest := Extent(next + SPARSE_HEADER_SIZE, n, zone), Segments(z, zone, next + Padded(SPARSE_HEADER_SIZE + n, bs), end, bs);
    assert found + ([e] + rest.value) == found + [e] + rest.value;
  }

  lemma FollowFirst(z: Zone, zone: nat, start: nat, end: nat, bs: nat)
    requires bs > 0
    ensures Segments(z, zone, start, end, bs) == Joined([], Segments(z, zone, start, end, bs))
    ensures TotalLength([]) == 0
  {
    var all := Segments(z, zone, start, end, bs);
    if all.Some? { assert [] + all.value == all.value; }
  }

  lemma FollowLast(z: Zone, zone: nat, all: Option<seq<Extent>>, found: seq<Extent>, next: nat, end: nat, bs: nat)
    requires bs > 0 && all == Joined(found, Segments(z, zone, next, end, bs)) && next >= end
    ensures all == Some(found)
  {
    assert found + [] == found;
  }

  lemma SameLength(a: seq<Zone>, b: seq<Zone>)
    requires SameData(a, b)
    ensures |a| == |b|
  {
  }

  lemma CountedTwice(zs: seq<Zone>, i: nat, n: nat, m: nat)
    requires i < |zs|
    ensures i < |Counted(zs, i, n)| && Counted(Counted(zs, i, n), i, m) == Counted(zs, i, n + m)
    ensures SameData(zs, Counted(zs, i, n))
  {
  }

  lemma CountedNone(zs: seq<Zone>, i: nat)
    requires i < |zs|
    ensures Counted(zs, i, 0) == zs && SameData(zs, zs)
  {
  }

  lemma SameDataTwice(a: seq<Zone>, b: seq<Zone>, c: seq<Zone>)
    requires SameData(a, b) && SameData(b, c)
    ensures SameData(a, c) && |a| == |b|
  {
  }

  /** Every zone's count has moved with a list of extents, and nothing else about it. */
  predicate CountsMoved(a: seq<Zone>, es: seq<Extent>, b: seq<Zone>, fs: seq<Extent>) {
    && |a| == |b|
    && forall i :: 0 <= i < |a| ==> SameZone(a[i], b[i]) && b[i].used + UsedBy(es, i) == a[i].used + UsedBy(fs, i)
  }

  lemma SameCounts(zs: seq<Zone>, es: seq<Extent>)
    ensures CountsMoved(zs, es, zs, es)
  {
  }

  lemma OneCount(zs: seq<Zone>, es: seq<Extent>, e: Extent)
    requires e.zone < |zs|
    ensures CountsMoved(zs, es, Counted(zs, e.zone, e.length), es + [e])
  {
    forall i | 0 <= i < |zs|
      ensures UsedBy(es + [e], i) == UsedBy(es, i) + if e.zone == i then e.length else 0
    {
      Snoc(es, e, i);
    }
  }

  lemma {:induction false} UsedConcat(a: seq<Extent>, b: seq<Extent>, z: nat)
    ensures UsedBy(a + b, z) == UsedBy(a, z) + UsedBy(b, z)
    decreases |b|
  {
    if b == [] {
      assert a + b == a;
    } else {
      var n := |b| - 1;
      UsedConcat(a, b[..n], z);
      assert a + b == (a + b[..n]) + [b[n]];
      Snoc(a + b[..n], b[n], z);
    }
  }

  lemma {:induction false} UsedInZone(es: seq<Extent>, zone: nat, z: nat)
    requires forall i :: 0 <= i < |es| ==> es[i].zone == zone
    ensures UsedBy(es, z) == if z == zone then TotalLength(es) else 0
  {
    if es != [] { UsedInZone(es[..|es| - 1], zone, z); }
  }

  lemma {:induction false} SegmentsZone(z: Zone, zone: nat, from: nat, to: nat, bs: nat)
    requires bs > 0 && Segments(z, zone, from, to, bs).Some?
    ensures forall i :: 0 <= i < |Segments(z, zone, from, to, bs).value| ==> Segments(z, zone, from, to, bs).value[i].zone == zone
    decreases if from < to then to - from else 0
  {
    hide Segments, GetFixed64, Padded, HeaderLength;
    if from < to {
      SegmentsNext(z, zone, from, to, bs);
      var n := HeaderLength(z, from);
      PaddedMore(SPARSE_HEADER_SIZE + n, bs);
      SegmentsZone(z, zone, from + Padded(SPARSE_HEADER_SIZE + n, bs), to, bs);
    } else {
      FollowLast(z, zone, Segments(z, zone, from, to, bs), [], from, to, bs) by { FollowFirst(z, zone, from, to, bs); }
    }
  }

  lemma SegmentsCounts(zs: seq<Zone>, es: seq<Extent>, zone: nat, from: nat, to: nat, bs: nat)
    requires bs > 0 && zone < |zs| && Segments(zs[zone], zone, from, to, bs).Some?
    ensures var s := Segments(zs[zone], zone, from, to, bs).value;
      CountsMoved(zs, es, Counted(zs, zone, TotalLength(s)), es + s)
  {
    hide Segments, TotalLength, UsedBy;
    var s := Segments(zs[zone], zone, from, to, bs).value;
    SegmentsZone(zs[zone], zone, from, to, bs);
    forall i | 0 <= i < |zs|
      ensures UsedBy(es + s, i) == UsedBy(es, i) + if i == zone then TotalLength(s) else 0
    {
      UsedConcat(es, s, i);
      UsedInZone(s, zone, i);
    }
  }

  lemma TotalNone()
    ensures TotalLength([]) == 0
  {
  }

  /** The first bytes of the buffer are those of the file from an offset on. */
  ghost predicate ReadSoFar(scratch: array<Byte>, read: nat, content: seq<Byte>, offset: nat)
    reads scratch
  {
    read <= scratch.Length && offset + read <= |content| && scratch[..read] == content[offset..offset + read]
  }

  /** The extent that holds a place of the file. */
  function Holder(es: seq<Extent>, pos: nat): (i: nat)
    requires pos < TotalLength(es)
    ensures i < |es| && TotalLength(es[..i]) <= pos < TotalLength(es[..i]) + es[i].length
  {
    var k := |es| - 1;
    if TotalLength(es[..k]) <= pos then k
    else
      var i := Holder(es[..k], pos);
      assert es[..k][..i] == es[..i];
      i
  }

  lemma HolderIs(es: seq<Extent>, pos: nat, i: nat)
    requires i < |es| && TotalLength(es[..i]) <= pos < TotalLength(es[..i]) + es[i].length
    ensures pos < TotalLength(es) && Holder(es, pos) == i
  {
    InContent(es, i);
    var j := Holder(es, pos);
    if i < j {
      assert es[..j][..i] == es[..i];
      InContent(es[..j], i);
    } else if j < i {
      assert es[..i][..j] == es[..j];
      InContent(es[..i], j);
    }
  }

  /** The length of the last device read of a range: from the start of the range, or of the extent that holds
      its last byte. */
  function LastPiece(es: seq<Extent>, offset: nat, end: nat): (q: nat)
    requires offset < end <= TotalLength(es)
    ensures 0 < q <= end - offset
  {
    end - Most(offset, TotalLength(es[..Holder(es, end - 1)]))
  }

  function Most(a: nat, b: nat): nat { if a < b then b else a }

  /** How far into memory the device reads of a range go: each is rounded up to whole blocks if it is direct,
      and the last of them goes furthest. */
  function Reach(es: seq<Extent>, offset: nat, end: nat, bs: nat, direct: bool): nat
    requires bs > 0 && end <= TotalLength(es)
  {
    if offset >= end then 0
    else end - offset + (if direct then Pad(LastPiece(es, offset, end), bs) else 0)
  }

  /** The n bytes of the caller are enough for a direct read of n bytes exactly if its last piece is a whole
      number of blocks; or if as much less is read, the file being shorter, as the piece lacks. */
  lemma BufferSuffices(es: seq<Extent>, offset: nat, n: nat, size: nat, bs: nat)
    requires bs > 0 && offset < Least(offset + n, Least(size, TotalLength(es)))
    ensures var end := Least(offset + n, Least(size, TotalLength(es)));
      && (Reach(es, offset, end, bs, true) <= n <==> Pad(LastPiece(es, offset, end), bs) <= offset + n - end)
      && (end == offset + n ==> (Reach(es, offset, end, bs, true) <= n <==> LastPiece(es, offset, end) % bs == 0))
      && Reach(es, offset, end, bs, true) < n + bs
      && Reach(es, offset, end, bs, false) <= n
  {
    hide TotalLength, Holder;
  }

  // ---------------------------------------------------------------- pieces too long for an int

  /** What one read of a piece asks the device for. */
  function PieceSize(q: nat, bs: nat, direct: bool): nat
    requires bs > 0
  {
    q + if direct then Pad(q, bs) else 0
  }

  /** The part of a range that lies in one extent is short enough for the device's int. */
  predicate PieceShort(es: seq<Extent>, i: nat, offset: nat, end: nat, bs: nat, direct: bool)
    requires bs > 0 && i < |es|
  {
    var b, e := Most(offset, TotalLength(es[..i])), Least(end, TotalLength(es[..i]) + es[i].length);
    b < e ==> PieceSize(e - b, bs, direct) < INT
  }

  predicate ShortPieces(es: seq<Extent>, offset: nat, end: nat, bs: nat, direct: bool)
    requires bs > 0
  {
    forall i :: 0 <= i < |es| ==> PieceShort(es, i, offset, end, bs, direct)
  }

  lemma ShortNone(es: seq<Extent>, offset: nat, bs: nat, direct: bool)
    requires bs > 0
    ensures ShortPieces(es, offset, offset, bs, direct)
  {
  }

  lemma ShortBehind(es: seq<Extent>, offset: nat, end: nat, bs: nat, direct: bool)
    requires bs > 0
    ensures end <= offset ==> ShortPieces(es, offset, end, bs, direct)
  {
  }

  lemma ShortNext(es: seq<Extent>, i: nat, offset: nat, m: nat, q: nat, bs: nat, direct: bool)
    requires bs > 0 && i < |es| && ShortPieces(es, offset, m, bs, direct)
    requires m == Most(offset, TotalLength(es[..i])) && m + q <= TotalLength(es[..i]) + es[i].length
    requires PieceSize(q, bs, direct) < INT
    ensures ShortPieces(es, offset, m + q, bs, direct)
  {
    hide TotalLength, Pad;
    var end := m + q;
    forall j | 0 <= j < |es| ensures PieceShort(es, j, offset, end, bs, direct) {
      assert PieceShort(es, j, offset, m, bs, direct);
      if j < i {
        assert es[..i][..j] == es[..j] && es[..i][j] == es[j];
        InContent(es[..i], j);
      } else if j > i {
        assert es[..j][..i] == es[..i] && es[..j][i] == es[i];
        InContent(es[..j], i);
      }
    }
  }

  lemma PieceBound(q: nat, bs: nat, direct: bool)
    requires bs > 0
    ensures q <= PieceSize(q, bs, direct) <= q + if direct then bs - 1 else 0
    ensures PieceSize(q, bs, direct) == q + if direct then Pad(q, bs) else 0
  {
    hide Pad;
  }

  lemma LongPiece(es: seq<Extent>, i: nat, offset: nat, end: nat, bs: nat, direct: bool)
    requires bs > 0 && i < |es|
    requires var b, e := Most(offset, TotalLength(es[..i])), Least(end, TotalLength(es[..i]) + es[i].length);
      b < e && PieceSize(e - b, bs, direct) >= INT
    ensures !ShortPieces(es, offset, end, bs, direct)
  {
    hide TotalLength, PieceSize;
    assert !PieceShort(es, i, offset, end, bs, direct);
  }

  /** An extent of 2^31 bytes cannot be read in one go, by a device that never fails. */
  lemma LongReadFails(e: Extent, bs: nat)
    requires e.length == INT && bs > 0
    ensures TotalLength([e]) == INT && !ShortPieces([e], 0, INT, bs, false) && ShortPieces([e], 0, INT - 1, bs, false)
  {
    assert [e][..0] == [] && TotalLength([e]) == INT;
    LongPiece([e], 0, 0, INT, bs, false);
  }

  /** The device is asked for too much, and what it gives leaves too much to ask for. */
  lemma StillLong(q: nat, n: nat, got: nat, bs: nat, direct: bool)
    requires 0 < bs < INT && n == PieceSize(q, bs, direct) >= INT && 0 < got && got + W32 <= n
    ensures got < q && PieceSize(q - got, bs, direct) >= INT
  {
    hide Pad;
    if direct { assert Pad(q, bs) < bs; }
  }

  /** Extents of 3 and 13 bytes and blocks of 16: a direct read of the 16 bytes writes 19. */
  lemma ReadOverruns(d: Extent, e: Extent)
    requires d.length == 3 && e.length == 13
    ensures TotalLength([d, e]) == 16 && Reach([d, e], 0, 16, 16, true) == 19
  {
    assert [d, e][..1] == [d] && [d][..0] == [];
    assert TotalLength([d]) == 3;
    HolderIs([d, e], 15, 1);
  }

  /** Memory has changed in [from, to) only. */
  predicate OnlyWithin(a: seq<Byte>, b: seq<Byte>, from: nat, to: nat) {
    |b| == |a| && forall k :: 0 <= k < |a| && !(from <= k < to) ==> b[k] == a[k]
  }

  lemma WithinIs(a: seq<Byte>, b: seq<Byte>, from: nat, to: nat)
    requires |b| == |a| && forall k :: 0 <= k < |a| && !(from <= k < to) ==> b[k] == a[k]
    ensures OnlyWithin(a, b, from, to)
  {
  }

  lemma TailArray(scratch: array<Byte>, from: nat, to: nat)
    requires from <= to <= scratch.Length
    ensures scratch[..][from..to] == scratch[from..to]
  {
  }

  lemma WithinMore(a: seq<Byte>, b: seq<Byte>, c: seq<Byte>, from: nat, to: nat, m: nat)
    requires OnlyWithin(b, c, from, to) && to <= m
    ensures OnlyWithin(a, b, 0, m) ==> OnlyWithin(a, c, 0, m)
  {
  }

  lemma WithinLess(a: seq<Byte>, b: seq<Byte>, to: nat, m: nat)
    requires OnlyWithin(a, b, 0, to) && to <= m
    ensures OnlyWithin(a, b, 0, m)
  {
  }

  lemma PadBlock(q: nat, bs: nat)
    requires 0 < q && bs > 0
    ensures q + Pad(q, bs) >= bs
  {
    PadAligns(q, bs);
    if q < bs { ModUnique(q, bs, 0, q); }
  }

  lemma WithinNone(a: seq<Byte>)
    ensures forall from, to :: OnlyWithin(a, a, from, to)
  {
  }

  lemma ReadsFrom(zs: seq<Zone>, at: nat, s: seq<Byte>, k: nat)
    requires Reads(zs, at, s) && k <= |s|
    ensures Reads(zs, at + k, s[k..])
  {
    forall j | 0 <= j < |s[k..]| ensures ByteAt(zs, at + k + j, 0) in {None, Some(s[k..][j])} {
      assert s[k..][j] == s[k + j];
      assert at + k + j == at + (k + j);
    }
  }

  lemma ReadBehind(scratch: array<Byte>, zs: seq<Zone>, rOff: nat, at: nat, q: nat, r: nat)
    requires q <= r && at + r <= scratch.Length && Reads(zs, rOff, scratch[at..at + r])
    ensures Reads(zs, rOff + q, scratch[at + q..at + r])
  {
    assert scratch[at..at + r][q..] == scratch[at + q..at + r];
    ReadsFrom(zs, rOff, scratch[at..at + r], q);
  }

  lemma NothingRead(scratch: array<Byte>, content: seq<Byte>, offset: nat)
    requires offset <= |content|
    ensures ReadSoFar(scratch, 0, content, offset)
  {
  }

  lemma WasRead(scratch: array<Byte>, read: nat, content: seq<Byte>, offset: nat)
    requires ReadSoFar(scratch, read, content, offset)
    ensures read <= scratch.Length && offset + read <= |content| && scratch[..read] == content[offset..offset + read]
  {
  }

  lemma ReadStill(scratch: array<Byte>, at: nat, content: seq<Byte>, offset: nat)
    requires at <= scratch.Length && offset + at <= |content| && scratch[..at] == content[offset..offset + at]
    ensures ReadSoFar(scratch, at, content, offset)
  {
  }

  lemma ReadFurther(scratch: array<Byte>, at: nat, r: nat, got: nat, content: seq<Byte>, offset: nat)
    requires got <= r && at + r <= scratch.Length && offset + at + got <= |content|
    requires scratch[..at] == content[offset..offset + at]
    requires scratch[at..at + r][..got] == content[offset + at..offset + at + got]
    ensures ReadSoFar(scratch, at + got, content, offset)
  {
    SplitArray(scratch, 0, at, at + got);
    assert scratch[at..at + r][..got] == scratch[at..at + got];
    Glue(content, offset, at, got);
  }

  lemma InContent(es: seq<Extent>, i: nat)
    requires i < |es|
    ensures TotalLength(es[..i]) + es[i].length <= TotalLength(es)
  {
    TotalStep(es, i);
    TotalPrefix(es, i + 1);
  }

  /** What has been written of some data, and what is left. */
  predicate Split(data: seq<Byte>, written: seq<Byte>, rest: seq<Byte>) { data == written + rest }

  /** The buffer has this data behind the place for the header, and room to pad it. */
  ghost predicate Holds(buffer: array<Byte>, h: nat, rest: seq<Byte>, bs: nat)
    reads buffer
  {
    bs > 0 && h + |rest| <= Padded(h + |rest|, bs) <= buffer.Length && buffer[h..h + |rest|] == rest
  }

  lemma SplitFirst(buffer: array<Byte>, h: nat, n: nat, bs: nat)
    requires bs > 0 && h + n <= Padded(h + n, bs) <= buffer.Length
    ensures Split(buffer[h..h + n], [], buffer[h..h + n]) && Holds(buffer, h, buffer[h..h + n], bs)
    ensures buffer[h..h + n][..0] == []
  {
  }

  lemma SplitSize(data: seq<Byte>, written: seq<Byte>, rest: seq<Byte>)
    requires Split(data, written, rest)
    ensures |data| == |written| + |rest|
  {
  }

  lemma SplitNext(data: seq<Byte>, written: seq<Byte>, rest: seq<Byte>, n: nat)
    requires Split(data, written, rest) && n <= |rest|
    ensures Split(data, written + rest[..n], rest[n..])
  {
  }

  lemma HoldsRest(buffer: array<Byte>, h: nat, data: seq<Byte>, written: seq<Byte>, rest: seq<Byte>, bs: nat)
    requires Holds(buffer, h, rest, bs) && Split(data, written, rest)
    ensures |written| <= |data| && h + |data| - |written| <= buffer.Length
    ensures buffer[h..h + |data| - |written|] == data[|written|..]
  {
    hide Padded;
  }

  lemma SplitLast(data: seq<Byte>, written: seq<Byte>, rest: seq<Byte>)
    requires Split(data, written, rest)
    ensures |written| <= |data| && data[..|written|] == written && (rest == [] ==> |written| == |data|)
  {
  }

  /** What the allocator has answered, by what AllocateNewZone returns. */
  function OutcomeOf(st: Status, home: nat): Outcome {
    if st == Ok then Took(home) else if st == NoSpace then NoZone else Blocked
  }

  class ZoneFile {
    const dev: Device
    const sparse: bool
    const direct: bool
    const wal: bool
    const lifetime: nat
    var extents: seq<Extent>
    var active: Option<nat>
    var extentStart: Option<nat>
    var filePos: nat
    var size: nat
    ghost var saved: Saved
    ghost var home: nat
    ghost var images: seq<Image>

    ghost function State(): File
      reads this
    {
      File(extents, active, extentStart, filePos, size, sparse, direct, saved, home)
    }

    /** A new file: no extents, nothing open. */
    constructor (dev: Device, sparse: bool, direct: bool, wal: bool, lifetime: nat)
      requires dev.Valid() && dev.active <= dev.maxActive && lifetime <= WLTH_EXTREME && (sparse ==> !direct)
      ensures Valid() && State() == NewFile(sparse, direct) && this.dev == dev && images == []
      ensures this.wal == wal && this.lifetime == lifetime
    {
      this.dev, this.sparse, this.direct, this.wal, this.lifetime := dev, sparse, direct, wal, lifetime;
      extents, active, extentStart, filePos, size := [], None, None, 0, 0;
      saved, home, images := Saved([], None, 0), 0, [];
    }

    /** What holds at every point between two steps of a method. */
    ghost predicate Sound()
      reads this, dev
    {
      && dev.Valid() && dev.active <= dev.maxActive && lifetime <= WLTH_EXTREME
      && FileOk(dev.zones, State(), GridOf(dev)) && AllSafe(images, GridOf(dev))
    }

    /** Between calls a buffered writer has room in its zone. */
    ghost predicate Valid()
      reads this, dev
    {
      Sound() && (!direct && active.Some? ==> home < |dev.zones| && !IsFull(dev.zones[home]))
    }

    /** Since the given moment the file has gained `s`, and no other file, token or zone was disturbed. */
    ghost predicate Gained(zones: seq<Zone>, f: File, ims: seq<Image>, slack: int, s: seq<Byte>)
      reads this, dev
    {
      && Sound() && dev.Slack() >= slack
      && Progress(zones, f, ims, dev.zones, State(), images, s, GridOf(dev))
    }

    /** An append stops short only for want of a zone: none is empty and free, or the allocator waits. */
    ghost predicate Explained(st: Status)
      reads dev
    {
      && st in {Ok, NoSpace, Waiting}
      && (st == NoSpace ==> NoneFree(dev.zones)) && (st == Waiting ==> dev.Stuck(wal))
    }

    lemma Then(zones: seq<Zone>, f: File, ims: seq<Image>, slack: int, s: seq<Byte>,
               zones': seq<Zone>, f': File, ims': seq<Image>, slack': int, t: seq<Byte>)
      requires Progress(zones, f, ims, zones', f', ims', s, GridOf(dev)) && slack <= slack'
      requires Gained(zones', f', ims', slack', t)
      ensures Gained(zones, f, ims, slack, s + t)
    {
      hide Progress, FileOk, AllSafe;
      ProgressTwice(zones, f, ims, zones', f', ims', s, dev.zones, State(), images, t, GridOf(dev));
    }

    method PersistMetadata()
      requires Sound()
      modifies this`saved, this`images
      ensures Gained(old(dev.zones), old(State()), old(images), old(dev.Slack()), [])
      ensures State() == Persisted(old(State()))
    {
      hide FileOk, ZonesOk, Progress, ActiveZones, AllSafe;
      PersistProgress(dev.zones, State(), images, GridOf(dev));
      saved := Saved(extents, extentStart, size);
      images := images + [ImageOf(dev.zones, State())];
    }

    /** The assertion in the source, that the pending bytes lie below the write pointer, is part of Sound. */
    method PushExtent()
      requires Sound() && direct
      modifies this`extents, this`extentStart, this`filePos, dev`zones
      ensures Gained(old(dev.zones), old(State()), old(images), old(dev.Slack()), [])
      ensures images == old(images) && active == old(active) && home == old(home) && Pending(State()) == 0
      ensures active.Some? ==> home < |dev.zones| && dev.zones[home].capacity == old(dev.zones)[home].capacity
      ensures State() == old(if active.Some? then Pushed(dev.zones, State()) else State())
    {
      hide FileOk, ZonesOk, Progress, AllSafe, ActiveZones;
      ghost var a, f := dev.zones, State();
      ActiveHome(a, f, GridOf(dev));
      if active.None? {
        ProgressNot(a, f, images, GridOf(dev));
        return;
      }
      PushProgress(a, f, images, GridOf(dev));
      ghost var j := home;
      var length := size - filePos;
      if length == 0 {
        assert a[j := a[j].(used := a[j].used + 0)] == a;
        return;
      }
      extents := extents + [Extent(extentStart.value, length, active.value)];
      dev.zones := dev.zones[active.value := dev.zones[active.value].(used := dev.zones[active.value].used + length)];
      extentStart := Some(dev.zones[active.value].wp);
      filePos := size;
      ActiveZonesUpdate(a, j, dev.zones[j]);
    }

    /** Gives the zone back with its open token, and the active token if the zone is full. From then on any file
        may take the zone. */
    method CloseActiveZone()
      requires dev.Valid() && (active.Some? ==> active.value < |dev.zones| && dev.zones[active.value].busy)
      modifies this`active, this`images, dev`zones, dev`open, dev`active
      ensures images == old(images) + [ImageOf(dev.zones, State())]
      ensures active.None? && dev.Valid() && dev.active <= old(dev.active)
      ensures dev.Slack() == old(dev.Slack() + if active.Some? && IsEmpty(dev.zones[active.value]) then 1 else 0)
      ensures dev.zones == old(if active.Some? then Freed(dev.zones, active.value) else dev.zones)
    {
      hide ZonesOk, ActiveZones;
      if active.Some? {
        ghost var a, j := dev.zones, active.value;
        var full := IsFull(dev.zones[active.value]);
        var _ := dev.Release(active.value);
        active := None;
        dev.PutOpenIOZoneToken();
        if full { dev.PutActiveIOZoneToken(); }
        ActiveZonesUpdate(a, j, dev.zones[j]);
        UnusedIfEmpty(a, j, dev.bs, dev.zoneSize);
        HoldKeepsOk(a, j, false, a[j].lifetime, a[j].used, dev.bs, dev.zoneSize);
      }
      images := images + [ImageOf(dev.zones, State())];
    }

    /** AllocateNewZone: a zone for the file's own lifetime, on record before anything is written to it. */
    method AllocateNewZone() returns (st: Status)
      requires Sound() && active.None?
      modifies this`active, this`extentStart, this`filePos, this`home, this`saved, this`images
      modifies dev`zones, dev`active, dev`open
      ensures Gained(old(dev.zones), old(State()), old(images), old(dev.Slack()), [])
      ensures st == Ok ==> active.Some? && home < |dev.zones| && !IsFull(dev.zones[home])
      ensures st != Ok ==> State() == old(State())
      ensures Explained(st)
      ensures dev.Allocates(old(dev.zones), old(dev.open), old(dev.Slack()), lifetime, wal, OutcomeOf(st, home))
    {
      hide FileOk, ZonesOk, Progress, AllSafe, ActiveZones, FinishedBut, TakenFor, WellChosen, Device.Allocates;
      ghost var a, f := dev.zones, State();
      var r := dev.AllocateIOZone(lifetime, wal);
      match r
      case Blocked =>
        GivenUpProgress(a, f, images, dev.zones, r, GridOf(dev));
        images := images + [ImageOf(dev.zones, f)];
        return Waiting;
      case NoZone =>
        GivenUpProgress(a, f, images, dev.zones, r, GridOf(dev));
        images := images + [ImageOf(dev.zones, f)];
        return NoSpace;
      case Took(j) =>
        OpenProgress(a, f, images, dev.zones, j, lifetime, GridOf(dev));
        images := images + [ImageOf(dev.zones, f)];
        active, home := Some(j), j;
        extentStart := Some(dev.zones[j].wp);
        filePos := size;
        saved := Saved(extents, extentStart, size);
        images := images + [ImageOf(dev.zones, State())];
        return Ok;
    }

    /** After a write that has filled the zone: the zone goes. */
    method CloseFilledZone()
      requires Sound() && active.Some? && Pending(State()) == 0
      requires home < |dev.zones| && IsFull(dev.zones[home])
      modifies this`active, this`images, dev`zones, dev`open, dev`active
      ensures Gained(old(dev.zones), old(State()), old(images), old(dev.Slack()), [])
      ensures active.None?
    {
      hide FileOk, ZonesOk, Progress, AllSafe, ActiveZones;
      ghost var a, f := dev.zones, State();
      ActiveHome(a, f, GridOf(dev));
      CloseProgress(a, f, images, GridOf(dev));
      CloseActiveZone();
    }

    /** CloseWR: first the record that nothing is open, then the zone goes. */
    method CloseWR()
      requires Sound() && Pending(State()) == 0
      modifies this`extentStart, this`saved, this`active, this`images, dev`zones, dev`open, dev`active
      ensures Gained(old(dev.zones), old(State()), old(images), old(dev.Slack()), [])
      ensures State() == Closed(old(State())) && Valid()
    {
      hide FileOk, ZonesOk, Progress, AllSafe, ActiveZones;
      ghost var a, f := dev.zones, State();
      ActiveHome(a, f, GridOf(dev));
      CloseWRProgress(a, f, images, GridOf(dev));
      extentStart := None;
      saved := Saved(extents, extentStart, size);
      images := images + [Image(dev.zones, saved, extents, sparse, home)];
      CloseActiveZone();
    }

    /** One piece of a direct write, and what it leaves pending. */
    method WritePiece(data: array<Byte>, from: nat, n: nat)
      requires Sound() && direct && active.Some? && from + n <= data.Length && n > 0 && Aligned(n, dev.bs)
      requires home < |dev.zones| && n <= dev.zones[home].capacity
      modifies this`size, this`images, dev`zones
      ensures Gained(old(dev.zones), old(State()), old(images), old(dev.Slack()), data[from..from + n])
      ensures active == old(active) && home == old(home)
    {
      hide FileOk, ZonesOk, Progress, AllSafe, ActiveZones;
      ghost var a, f := dev.zones, State();
      ActiveHome(a, f, GridOf(dev));
      ExtendProgress(a, f, images, data[from..from + n], GridOf(dev));
      var _ := dev.Append(active.value, data, from, n);
      size := size + n;
      images := images + [ImageOf(dev.zones, State())];
    }

    /** The next zone for a direct write whose zone is full. */
    method NextZone() returns (st: Status)
      requires Sound() && direct && active.Some? && home < |dev.zones| && IsFull(dev.zones[home])
      modifies this, dev
      ensures Gained(old(dev.zones), old(State()), old(images), old(dev.Slack()), [])
      ensures st == Ok ==> active.Some? && home < |dev.zones| && !IsFull(dev.zones[home])
      ensures Explained(st)
    {
      hide FileOk, ZonesOk, Progress, AllSafe, ActiveZones, Moved;
      ghost var a, f, ims, slack := dev.zones, State(), images, dev.Slack();
      ghost var none: seq<Byte> := [];
      assert none + none == none;
      PushExtent();
      ghost var b, g, ims1, slack1 := dev.zones, State(), images, dev.Slack();
      CloseFilledZone();
      Then(a, f, ims, slack, none, b, g, ims1, slack1, none);
      b, g, ims1, slack1 := dev.zones, State(), images, dev.Slack();
      st := AllocateNewZone();
      Then(a, f, ims, slack, none, b, g, ims1, slack1, none);
    }

    /** The beginning of every append: a file without a zone gets one. */
    method OpenIfNeeded() returns (st: Status)
      requires Valid()
      modifies this, dev
      ensures Gained(old(dev.zones), old(State()), old(images), old(dev.Slack()), [])
      ensures st == Ok ==> active == Some(home) && home < |dev.zones| && (!direct ==> !IsFull(dev.zones[home]))
      ensures st != Ok ==> active.None?
      ensures Explained(st)
    {
      hide FileOk, ZonesOk, Progress, AllSafe, ActiveZones, Moved;
      NoProgress();
      st := Ok;
      if active.None? { st := AllocateNewZone(); }
      ActiveHome(dev.zones, State(), GridOf(dev));
    }

    /** Append for a direct writer: whole blocks, over as many zones as it takes. The size goes through 32 bits.
        `done` bytes were written. */
    method Append(data: array<Byte>, dataSize: nat) returns (st: Status, ghost done: nat)
      requires Valid() && direct && dataSize <= data.Length && Aligned(dataSize % W32, dev.bs)
      modifies this, dev
      ensures done <= dataSize % W32 <= dataSize && Gained(old(dev.zones), old(State()), old(images), old(dev.Slack()), data[..done])
      ensures Valid() && Explained(st) && (st == Ok ==> done == dataSize % W32)
    {
      hide FileOk, ZonesOk, Progress, AllSafe, ActiveZones, Moved, Aligned, Pending;
      ghost var a, f, ims, slack := dev.zones, State(), images, dev.Slack();
      done := 0;
      assert data[..0] == [];
      st := OpenIfNeeded();
      if st != Ok { return; }
      var left, offset := dataSize % W32, 0;
      while left > 0
        invariant 0 <= offset && 0 <= left && offset + left == dataSize % W32 && offset == done
        invariant Aligned(left, dev.bs) && active.Some? && st == Ok
        invariant Gained(a, f, ims, slack, data[..offset])
      {
        ghost var b, g, ims1, slack1 := dev.zones, State(), images, dev.Slack();
        ActiveHome(b, g, GridOf(dev));
        if dev.zones[active.value].capacity == 0 {
          st := NextZone();
          Then(a, f, ims, slack, data[..offset], b, g, ims1, slack1, []);
          assert data[..offset] + [] == data[..offset];
          if st != Ok { return; }
          b, g, ims1, slack1 := dev.zones, State(), images, dev.Slack();
        }
        ActiveHome(b, g, GridOf(dev));
        CapacityAligned(b, home, dev.bs, dev.zoneSize);
        var wrSize := if left > dev.zones[active.value].capacity then dev.zones[active.value].capacity else left;
        AlignedSum(left, wrSize, dev.bs);
        WritePiece(data, offset, wrSize);
        Then(a, f, ims, slack, data[..offset], b, g, ims1, slack1, data[offset..offset + wrSize]);
        assert data[..offset] + data[offset..offset + wrSize] == data[..offset + wrSize];
        offset, left := offset + wrSize, left - wrSize;
        done := offset;
      }
    }

    /** One write of a buffered or sparse file: the buffer starts with it as it goes to the device, and its
        `n` bytes become an extent of their own. */
    method WriteSegment(buffer: array<Byte>, n: nat, ghost p: seq<Byte>)
      requires Sound() && active.Some? && Fits(dev.zones, State(), p, GridOf(dev)) && n == |p|
      requires Padded(HeaderSize(sparse) + n, dev.bs) <= buffer.Length
      requires buffer[..Padded(HeaderSize(sparse) + n, dev.bs)] == Frame(sparse, p, dev.bs)
      modifies this`extents, this`extentStart, this`size, this`images, dev`zones
      ensures Gained(old(dev.zones), old(State()), old(images), old(dev.Slack()), p)
      ensures active == old(active) && home == old(home)
      ensures |dev.zones| == |old(dev.zones)|
      ensures dev.zones[home].capacity == old(dev.zones)[home].capacity - Padded(HeaderSize(sparse) + n, dev.bs)
    {
      hide FileOk, ZonesOk, Progress, AllSafe, ActiveZones, Frame, Aligned, Pad;
      ghost var a, f, g := dev.zones, State(), GridOf(dev);
      ActiveHome(a, f, g);
      SegmentProgress(a, f, images, p, g);
      StoredZones(a, f, p, g);
      var wrSize := HeaderSize(sparse) + n;
      PadAligns(wrSize, dev.bs);
      var _ := dev.Append(active.value, buffer, 0, wrSize + Pad(wrSize, dev.bs));
      assert dev.zones == AfterStore(a, f, p, g);
      images := images + [Image(dev.zones, saved, Segmented(a, f, p, g).extents, sparse, home)];
      ListSegment(n, a, p);
    }

    /** The write is on the device: its extent is counted and listed. */
    method ListSegment(n: nat, ghost a: seq<Zone>, ghost p: seq<Byte>)
      requires Fits(a, State(), p, GridOf(dev)) && dev.zones == AfterStore(a, State(), p, GridOf(dev)) && n == |p|
      requires ZonesOk(AfterCount(a, State(), p, GridOf(dev)), dev.bs, dev.zoneSize) && dev.Valid()
      modifies this`extents, this`extentStart, this`size, this`images, dev`zones
      ensures dev.zones == AfterCount(a, old(State()), p, GridOf(dev))
      ensures State() == Segmented(a, old(State()), p, GridOf(dev))
      ensures images == old(images) + [ImageOf(dev.zones, State())]
      ensures dev.Valid() && dev.Slack() == old(dev.Slack())
    {
      hide ZonesOk, ActiveZones, Frame, Pad;
      ghost var m := dev.zones;
      extents := extents + [Extent(extentStart.value + HeaderSize(sparse), n, active.value)];
      extentStart := Some(dev.zones[active.value].wp);
      dev.zones := dev.zones[active.value := dev.zones[active.value].(used := dev.zones[active.value].used + n)];
      assert dev.zones == AfterCount(a, old(State()), p, GridOf(dev));
      ActiveZonesUpdate(m, home, dev.zones[home]);
      size := size + n;
      images := images + [ImageOf(dev.zones, State())];
    }

    /** Header in front and zeros behind: the first `n` bytes of data in the buffer become a write. */
    method Prepare(buffer: array<Byte>, n: nat, ghost p: seq<Byte>)
      requires GridOk(GridOf(dev)) && n < W64
      requires Padded(HeaderSize(sparse) + n, dev.bs) <= buffer.Length
      requires buffer[HeaderSize(sparse)..HeaderSize(sparse) + n] == p
      modifies buffer
      ensures buffer[..][..Padded(HeaderSize(sparse) + n, dev.bs)] == Frame(sparse, p, dev.bs)
      ensures buffer[..][Padded(HeaderSize(sparse) + n, dev.bs)..] == old(buffer[..])[Padded(HeaderSize(sparse) + n, dev.bs)..]
    {
      hide Frame, PutFixed64, Padded, Pad, Zeros;
      var wrSize := HeaderSize(sparse) + n;
      PaddedIs(wrSize, dev.bs);
      ghost var b0 := buffer[..];
      assert b0[HeaderSize(sparse)..wrSize] == p;
      Overwrite(buffer, wrSize, Zeros(Pad(wrSize, dev.bs)));
      ghost var b1 := buffer[..];
      if sparse { Overwrite(buffer, 0, PutFixed64(n)); }
      PreparedIs(b0, b1, buffer[..], sparse, p, dev.bs);
    }

    /** One round of the loop in BufferedAppend and SparseAppend: as much as the zone takes. */
    method SegmentRound(buffer: array<Byte>, left: nat, ghost rest: seq<Byte>) returns (n: nat)
      requires Sound() && !direct && 0 < left < W64
      requires active == Some(home) && home < |dev.zones| && !IsFull(dev.zones[home])
      requires Padded(HeaderSize(sparse) + left, dev.bs) <= buffer.Length
      requires buffer[HeaderSize(sparse)..HeaderSize(sparse) + left] == rest
      modifies this`extents, this`extentStart, this`size, this`images, dev`zones, buffer
      ensures 0 < n <= left == |rest|
      ensures Gained(old(dev.zones), old(State()), old(images), old(dev.Slack()), rest[..n])
      ensures active == old(active) && home == old(home) && home < |dev.zones|
      ensures n < left ==> IsFull(dev.zones[home])
      ensures HeaderSize(sparse) + n <= HeaderSize(sparse) + left <= buffer.Length
      ensures buffer[HeaderSize(sparse) + n..HeaderSize(sparse) + left] == rest[n..]
    {
      hide FileOk, ZonesOk, Progress, AllSafe, ActiveZones, Moved, Pending, Frame, Padded, Aligned, Pad;
      var h := HeaderSize(sparse);
      ActiveHome(dev.zones, State(), GridOf(dev));
      var capacity := dev.zones[active.value].capacity;
      CapacityAligned(dev.zones, home, dev.bs, dev.zoneSize);
      RoundSize(h, left, capacity, GridOf(dev));
      var wrSize := h + left;
      if wrSize > capacity { wrSize := capacity; }
      n := wrSize - h;
      Piece(buffer[h..h + left], n);
      assert buffer[h..h + n] == buffer[h..h + left][..n];
      ghost var b0 := buffer[..];
      Prepare(buffer, n, rest[..n]);
      WriteSegment(buffer, n, rest[..n]);
      AfterRound(b0, buffer[..], h, n, left, Padded(h + n, dev.bs), rest);
    }

    /** BufferedAppend and SparseAppend: the data, which follows the place for the header, goes out in as many
        writes as there are zones to fill. `done` bytes were written. */
    method AppendSegments(buffer: array<Byte>, dataSize: nat) returns (st: Status, ghost done: nat)
      requires Valid() && !direct && dataSize < W64
      requires Padded(HeaderSize(sparse) + dataSize, dev.bs) <= buffer.Length
      modifies this, dev, buffer
      ensures done <= dataSize
      ensures Gained(old(dev.zones), old(State()), old(images), old(dev.Slack()),
        old(buffer[HeaderSize(sparse)..HeaderSize(sparse) + dataSize])[..done])
      ensures Valid() && Explained(st) && (st == Ok ==> done == dataSize)
      ensures var h := HeaderSize(sparse); st != Ok ==> buffer[h..h + dataSize - done] == old(buffer[h..h + dataSize])[done..]
    {
      hide FileOk, ZonesOk, Progress, AllSafe, ActiveZones, Moved, Aligned, Pending, Frame, Padded, Split, Holds;
      ghost var a, f, ims, slack := dev.zones, State(), images, dev.Slack();
      var h := HeaderSize(sparse);
      PaddedMore(h + dataSize, dev.bs);
      ghost var data := buffer[h..h + dataSize];
      ghost var written: seq<Byte>, rest := [], data;
      SplitFirst(buffer, h, dataSize, dev.bs);
      st := OpenIfNeeded();
      if st != Ok { return st, 0; }
      var left := dataSize;
      while left > 0
        invariant left == |rest| && Split(data, written, rest) && st == Ok
        invariant Holds(buffer, h, rest, dev.bs)
        invariant active == Some(home) && home < |dev.zones| && !IsFull(dev.zones[home])
        invariant Gained(a, f, ims, slack, written)
      {
        ghost var b, g, ims1, slack1 := dev.zones, State(), images, dev.Slack();
        SplitSize(data, written, rest);
        var n;
        n, st := SegmentAndNext(buffer, left, rest);
        Then(a, f, ims, slack, written, b, g, ims1, slack1, rest[..n]);
        SplitNext(data, written, rest, n);
        written, rest := written + rest[..n], rest[n..];
        left := left - n;
        if st != Ok { break; }
      }
      SplitLast(data, written, rest);
      HoldsRest(buffer, h, data, written, rest, dev.bs);
      done := |written|;
    }

    /** The whole round: a write, and if it has filled the zone the move to the next one. */
    method SegmentAndNext(buffer: array<Byte>, left: nat, ghost rest: seq<Byte>) returns (n: nat, st: Status)
      requires Sound() && !direct && 0 < left == |rest| < W64
      requires active == Some(home) && home < |dev.zones| && !IsFull(dev.zones[home])
      requires Holds(buffer, HeaderSize(sparse), rest, dev.bs)
      modifies this, dev, buffer
      ensures 0 < n <= left
      ensures Gained(old(dev.zones), old(State()), old(images), old(dev.Slack()), rest[..n])
      ensures Holds(buffer, HeaderSize(sparse), rest[n..], dev.bs)
      ensures st == Ok ==> active == Some(home) && home < |dev.zones| && !IsFull(dev.zones[home])
      ensures st != Ok ==> active.None?
      ensures Explained(st)
    {
      hide FileOk, ZonesOk, Progress, AllSafe, ActiveZones, Moved, Aligned, Pending, Frame, Padded;
      ghost var a, f, ims, slack := dev.zones, State(), images, dev.Slack();
      st := Ok;
      var h := HeaderSize(sparse);
      n := SegmentRound(buffer, left, rest);
      RoundFits(h + left, h + left - n, dev.bs);
      PaddedMore(h + left - n, dev.bs);
      if dev.zones[active.value].capacity == 0 {
        ghost var b, g, ims1, slack1 := dev.zones, State(), images, dev.Slack();
        st := NextForSegments(buffer, h + n, left - n);
        Then(a, f, ims, slack, rest[..n], b, g, ims1, slack1, []);
        assert rest[..n] + [] == rest[..n];
      } else {
        assert rest[n..] == [];
        assert buffer[h..h] == [];
      }
    }

    /** The zone is full: the rest of the data moves to the front of the buffer, and the next zone is taken. */
    method NextForSegments(buffer: array<Byte>, from: nat, left: nat) returns (st: Status)
      requires Sound() && !direct && active == Some(home) && home < |dev.zones| && IsFull(dev.zones[home])
      requires HeaderSize(sparse) <= from && from + left <= buffer.Length
      modifies this, dev, buffer
      ensures Gained(old(dev.zones), old(State()), old(images), old(dev.Slack()), [])
      ensures buffer[HeaderSize(sparse)..HeaderSize(sparse) + left] == old(buffer[from..from + left])
      ensures st == Ok ==> active == Some(home) && home < |dev.zones| && !IsFull(dev.zones[home])
      ensures st != Ok ==> active.None?
      ensures Explained(st)
    {
      hide FileOk, ZonesOk, Progress, AllSafe, ActiveZones, Moved, Aligned, Frame;
      ghost var a, f, ims, slack := dev.zones, State(), images, dev.Slack();
      ghost var none: seq<Byte> := [];
      assert none + none == none;
      CloseFilledZone();
      ghost var b, g, ims1, slack1 := dev.zones, State(), images, dev.Slack();
      var h := HeaderSize(sparse);
      MoveDown(buffer, h, from, left);
      st := AllocateNewZone();
      Then(a, f, ims, slack, none, b, g, ims1, slack1, none);
      ActiveHome(dev.zones, State(), GridOf(dev));
    }

    /** GetExtent: the extent that holds a file offset, and its place on the device. */
    method GetExtent(fileOffset: nat) returns (i: Option<nat>, devOffset: nat)
      ensures i.None? <==> fileOffset >= TotalLength(extents)
      ensures i.Some? ==>
        && i.value < |extents|
        && TotalLength(extents[..i.value]) <= fileOffset < TotalLength(extents[..i.value]) + extents[i.value].length
        && devOffset == extents[i.value].start + (fileOffset - TotalLength(extents[..i.value]))
    {
      var k, offset := 0, fileOffset;
      while k < |extents|
        invariant 0 <= k <= |extents|
        invariant 0 <= offset && offset + TotalLength(extents[..k]) == fileOffset
      {
        TotalStep(extents, k);
        TotalPrefix(extents, k + 1);
        if offset < extents[k].length { return Some(k), extents[k].start + offset; }
        offset := offset - extents[k].length;
        k := k + 1;
      }
      assert extents[..k] == extents;
      return None, 0;
    }

    /** One device read of PositionedRead: up to `want` bytes from place `rOff` of extent i, rounded up to
        whole blocks for a direct read, of which the first `got` are used. */
    method ReadPiece(i: nat, rOff: nat, want: nat, scratch: array<Byte>, at: nat, direct: bool, ghost offset: nat)
      returns (r: int, got: nat)
      requires dev.Valid() && ExtentsOk(dev.zones, extents) && i < |extents|
      requires extents[i].start <= rOff < extents[i].start + extents[i].length && want > 0
      requires TotalLength(extents[..i]) + (rOff - extents[i].start) == offset + at
      requires at + want + (if direct then dev.bs else 0) <= scratch.Length
      requires ReadSoFar(scratch, at, Content(dev.zones, extents), offset)
      modifies scratch, dev`faults
      ensures dev.faults >= old(dev.faults)
      ensures r > 0 ==> 0 < got <= want && rOff + got <= extents[i].start + extents[i].length
      ensures ReadSoFar(scratch, if r > 0 then at + got else at, Content(dev.zones, extents), offset)
      ensures var q := Least(want, extents[i].start + extents[i].length - rOff);
        && OnlyWithin(old(scratch[..]), scratch[..], at, at + PieceSize(q, dev.bs, direct))
        && (dev.faults == old(dev.faults) ==>
             if PieceSize(q, dev.bs, direct) < INT then
               r > 0 && got == q && Reads(dev.zones, rOff + q, scratch[at + q..at + PieceSize(q, dev.bs, direct)])
             else r < 0 || (r > 0 && got < q && PieceSize(q - got, dev.bs, direct) >= INT))
    {
      hide ExtentsOk, ExtentOk, TotalLength, ZonesOk, ActiveZones, Content, Reads, Pad, ReadSoFar, OnlyWithin, ToInt, PieceSize;
      ghost var content := Content(dev.zones, extents);
      var preadSz := want;
      var extentEnd := extents[i].start + extents[i].length;
      if preadSz + rOff > extentEnd { preadSz := extentEnd - rOff; }
      var bytesToAlign := if direct then Pad(preadSz, dev.bs) else 0;
      ghost var q := preadSz;
      preadSz := preadSz + bytesToAlign;
      PieceBound(q, dev.bs, direct);
      ghost var before, all := scratch[..at], scratch[..];
      WasRead(scratch, at, content, offset);
      IntOf(preadSz);
      r := dev.Read(scratch, at, rOff, preadSz);
      WithinIs(all, scratch[..], at, at + preadSz);
      assert scratch[..at] == before;
      got := 0;
      if r > 0 {
        got := if r <= preadSz - bytesToAlign then r else preadSz - bytesToAlign;
        PieceRead(dev.zones, extents, i, rOff, scratch[at..at + r], got, dev.bs, dev.zoneSize);
        ReadFurther(scratch, at, r, got, content, offset);
        if preadSz >= INT && dev.faults == old(dev.faults) { StillLong(q, preadSz, r, dev.bs, direct); }
        if r == preadSz { ReadBehind(scratch, dev.zones, rOff, at, q, r); }
      } else {
        ReadStill(scratch, at, content, offset);
      }
    }

    /** Where a read stands that no device fault has troubled: everything so far was short enough, or it is at
        a piece that is too long. */
    ghost predicate Course(all: seq<Byte>, now: seq<Byte>, offset: nat, read: nat, rSz: nat, i: nat, rOff: nat, direct: bool, long: bool)
      reads this, dev
      requires i < |extents| && dev.bs > 0
    {
      if long then
        && read < rSz && rOff < extents[i].start + extents[i].length
        && PieceSize(Least(rSz - read, extents[i].start + extents[i].length - rOff), dev.bs, direct) >= INT
        && !ShortPieces(extents, offset, Least(offset + rSz, TotalLength(extents)), dev.bs, direct)
      else Faultless(all, now, offset, read, direct) && ShortPieces(extents, offset, offset + read, dev.bs, direct)
    }

    /** The same, with what it does to memory as a whole, and with what it means for the range. */
    method PieceOf(i: nat, rOff: nat, rSz: nat, scratch: array<Byte>, at: nat, direct: bool, ghost offset: nat, ghost all: seq<Byte>,
                   ghost clean: bool, ghost long: bool)
      returns (r: int, got: nat, ghost long': bool)
      requires dev.Valid() && ExtentsOk(dev.zones, extents) && i < |extents|
      requires extents[i].start <= rOff < extents[i].start + extents[i].length && at < rSz
      requires TotalLength(extents[..i]) + (rOff - extents[i].start) == offset + at
      requires rSz + (if direct then dev.bs else 0) <= scratch.Length
      requires ReadSoFar(scratch, at, Content(dev.zones, extents), offset)
      requires OnlyWithin(all, scratch[..], 0, rSz + if direct then dev.bs - 1 else 0)
      requires clean ==> Course(all, scratch[..], offset, at, rSz, i, rOff, direct, long) && (at > 0 && !long ==> rOff == extents[i].start)
      modifies scratch, dev`faults
      ensures dev.faults >= old(dev.faults)
      ensures r > 0 ==> 0 < got <= rSz - at && rOff + got <= extents[i].start + extents[i].length
      ensures ReadSoFar(scratch, if r > 0 then at + got else at, Content(dev.zones, extents), offset)
      ensures OnlyWithin(all, scratch[..], 0, rSz + if direct then dev.bs - 1 else 0)
      ensures clean && dev.faults == old(dev.faults) ==>
        if r > 0 then
          && Course(all, scratch[..], offset, at + got, rSz, i, rOff + got, direct, long')
          && (!long' ==> got == Least(rSz - at, extents[i].start + extents[i].length - rOff))
        else r < 0 && !ShortPieces(extents, offset, Least(offset + rSz, TotalLength(extents)), dev.bs, direct)
    {
      hide ExtentsOk, ExtentOk, TotalLength, ZonesOk, ActiveZones, Content, Reads, Pad, ReadSoFar, OnlyWithin, ShortPieces, Course, PieceSize;
      ghost var b, q := scratch[..], Least(rSz - at, extents[i].start + extents[i].length - rOff);
      long' := PieceSize(q, dev.bs, direct) >= INT;
      PieceBound(q, dev.bs, direct);
      r, got := ReadPiece(i, rOff, rSz - at, scratch, at, direct, offset);
      WithinMore(all, b, scratch[..], at, at + PieceSize(q, dev.bs, direct), rSz + if direct then dev.bs - 1 else 0);
      if clean && dev.faults == old(dev.faults) {
        TailArray(scratch, at + q, at + PieceSize(q, dev.bs, direct));
        CourseNext(all, b, scratch[..], offset, at, got, r > 0, rSz, i, rOff, direct, long);
      }
    }

    /** One piece more. */
    lemma CourseNext(all: seq<Byte>, b: seq<Byte>, c: seq<Byte>, offset: nat, at: nat, got: nat, more: bool, rSz: nat, i: nat, rOff: nat,
                     direct: bool, long: bool)
      requires i < |extents| && dev.bs > 0 && at < rSz && extents[i].start <= rOff < extents[i].start + extents[i].length
      requires Course(all, b, offset, at, rSz, i, rOff, direct, long) && (at > 0 && !long ==> rOff == extents[i].start)
      requires TotalLength(extents[..i]) + (rOff - extents[i].start) == offset + at
      requires var q := Least(rSz - at, extents[i].start + extents[i].length - rOff);
        var size := PieceSize(q, dev.bs, direct);
        if size < INT then
          more && got == q <= size && at + size <= |c| && OnlyWithin(b, c, at, at + size) && Reads(dev.zones, rOff + q, c[at + q..at + size])
        else more ==> 0 < got < q && PieceSize(q - got, dev.bs, direct) >= INT
      ensures var q := Least(rSz - at, extents[i].start + extents[i].length - rOff);
        var long' := PieceSize(q, dev.bs, direct) >= INT;
        if more then Course(all, c, offset, at + got, rSz, i, rOff + got, direct, long')
        else !ShortPieces(extents, offset, Least(offset + rSz, TotalLength(extents)), dev.bs, direct)
    {
      hide TotalLength, Reads, Pad, OnlyWithin, Faultless, ShortPieces, Course, PieceSize;
      var q := Least(rSz - at, extents[i].start + extents[i].length - rOff);
      InContent(extents, i);
      CourseSays(all, b, offset, at, rSz, i, rOff, direct, long);
      if PieceSize(q, dev.bs, direct) >= INT {
        if !long { LongPiece(extents, i, offset, Least(offset + rSz, TotalLength(extents)), dev.bs, direct); }
        if more { CourseLong(all, c, offset, at + got, rSz, i, rOff + got, direct); }
      } else {
        ShortNext(extents, i, offset, offset + at, q, dev.bs, direct);
        FaultlessNext(all, b, c, offset, at, q, i, rOff, direct);
        CourseMoves(all, c, offset, at + got, rSz, i, rOff + got, direct);
      }
    }

    /** PositionedRead. Unless a read of the device fails or comes back empty, the result is all that the file
        has of the range if each piece of it fits an int, and an error if not; if one does fail, it is a
        beginning of that, or nothing and an error. Bytes that are
        not in an extent yet are not seen. The array is the memory from the caller's buffer of n bytes on. A
        direct read may write past the buffer, by less than a block, with what follows the range on the
        device; how far exactly, Reach says. */
    method PositionedRead(offset: nat, n: nat, scratch: array<Byte>, direct: bool) returns (st: Status, read: nat)
      requires dev.Valid() && ExtentsOk(dev.zones, extents)
      requires n + (if direct then dev.bs else 0) <= scratch.Length
      modifies scratch, dev`faults
      ensures st in {Ok, IOError} && (st == IOError ==> read == 0)
      ensures read <= scratch.Length && dev.faults >= old(dev.faults)
      ensures read > 0 ==>
        && offset + read <= Least(offset + n, Least(size, TotalLength(extents)))
        && scratch[..read] == Content(dev.zones, extents)[offset..offset + read]
      ensures OnlyWithin(old(scratch[..]), scratch[..], 0, n + if direct then dev.bs - 1 else 0)
      ensures dev.faults == old(dev.faults) ==>
        var end := Least(offset + n, Least(size, TotalLength(extents)));
        if ShortPieces(extents, offset, end, dev.bs, direct) then
          && st == Ok && read == (if offset <= end then end - offset else 0)
          && Faultless(old(scratch[..]), scratch[..], offset, read, direct)
        else st == IOError
    {
      hide ExtentsOk, ExtentOk, TotalLength, ZonesOk, ActiveZones, Content, Reads, Pad, ReadSoFar, OnlyWithin, Reach, Holder, Faultless;
      hide ShortPieces;
      ShortBehind(extents, offset, Least(offset + n, Least(size, TotalLength(extents))), dev.bs, direct);
      ghost var content, all := Content(dev.zones, extents), scratch[..];
      st, read := Ok, 0;
      WithinNone(all);
      FaultlessFirst(all, offset, direct);
      if offset >= size { return; }
      var found, rOff := GetExtent(offset);
      if found.None? { return; }
      InContent(extents, found.value);
      NothingRead(scratch, content, offset);
      var rSz := if offset + n > size then size - offset else n;
      var r;
      r, read := ReadPieces(offset, rSz, found.value, rOff, scratch, direct);
      WasRead(scratch, read, content, offset);
      WithinLess(all, scratch[..], rSz + (if direct then dev.bs - 1 else 0), n + if direct then dev.bs - 1 else 0);
      if r < 0 {
        st, read := IOError, 0;
      }
    }

    /** The loop of PositionedRead, from place `at` of extent `first` on. */
    method ReadPieces(offset: nat, rSz: nat, first: nat, at: nat, scratch: array<Byte>, direct: bool) returns (r: int, read: nat)
      requires dev.Valid() && ExtentsOk(dev.zones, extents) && first < |extents|
      requires TotalLength(extents[..first]) <= offset < TotalLength(extents[..first]) + extents[first].length
      requires at == extents[first].start + (offset - TotalLength(extents[..first]))
      requires rSz + (if direct then dev.bs else 0) <= scratch.Length
      requires ReadSoFar(scratch, 0, Content(dev.zones, extents), offset)
      modifies scratch, dev`faults
      ensures read <= rSz && dev.faults >= old(dev.faults) && ReadSoFar(scratch, read, Content(dev.zones, extents), offset)
      ensures OnlyWithin(old(scratch[..]), scratch[..], 0, rSz + if direct then dev.bs - 1 else 0)
      ensures dev.faults == old(dev.faults) ==>
        if ShortPieces(extents, offset, Least(offset + rSz, TotalLength(extents)), dev.bs, direct) then
          && r >= 0 && offset + read == Least(offset + rSz, TotalLength(extents))
          && Faultless(old(scratch[..]), scratch[..], offset, read, direct)
        else r < 0
    {
      hide ExtentsOk, ExtentOk, TotalLength, ZonesOk, ActiveZones, Content, Reads, Pad, ReadSoFar, OnlyWithin, Reach, Holder, Faultless;
      hide ShortPieces, PieceSize, Course;
      ghost var content, all, long := Content(dev.zones, extents), scratch[..], false;
      WithinNone(all);
      CourseBegins(all, offset, rSz, first, at, direct);
      var i: nat, rOff: nat := first, at;
      var extentEnd := extents[i].start + extents[i].length;
      r, read := 0, 0;
      while read != rSz
        invariant read <= rSz && r >= 0 && dev.faults >= old(dev.faults)
        invariant ReadSoFar(scratch, read, content, offset)
        invariant i < |extents| && extentEnd == extents[i].start + extents[i].length
        invariant read != rSz ==>
          && extents[i].start <= rOff < extentEnd
          && TotalLength(extents[..i]) + (rOff - extents[i].start) == offset + read
        invariant OnlyWithin(all, scratch[..], 0, rSz + if direct then dev.bs - 1 else 0)
        invariant dev.faults == old(dev.faults) ==>
          && Course(all, scratch[..], offset, read, rSz, i, rOff, direct, long)
          && (read != rSz && read > 0 && !long ==> rOff == extents[i].start)
        decreases rSz - read
      {
        var preadSz, found;
        r, preadSz, long := PieceOf(i, rOff, rSz, scratch, read, direct, offset, all, dev.faults == old(dev.faults), long);
        if r <= 0 { break; }
        read := read + preadSz;
        rOff := rOff + preadSz;
        if dev.faults == old(dev.faults) { CourseSays(all, scratch[..], offset, read, rSz, i, rOff, direct, long); }
        if read != rSz && rOff == extentEnd {
          found, rOff := GetExtent(offset + read);
          if found.None? { break; }
          BoundaryExtent(dev.zones, extents, i, found.value, offset + read);
          i := found.value;
          rOff := extents[i].start;
          extentEnd := extents[i].start + extents[i].length;
          if dev.faults == old(dev.faults) { CourseMoves(all, scratch[..], offset, read, rSz, i, rOff, direct); }
        }
      }
      WasRead(scratch, read, content, offset);
      if r >= 0 && dev.faults == old(dev.faults) { CourseSays(all, scratch[..], offset, read, rSz, i, rOff, direct, long); }
    }

    lemma CourseBegins(all: seq<Byte>, offset: nat, rSz: nat, i: nat, rOff: nat, direct: bool)
      requires i < |extents| && dev.bs > 0
      ensures Course(all, all, offset, 0, rSz, i, rOff, direct, false)
    {
      FaultlessFirst(all, offset, direct);
      ShortNone(extents, offset, dev.bs, direct);
    }

    lemma CourseSays(all: seq<Byte>, now: seq<Byte>, offset: nat, read: nat, rSz: nat, i: nat, rOff: nat, direct: bool, long: bool)
      requires i < |extents| && dev.bs > 0 && Course(all, now, offset, read, rSz, i, rOff, direct, long)
      ensures long ==>
        && read < rSz && rOff < extents[i].start + extents[i].length
        && PieceSize(Least(rSz - read, extents[i].start + extents[i].length - rOff), dev.bs, direct) >= INT
        && !ShortPieces(extents, offset, Least(offset + rSz, TotalLength(extents)), dev.bs, direct)
      ensures !long ==> Faultless(all, now, offset, read, direct) && ShortPieces(extents, offset, offset + read, dev.bs, direct)
    {
    }

    lemma CourseLong(all: seq<Byte>, now: seq<Byte>, offset: nat, read: nat, rSz: nat, i: nat, rOff: nat, direct: bool)
      requires i < |extents| && dev.bs > 0 && read < rSz && rOff < extents[i].start + extents[i].length
      requires PieceSize(Least(rSz - read, extents[i].start + extents[i].length - rOff), dev.bs, direct) >= INT
      requires !ShortPieces(extents, offset, Least(offset + rSz, TotalLength(extents)), dev.bs, direct)
      ensures Course(all, now, offset, read, rSz, i, rOff, direct, true)
    {
    }

    lemma CourseMoves(all: seq<Byte>, now: seq<Byte>, offset: nat, read: nat, rSz: nat, i: nat, rOff: nat, direct: bool)
      requires i < |extents| && dev.bs > 0
      requires Faultless(all, now, offset, read, direct) && ShortPieces(extents, offset, offset + read, dev.bs, direct)
      ensures Course(all, now, offset, read, rSz, i, rOff, direct, false)
    {
    }

    lemma FaultlessFirst(all: seq<Byte>, offset: nat, direct: bool)
      requires dev.bs > 0
      ensures Faultless(all, all, offset, 0, direct)
    {
    }

    lemma FaultlessNext(all: seq<Byte>, b: seq<Byte>, c: seq<Byte>, offset: nat, at: nat, q: nat, i: nat, rOff: nat, direct: bool)
      requires dev.bs > 0 && Faultless(all, b, offset, at, direct) && i < |extents| && 0 < q
      requires extents[i].start <= rOff && rOff + q <= extents[i].start + extents[i].length
      requires TotalLength(extents[..i]) + (rOff - extents[i].start) == offset + at && (at > 0 ==> rOff == extents[i].start)
      requires q <= PieceSize(q, dev.bs, direct) && at + PieceSize(q, dev.bs, direct) <= |c|
      requires OnlyWithin(b, c, at, at + PieceSize(q, dev.bs, direct))
      requires Reads(dev.zones, rOff + q, c[at + q..at + PieceSize(q, dev.bs, direct)])
      ensures Faultless(all, c, offset, at + q, direct)
    {
      hide TotalLength, Pad, Holder, Reads, OnlyWithin;
      InContent(extents, i);
      HolderIs(extents, offset + at + q - 1, i);
      var size := PieceSize(q, dev.bs, direct);
      PadBlock(q, dev.bs);
      WithinMore(all, b, c, at, at + size, at + size);
      WithinLess(all, b, if at == 0 then 0 else Reach(extents, offset, offset + at, dev.bs, direct), at + size);
    }

    /** Memory after device reads of [offset, offset + read), none of which has failed: it has changed up to
        the reach of the reads, and past the bytes read by a direct read it has what follows them on
        the device. */
    ghost predicate Faultless(all: seq<Byte>, now: seq<Byte>, offset: nat, read: nat, direct: bool)
      reads this, dev
    {
      if read == 0 then OnlyWithin(all, now, 0, 0)
      else
        && dev.bs > 0 && offset + read <= TotalLength(extents)
        && var reach, i := Reach(extents, offset, offset + read, dev.bs, direct), Holder(extents, offset + read - 1);
           && read <= reach <= |now| && OnlyWithin(all, now, 0, reach)
           && Reads(dev.zones, extents[i].start + (offset + read - TotalLength(extents[..i])), now[read..reach])
    }

    /** The length in the header of the block at `at`. */
    method ReadLength(buffer: array<Byte>, at: nat, ghost zs: seq<Zone>, ghost zone: nat, ghost end: nat)
      returns (ok: bool, n: nat)
      requires GridOk(GridOf(dev)) && ZonesOk(zs, dev.bs, dev.zoneSize) && SameData(zs, dev.zones)
      requires zone < |zs| && buffer.Length == dev.bs < INT && at < end
      modifies buffer, dev`faults
      ensures dev.faults >= old(dev.faults) && (!ok ==> dev.faults > old(dev.faults))
      ensures ok && Segments(zs[zone], zone, at, end, dev.bs).Some? ==>
        && zs[zone].start <= at && at - zs[zone].start + SPARSE_HEADER_SIZE <= |zs[zone].data|
        && n == HeaderLength(zs[zone], at)
    {
      hide Segments, ZonesOk, Reads, GetFixed64;
      IntOf(dev.bs);
      var ret := dev.Read(buffer, 0, at, dev.bs);
      if ret != dev.bs { return false, 0; }
      assert buffer[..] == buffer[0..ret];
      n := GetFixed64(buffer[..SPARSE_HEADER_SIZE]).value.value;
      if Segments(zs[zone], zone, at, end, dev.bs).Some? {
        SegmentsNext(zs[zone], zone, at, end, dev.bs);
        BlockHeader(zs, dev.zones, zone, at, end, buffer[..], GridOf(dev));
      }
      return true, n;
    }

    method AddExtent(e: Extent)
      requires e.zone < |dev.zones|
      modifies this`extents, dev`zones
      ensures extents == old(extents) + [e]
      ensures dev.zones == Counted(old(dev.zones), e.zone, e.length) && SameData(old(dev.zones), dev.zones)
    {
      dev.zones := dev.zones[e.zone := dev.zones[e.zone].(used := dev.zones[e.zone].used + e.length)];
      extents := extents + [e];
    }

    /** `found` has been recovered, and the rest of `all` stands from `next` on. */
    ghost predicate Following(zs: seq<Zone>, es: seq<Extent>, zone: nat, all: Option<seq<Extent>>, found: seq<Extent>, next: nat, end: nat)
      reads this, dev
    {
      && dev.bs > 0 && zone < |zs| && all == Joined(found, Segments(zs[zone], zone, next, end, dev.bs))
      && extents == es + found && dev.zones == Counted(zs, zone, TotalLength(found))
    }

    /** One write recovered. */
    method RecoverOne(buffer: array<Byte>, zone: nat, next: nat, end: nat,
                      ghost zs: seq<Zone>, ghost es: seq<Extent>, ghost all: Option<seq<Extent>>, ghost found: seq<Extent>)
      returns (st: Status, next': nat, ghost found': seq<Extent>)
      requires GridOk(GridOf(dev)) && ZonesOk(zs, dev.bs, dev.zoneSize) && SameData(zs, dev.zones)
      requires zone < |zs| && buffer.Length == dev.bs < INT && next < end
      requires all.Some? ==> Following(zs, es, zone, all, found, next, end)
      modifies this`extents, dev`zones, dev`faults, buffer
      ensures SameData(zs, dev.zones) && dev.faults >= old(dev.faults)
      ensures st == Ok ==> next < next' && (all.Some? ==> Following(zs, es, zone, all, found', next', end))
      ensures st != Ok ==> st == IOError && (all.Some? ==> dev.faults > old(dev.faults))
    {
      hide Segments, ZonesOk, Padded, TotalLength, HeaderLength, Counted, SameData;
      st, next', found' := Ok, next, found;
      if all.Some? { FollowNext(zs[zone], zone, all, found, next, end, dev.bs); }
      var ok, n := ReadLength(buffer, next, zs, zone, end);
      if !ok || n == 0 { return IOError, next, found; }
      SameLength(zs, dev.zones);
      var e := Extent(next + SPARSE_HEADER_SIZE, n, zone);
      Snoc(found, e, 0);
      CountedTwice(zs, zone, TotalLength(found), n);
      PaddedMore(SPARSE_HEADER_SIZE + n, dev.bs);
      ghost var b := dev.zones;
      AddExtent(e);
      SameDataTwice(zs, b, dev.zones);
      found' := found + [e];
      next' := next + Padded(SPARSE_HEADER_SIZE + n, dev.bs);
    }

    /** RecoverSparseExtents: follows the headers from `start` to `end`, reading a block for each. It gives
        exactly the writes that stand there, unless a read fails. */
    method RecoverSparseExtents(start: nat, end: nat, zone: nat) returns (st: Status)
      requires GridOk(GridOf(dev)) && dev.bs < INT && ZonesOk(dev.zones, dev.bs, dev.zoneSize) && zone < |dev.zones|
      modifies this`extents, dev`zones, dev`faults
      ensures st in {Ok, IOError} && dev.faults >= old(dev.faults)
      ensures var segments := Segments(old(dev.zones)[zone], zone, start, end, dev.bs);
        segments.Some? ==>
          && (dev.faults == old(dev.faults) ==> st == Ok)
          && (st == Ok ==>
                && extents == old(extents) + segments.value
                && dev.zones == Counted(old(dev.zones), zone, TotalLength(segments.value)))
    {
      hide Segments, ZonesOk, Padded, TotalLength, SameData;
      st := Ok;
      var buffer := new Byte[dev.bs];
      var next := start;
      ghost var all := Segments(dev.zones[zone], zone, start, end, dev.bs);
      ghost var found: seq<Extent> := [];
      FollowFirst(dev.zones[zone], zone, start, end, dev.bs);
      CountedNone(dev.zones, zone);
      while next < end
        invariant st == Ok && SameData(old(dev.zones), dev.zones) && dev.faults >= old(dev.faults)
        invariant all.Some? ==> Following(old(dev.zones), old(extents), zone, all, found, next, end)
        decreases end - next
      {
        st, next, found := RecoverOne(buffer, zone, next, end, old(dev.zones), old(extents), all, found);
        if st != Ok { return; }
      }
      if all.Some? { FollowLast(old(dev.zones)[zone], zone, all, found, next, end, dev.bs); }
    }

    /** Recover, for a file as replay has left it: it carries out Recovery.Recover, unless a read fails. */
    method Recover() returns (st: Status)
      requires GridOk(GridOf(dev)) && dev.bs < INT && ZonesOk(dev.zones, dev.bs, dev.zoneSize)
      modifies this`extents, this`extentStart, this`size, dev`zones, dev`faults
      ensures st in {Ok, IOError}
      ensures var found := Recovery.Recover(old(dev.zones), Saved(old(extents), old(extentStart), old(size)), sparse, GridOf(dev));
        found.Recovered? ==>
          && (dev.faults == old(dev.faults) ==> st == Ok)
          && (st == Ok ==>
                && extents == found.extents && size == found.size && extentStart.None?
                && CountsMoved(old(dev.zones), old(extents), dev.zones, extents))
    {
      hide Segments, ZonesOk, TotalLength, UsedBy;
      st := Ok;
      if extentStart.None? {
        SameCounts(dev.zones, extents);
        return;
      }
      var start := extentStart.value;
      var zone := dev.GetIOZone(start);
      if zone.None? { return IOError; }
      var z: nat := zone.value;
      if dev.zones[z].wp < start { return IOError; }
      var toRecover := dev.zones[z].wp - start;
      if toRecover == 0 {
        extentStart := None;
        SameCounts(dev.zones, extents);
        return;
      }
      if sparse {
        st := RecoverSparseExtents(start, dev.zones[z].wp, z);
        if st != Ok { return; }
        if Segments(old(dev.zones)[z], z, start, old(dev.zones)[z].wp, dev.bs).Some? {
          SegmentsCounts(old(dev.zones), old(extents), z, start, old(dev.zones)[z].wp, dev.bs);
        }
      } else {
        OneCount(dev.zones, extents, Extent(start, toRecover, z));
        AddExtent(Extent(start, toRecover, z));
      }
      extentStart := None;
      size := 0;
      var i := 0;
      TotalNone();
      while i < |extents|
        invariant 0 <= i <= |extents| && size == TotalLength(extents[..i])
        modifies this`size
      {
        TotalStep(extents, i);
        size := size + extents[i].length;
        i := i + 1;
      }
      assert extents[..i] == extents;
    }

    ghost method NoProgress()
      requires Sound()
      ensures Gained(dev.zones, State(), images, dev.Slack(), [])
    {
      ProgressNot(dev.zones, State(), images, GridOf(dev));
    }
  }
}
