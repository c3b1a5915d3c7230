/** ZonedWritableFile (AquaZFS/fs/io_aquafs.cc): the buffer in front of a ZoneFile, and what append, sync
    and close promise of it. */
module WritableFile {
  import opened Coding
  import opened Zoned
  import opened Extents
  import opened ZonedDevice
  import opened FileSteps
  import opened Images
  import opened ZoneFiles

  class ZonedWritableFile {
    const file: ZoneFile
    const buffer: array<Byte>
    const bufferSz: nat
    var pos: nat
    var open: bool

    /** `buffer` is the sparse buffer, header place included, for a sparse file. */
    constructor (file: ZoneFile, bufferSz: nat)
      requires file.Valid() && 0 < bufferSz < W64
      ensures Valid() && this.file == file && this.bufferSz == bufferSz && pos == 0 && open && fresh(buffer)
    {
      this.file, this.bufferSz := file, bufferSz;
      buffer := new Byte[Padded(HeaderSize(file.sparse) + bufferSz, file.dev.bs)];
      pos, open := 0, true;
    }

    ghost predicate Valid()
      reads this, file, file.dev
    {
      && file.Valid() && 0 < bufferSz < W64 && pos <= bufferSz
      && Padded(HeaderSize(file.sparse) + bufferSz, file.dev.bs) <= buffer.Length
      && (file.direct ==> pos == 0)
    }

    ghost function Buffered(): (s: seq<Byte>)
      reads this, file, file.dev, buffer
      requires Valid()
      ensures |s| == pos
    {
      PaddedMore(HeaderSize(file.sparse) + bufferSz, file.dev.bs);
      buffer[HeaderSize(file.sparse)..HeaderSize(file.sparse) + pos]
    }

    /** FlushBuffer. If it fails, what is left to write has moved to the front of the buffer, but the buffer counts
        as full as it was. */
    method FlushBuffer() returns (st: Status, ghost done: nat)
      requires Valid() && !file.direct
      modifies this, file, file.dev, buffer
      ensures Valid() && open == old(open)
      ensures done <= |old(Buffered())|
      ensures file.Gained(old(file.dev.zones), old(file.State()), old(file.images), old(file.dev.Slack()), old(Buffered())[..done])
      ensures st == Ok ==> pos == 0 && done == |old(Buffered())|
      ensures st != Ok ==> pos == old(pos) && Buffered()[..pos - done] == old(Buffered())[done..]
      ensures file.Explained(st)
    {
      hide FileOk, ZonesOk, Progress, AllSafe, ActiveZones, Padded, Moved;
      if pos == 0 {
        file.NoProgress();
        return Ok, 0;
      }
      RoundFits(HeaderSize(file.sparse) + bufferSz, HeaderSize(file.sparse) + pos, file.dev.bs);
      st, done := file.AppendSegments(buffer, pos);
      if st == Ok {
        pos := 0;
      } else {
        PaddedMore(HeaderSize(file.sparse) + bufferSz, file.dev.bs);
        PartOf(buffer, HeaderSize(file.sparse), pos, pos - done);
      }
    }

    /** BufferedWrite. The length goes through 32 bits. `flushed` is what has gone to the device on the way. */
    method BufferedWrite(slice: seq<Byte>) returns (st: Status, ghost flushed: seq<Byte>)
      requires Valid() && !file.direct
      modifies this, file, file.dev, buffer
      ensures Valid() && open == old(open)
      ensures file.Gained(old(file.dev.zones), old(file.State()), old(file.images), old(file.dev.Slack()), flushed)
      ensures flushed <= old(Buffered()) + Accepted(slice)
      ensures st == Ok ==> flushed + Buffered() == old(Buffered()) + Accepted(slice)
      ensures file.Explained(st)
    {
      hide FileOk, ZonesOk, Progress, AllSafe, ActiveZones, Padded, Moved;
      ghost var a, f, ims, slack := file.dev.zones, file.State(), file.images, file.dev.Slack();
      var data := Accepted(slice);
      ghost var stream := Buffered() + data;
      st, flushed := Ok, [];
      file.NoProgress();
      var offset := 0;
      while offset < |data|
        invariant 0 <= offset <= |data| && st == Ok
        invariant Valid() && open == old(open)
        invariant file.Gained(a, f, ims, slack, flushed)
        invariant flushed + Buffered() + data[offset..] == stream
      {
        ghost var b, g, ims1, slack1 := file.dev.zones, file.State(), file.images, file.dev.Slack();
        ghost var held, rest := Buffered(), data[offset..];
        ghost var out;
        var n;
        st, n, out := WriteSome(data, offset);
        file.Then(a, f, ims, slack, flushed, b, g, ims1, slack1, out);
        Moving(flushed, held, rest, out);
        ghost var before := flushed;
        flushed := flushed + out;
        if st != Ok { return; }
        Refill(before, held, data, offset, n, out, Buffered());
        offset := offset + n;
      }
    }

    /** One round of BufferedWrite: a full buffer is flushed, and what fits goes in. */
    method WriteSome(data: seq<Byte>, offset: nat) returns (st: Status, n: nat, ghost out: seq<Byte>)
      requires Valid() && !file.direct && offset < |data|
      modifies this, file, file.dev, buffer
      ensures Valid() && open == old(open) && file.Explained(st)
      ensures file.Gained(old(file.dev.zones), old(file.State()), old(file.images), old(file.dev.Slack()), out)
      ensures out <= old(Buffered())
      ensures st == Ok ==> 0 < n <= |data| - offset && out + Buffered() == old(Buffered()) + data[offset..offset + n]
    {
      hide FileOk, ZonesOk, Progress, AllSafe, ActiveZones, Padded, Moved, Buffered;
      st, n, out := Ok, 0, [];
      ghost var held := Buffered();
      file.NoProgress();
      if bufferSz - pos == 0 {
        ghost var done;
        st, done := FlushBuffer();
        out := held[..done];
        if st != Ok { return; }
      }
      n := if |data| - offset > bufferSz - pos then bufferSz - pos else |data| - offset;
      ghost var left := Buffered();
      assert out + left == held;
      Fill(data[offset..offset + n]);
      Regroup(out, left, data[offset..offset + n]);
    }

    /** memcpy behind what the buffer holds. */
    method Fill(s: seq<Byte>)
      requires Valid() && !file.direct && pos + |s| <= bufferSz
      modifies this`pos, buffer
      ensures Valid() && Buffered() == old(Buffered()) + s
    {
      hide FileOk, ZonesOk, Progress, AllSafe, ActiveZones, Padded, Moved;
      PaddedMore(HeaderSize(file.sparse) + bufferSz, file.dev.bs);
      ghost var held := Buffered();
      var at := HeaderSize(file.sparse) + pos;
      Overwrite(buffer, at, s);
      pos := pos + |s|;
      assert Buffered() == held + s;
    }

    /** DataSync. */
    method DataSync() returns (st: Status, ghost done: nat)
      requires Valid()
      modifies this, file, file.dev, buffer
      ensures Valid() && open == old(open)
      ensures done <= |old(Buffered())|
      ensures file.Gained(old(file.dev.zones), old(file.State()), old(file.images), old(file.dev.Slack()), old(Buffered())[..done])
      ensures st == Ok ==> pos == 0 && done == |old(Buffered())| && Pending(file.State()) == 0
      ensures st == Ok && !file.direct && !file.sparse ==> file.State() == Persisted(file.State())
      ensures file.Explained(st)
    {
      hide FileOk, ZonesOk, Progress, AllSafe, ActiveZones, Padded, Moved;
      if !file.direct {
        ghost var a, f, ims, slack := file.dev.zones, file.State(), file.images, file.dev.Slack();
        ghost var held := Buffered();
        st, done := FlushBuffer();
        if st != Ok { return; }
        if !file.sparse {
          ghost var b, g, ims1, slack1 := file.dev.zones, file.State(), file.images, file.dev.Slack();
          file.PersistMetadata();
          file.Then(a, f, ims, slack, held[..done], b, g, ims1, slack1, []);
          assert held[..done] + [] == held[..done];
        }
      } else {
        st, done := Ok, 0;
        file.PushExtent();
        assert old(Buffered())[..0] == [];
      }
    }

    /** Fsync: afterwards all that was appended is on the device, and the record knows its extents, or for a
        sparse file the headers tell. */
    method Fsync() returns (st: Status, ghost done: nat)
      requires Valid()
      modifies this, file, file.dev, buffer
      ensures Valid() && open == old(open)
      ensures done <= |old(Buffered())|
      ensures file.Gained(old(file.dev.zones), old(file.State()), old(file.images), old(file.dev.Slack()), old(Buffered())[..done])
      ensures st == Ok ==> pos == 0 && done == |old(Buffered())| && file.State() == Persisted(file.State())
      ensures file.Explained(st)
    {
      hide FileOk, ZonesOk, Progress, AllSafe, ActiveZones, Padded, Moved;
      ghost var a, f, ims, slack := file.dev.zones, file.State(), file.images, file.dev.Slack();
      ghost var held := Buffered();
      st, done := DataSync();
      if st != Ok || (!file.direct && !file.sparse) { return; }
      ghost var b, g, ims1, slack1 := file.dev.zones, file.State(), file.images, file.dev.Slack();
      file.PersistMetadata();
      file.Then(a, f, ims, slack, held[..done], b, g, ims1, slack1, []);
      assert held[..done] + [] == held[..done];
    }

    /** CloseInternal: sync, then a record that nothing is open, and only then the zone is given back. */
    method Close() returns (st: Status, ghost done: nat)
      requires Valid()
      modifies this, file, file.dev, buffer
      ensures Valid()
      ensures done <= |old(Buffered())|
      ensures file.Gained(old(file.dev.zones), old(file.State()), old(file.images), old(file.dev.Slack()), old(Buffered())[..done])
      ensures !old(open) ==> st == Ok && file.State() == old(file.State())
      ensures old(open) && st == Ok ==> !open && pos == 0 && done == |old(Buffered())| && file.State() == Closed(file.State())
      ensures file.Explained(st)
    {
      hide FileOk, ZonesOk, Progress, AllSafe, ActiveZones, Padded, Moved;
      if !open {
        file.NoProgress();
        assert old(Buffered())[..0] == [];
        return Ok, 0;
      }
      ghost var a, f, ims, slack := file.dev.zones, file.State(), file.images, file.dev.Slack();
      ghost var held := Buffered();
      st, done := DataSync();
      if st != Ok { return; }
      ghost var b, g, ims1, slack1 := file.dev.zones, file.State(), file.images, file.dev.Slack();
      file.CloseWR();
      file.Then(a, f, ims, slack, held[..done], b, g, ims1, slack1, []);
      assert held[..done] + [] == held[..done];
      open := false;
    }

    /** Append: through the buffer, or straight to the zones in whole blocks. `flushed` reached the device. What is
        accepted is the length modulo 2^32. */
    method Append(data: array<Byte>, n: nat) returns (st: Status, ghost flushed: seq<Byte>)
      requires Valid() && n <= data.Length && data != buffer
      requires file.direct ==> Aligned(n % W32, file.dev.bs)
      modifies this, file, file.dev, buffer
      ensures Valid() && open == old(open)
      ensures file.Gained(old(file.dev.zones), old(file.State()), old(file.images), old(file.dev.Slack()), flushed)
      ensures flushed <= old(Buffered()) + Accepted(data[..n])
      ensures st == Ok ==> flushed + Buffered() == old(Buffered()) + Accepted(data[..n])
      ensures st == Ok ==> (flushed + Buffered() == old(Buffered()) + data[..n] <==> n < W32)
      ensures file.Explained(st)
    {
      hide FileOk, ZonesOk, Progress, AllSafe, ActiveZones, Padded, Moved;
      AllAccepted(data[..n], Buffered());
      if !file.direct {
        st, flushed := BufferedWrite(data[..n]);
      } else {
        ghost var done;
        st, done := file.Append(data, n);
        flushed := data[..done];
        assert old(Buffered()) == [];
        assert Accepted(data[..n]) == data[..n % W32];
        assert old(Buffered()) + Accepted(data[..n]) == data[..n % W32];
        assert flushed <= data[..n % W32];
        assert flushed + Buffered() == flushed;
      }
    }
  }

  /** What of some data an append takes: its length modulo 2^32. */
  function Accepted(data: seq<Byte>): (r: seq<Byte>)
    ensures r <= data && (r == data <==> |data| < W32)
  {
    data[..|data| % W32]
  }

  lemma AllAccepted(data: seq<Byte>, held: seq<Byte>)
    ensures held + Accepted(data) == held + data <==> |data| < W32
  {
    if |data| >= W32 { assert |held + Accepted(data)| < |held + data|; }
  }

  /** Exactly 2^32 bytes are acknowledged without one of them being taken. */
  lemma NothingAccepted(data: seq<Byte>)
    requires |data| == W32
    ensures Accepted(data) == []
  {
  }

  // ---------------------------------------------------------------- a flush that is tried again

  /** After a flush that has failed with `done` bytes written, a flush that succeeds writes what the buffer then
      holds. The file has gained all that was buffered and `done` bytes too many: it is what it should be if
      and only if the first flush had written nothing. */
  lemma RetryRepeats(held: seq<Byte>, done: nat, now: seq<Byte>)
    requires done <= |held| == |now| && now[..|held| - done] == held[done..]
    ensures held <= held[..done] + now && |held[..done] + now| == |held| + done
    ensures held[..done] + now == held <==> done == 0
  {
    assert held[..done] + now == held[..done] + now[..|held| - done] + now[|held| - done..];
    assert held[..done] + held[done..] == held;
  }

  lemma PartOf(buffer: array<Byte>, h: nat, pos: nat, n: nat)
    requires n <= pos && h + pos <= buffer.Length
    ensures buffer[h..h + pos][..n] == buffer[h..h + n]
  {
  }

  lemma Regroup(a: seq<Byte>, b: seq<Byte>, c: seq<Byte>)
    ensures a + (b + c) == a + b + c
  {
  }

  lemma Moving(flushed: seq<Byte>, held: seq<Byte>, rest: seq<Byte>, out: seq<Byte>)
    requires out <= held
    ensures flushed + out <= flushed + held + rest
  {
    assert flushed + held + rest == flushed + out + (held[|out|..] + rest);
  }

  lemma Refill(before: seq<Byte>, held: seq<Byte>, data: seq<Byte>, offset: nat, n: nat, out: seq<Byte>, held': seq<Byte>)
    requires offset + n <= |data| && out + held' == held + data[offset..offset + n]
    ensures before + out + held' + data[offset + n..] == before + held + data[offset..]
  {
    assert data[offset..] == data[offset..offset + n] + data[offset + n..];
    assert before + out + held' == before + (out + held');
    assert before + held + data[offset..offset + n] == before + (held + data[offset..offset + n]);
  }
}
