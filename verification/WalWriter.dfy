/** Writing and reading WAL files step by step: the buffer in front of the file, the writer that
    chunks, wraps and frames blocks, and the reader. */
module WalWriter {
  import opened WalNames
  import opened WalFormat

  /** The buffered writer over a file. The file accepts `room` more bytes and then fails; the buffer
      never tries again after a failed write, so this covers a failure at any point. `stream` is
      everything that was handed to `Write` before the failure, `capacity` how much the file takes
      in all. */
  class BufferedFile {
    var disk: Bytes
    var buf: Bytes
    var failed: bool
    var room: nat
    const size: nat
    ghost var stream: Bytes
    ghost var capacity: nat

    ghost predicate Valid()
      reads this
    {
      && |buf| <= size
      && disk <= stream
      && (!failed ==> stream == disk + buf)
      && |disk| + room == capacity && (failed ==> room == 0 && |disk| < |stream|)
    }

    constructor (size: nat, room: nat)
      requires size > 0
      ensures Valid() && disk == [] && stream == [] && !failed && this.size == size && this.room == room
      ensures capacity == room
    {
      this.size, this.room, capacity := size, room, room;
      disk, buf, stream, failed := [], [], [], false;
    }

    /** The file accepts what it has room for. */
    method WriteToFile(p: Bytes) returns (n: nat)
      modifies this`disk, this`room
      ensures n <= |p| && disk == old(disk) + p[..n] && room == old(room) - n
      ensures if n == |p| then disk == old(disk) + p else room == 0
    {
      n := if |p| <= room then |p| else room;
      disk := disk + p[..n];
      room := room - n;
      assert n == |p| ==> p[..n] == p;
    }

    method Flush() returns (ok: bool)
      requires Valid()
      modifies this`disk, this`buf, this`failed, this`room
      ensures Valid() && ok == !failed && old(disk) <= disk
      ensures old(failed) ==> failed && disk == old(disk)
      ensures ok ==> buf == [] && disk == stream
      ensures old(room) == 0 ==> room == 0 && disk == old(disk)
    {
      if failed {
        return false;
      }
      if buf == [] {
        return true;
      }
      var n := WriteToFile(buf);
      if n < |buf| {
        PrefixOfSum(old(disk), buf, n);
        buf := buf[n..];
        failed := true;
        return false;
      }
      buf := [];
      return true;
    }

    /** A large write with an empty buffer bypasses it. */
    method WriteThrough(p: Bytes)
      requires Valid() && !failed && buf == []
      modifies this
      ensures Valid() && old(disk) <= disk && stream == old(stream) + p && buf == [] && capacity == old(capacity)
      ensures old(room) == 0 ==> room == 0 && disk == old(disk)
    {
      ghost var before := disk;
      var n := WriteToFile(p);
      stream := stream + p;
      PrefixOfSum(before, p, n);
      failed := n < |p|;
    }

    method FillAndFlush(p: Bytes)
      requires Valid() && !failed && |buf| + |p| <= size
      modifies this
      ensures Valid() && old(disk) <= disk && stream == old(stream) + p && (failed || buf == [])
      ensures capacity == old(capacity)
      ensures old(room) == 0 ==> room == 0 && disk == old(disk)
    {
      buf, stream := buf + p, stream + p;
      var _ := Flush();
    }

    method Write(p: Bytes) returns (ok: bool)
      requires Valid() && size > 0
      modifies this
      ensures Valid() && ok == !failed && old(disk) <= disk && capacity == old(capacity)
      ensures stream == if old(failed) then old(stream) else old(stream) + p
      ensures old(failed) ==> failed && disk == old(disk)
      ensures old(room) == 0 ==> room == 0 && disk == old(disk)
    {
      if failed {
        return false;
      }
      var done: nat := 0;
      while |p| - done > size - |buf| && !failed
        invariant Valid() && old(disk) <= disk && done <= |p| && capacity == old(capacity)
        invariant stream == old(stream) + p[..done]
        invariant old(room) == 0 ==> room == 0 && disk == old(disk)
        decreases !failed, |p| - done + |buf|
      {
        var n := if buf == [] then |p| - done else size - |buf|;
        AppendSlice(old(stream), p, done, done + n);
        if buf == [] {
          WriteThrough(p[done..done + n]);
        } else {
          FillAndFlush(p[done..done + n]);
        }
        done := done + n;
      }
      AppendSlice(old(stream), p, done, |p|);
      if failed {
        PrefixExtends(disk, old(stream) + p[..done], p[done..]);
        stream := old(stream) + p;
        return false;
      }
      buf, stream := buf + p[done..], stream + p[done..];
      return true;
    }
  }

  lemma {:induction false} AppendSlice(s: Bytes, p: Bytes, i: nat, j: nat)
    requires i <= j <= |p|
    ensures s + p[..i] + p[i..j] == s + p[..j]
    ensures j == |p| ==> p[i..j] == p[i..] && s + p[..j] == s + p
  {
    assert p[..i] + p[i..j] == p[..j];
  }

  lemma {:induction false} PrefixExtends(d: Bytes, s: Bytes, t: Bytes)
    requires d <= s
    ensures d <= s + t
  {
  }

  lemma {:induction false} PrefixOfSum(a: Bytes, b: Bytes, n: nat)
    requires n <= |b|
    ensures a + b[..n] <= a + b
  {
  }

  /** Wrapping compresses and encrypts, with a fresh nonce each time; it may fail. */
  type Wrapper = (Bytes, nat) -> Option<Bytes>

  ghost predicate Inverse(wrap: Wrapper, unwrap: Unwrapper) {
    forall c, nonce :: wrap(c, nonce).Some? ==>
      |wrap(c, nonce).value| < UINT64 && unwrap(wrap(c, nonce).value) == Some(c)
  }

  ghost predicate NeverFails(wrap: Wrapper) {
    forall c, nonce :: wrap(c, nonce).Some?
  }

  /** `DirectWriter`. `chunks` are the chunks written successfully; `frames` are the frames they
      went into, and the one that was being written when the file failed. */
  class DirectWriter {
    const out: BufferedFile
    const wrap: Wrapper
    const fileLength: nat
    var nonce: nat
    var closed: bool
    ghost const unwrap: Unwrapper
    ghost var frames: seq<Bytes>
    ghost var contents: seq<Bytes>
    ghost var chunks: seq<Bytes>

    ghost predicate Valid()
      reads this, out
    {
      && out.Valid() && out.size > 0 && Inverse(wrap, unwrap) && fileLength < UINT64
      && Holds(unwrap, frames, contents) && chunks <= contents
      && out.stream <= Header(fileLength) + Stream(frames)
      && (closed ==> out.room == 0)
      && (!out.failed ==> chunks == contents && out.stream == Header(fileLength) + Stream(frames))
    }

    /** The header goes through the buffer as well; the writer is usable if `!out.failed`. */
    constructor (out: BufferedFile, wrap: Wrapper, fileLength: nat, ghost unwrap: Unwrapper)
      requires out.Valid() && out.size > 0 && out.stream == [] && !out.failed
      requires fileLength < UINT64 && Inverse(wrap, unwrap)
      modifies out
      ensures Valid() && this.out == out && this.fileLength == fileLength && this.unwrap == unwrap
      ensures chunks == [] && frames == [] && !closed && this.wrap == wrap && out.capacity == old(out.capacity)
      ensures out.failed ==> out.capacity < |Header(fileLength)|
    {
      this.out, this.wrap, this.fileLength, this.unwrap := out, wrap, fileLength, unwrap;
      nonce, closed, frames, contents, chunks := 0, false, [], [], [];
      new;
      assert Header(fileLength) + Stream([]) == [] + Header(fileLength);
      var _ := out.Write(Header(fileLength));
    }

    method WriteBlockData(w: Bytes, ghost c: Bytes) returns (ok: bool)
      requires Valid() && |w| < UINT64 && unwrap(w) == Some(c)
      modifies this`frames, this`contents, this`chunks, out
      ensures Valid() && ok == !out.failed && old(out.disk) <= out.disk && out.capacity == old(out.capacity)
      ensures chunks == if ok then old(chunks) + [c] else old(chunks)
      ensures old(out.failed) ==> out.failed && out.disk == old(out.disk) && out.stream == old(out.stream)
      ensures closed ==> out.disk == old(out.disk)
    {
      if out.failed {
        ok := out.Write(Fixed64(|w|));
        return false;
      }
      ghost var before := out.stream;
      FrameInTwo(before, Header(fileLength), frames, w);
      ok := out.Write(Fixed64(|w|));
      if ok {
        ok := out.Write(w);
      }
      HoldsOneMore(unwrap, frames, contents, chunks, w, c);
      frames, contents := frames + [w], contents + [c];
      if ok { chunks := chunks + [c]; }
    }

    method WriteBlock(data: Bytes) returns (ok: bool)
      requires Valid()
      modifies this, out
      ensures Valid() && old(out.disk) <= out.disk && closed == old(closed) && out.capacity == old(out.capacity)
      ensures !ok && NeverFails(wrap) ==> out.failed
      ensures ok ==> chunks == old(chunks) + Chunks(data)
      ensures old(chunks) <= chunks <= old(chunks) + Chunks(data)
      ensures old(out.failed) ==> out.failed && out.disk == old(out.disk)
      ensures old(out.failed) && data != [] ==> !ok
      ensures closed ==> out.disk == old(out.disk)
    {
      var start: nat := 0;
      ghost var written: seq<Bytes> := [];
      while start < |data|
        invariant start <= |data| && Valid() && old(out.disk) <= out.disk && closed == old(closed)
        invariant out.capacity == old(out.capacity)
        invariant chunks == old(chunks) + written && written + ChunksFrom(data, start) == Chunks(data)
        invariant old(out.failed) ==> out.failed && out.disk == old(out.disk) && start == 0
        invariant closed ==> out.disk == old(out.disk)
      {
        var end := ChunkEnd(data, start);
        Regroup(written, data[start..end], ChunksFrom(data, end));
        ok := WriteChunk(data[start..end]);
        if !ok {
          return false;
        }
        written := written + [data[start..end]];
        start := end;
      }
      assert written + [] == written;
      return true;
    }

    method WriteChunk(chunk: Bytes) returns (ok: bool)
      requires Valid()
      modifies this, out
      ensures Valid() && old(out.disk) <= out.disk && closed == old(closed) && out.capacity == old(out.capacity)
      ensures chunks == if ok then old(chunks) + [chunk] else old(chunks)
      ensures ok ==> !out.failed
      ensures !ok && NeverFails(wrap) ==> out.failed
      ensures old(out.failed) ==> !ok && out.failed && out.disk == old(out.disk)
      ensures closed ==> out.disk == old(out.disk)
    {
      var wrapped := wrap(chunk, nonce);
      nonce := nonce + 1;
      if wrapped.None? {
        return false;
      }
      ok := WriteBlockData(wrapped.value, chunk);
    }

    /** `Flush`: the buffer, then an fsync that succeeds or not. */
    method Flush(syncOk: bool) returns (ok: bool)
      requires Valid()
      modifies out
      ensures Valid() && old(out.disk) <= out.disk && out.stream == old(out.stream)
      ensures ok ==> out.disk == Header(fileLength) + Stream(frames)
      ensures ok <==> syncOk && !out.failed
      ensures old(out.failed) ==> out.failed && out.disk == old(out.disk)
      ensures closed ==> out.disk == old(out.disk)
    {
      ok := out.Flush();
      ok := ok && syncOk;
    }

    /** `Close`: a file is closed once, and takes no more bytes afterwards. */
    method Close(closeOk: bool) returns (ok: bool)
      requires Valid()
      modifies this`closed, out
      ensures Valid() && old(out.disk) <= out.disk && out.stream == old(out.stream)
      ensures ok ==> closeOk && closed && !out.failed && out.disk == Header(fileLength) + Stream(frames)
      ensures old(closed) ==> closed && !ok && out.disk == old(out.disk)
      ensures !ok ==> out.capacity == old(out.capacity) && (old(closed) || !closeOk || out.failed)
      ensures old(out.failed) ==> !ok && out.failed
    {
      ok := out.Flush();
      if !ok {
        return false;
      }
      if closed || !closeOk {
        return false;
      }
      closed := true;
      out.room, out.capacity := 0, |out.disk|;
    }
  }

  lemma {:induction false} FrameInTwo(s: Bytes, h: Bytes, frames: seq<Bytes>, w: Bytes)
    requires s == h + Stream(frames)
    ensures s + Fixed64(|w|) + w == h + Stream(frames + [w])
    ensures s + Fixed64(|w|) <= h + Stream(frames + [w])
  {
    StreamAppend(frames, w);
    Associate(h, Stream(frames), Fixed64(|w|), w);
  }

  lemma {:induction false} Associate(h: Bytes, stream: Bytes, prefix: Bytes, w: Bytes)
    ensures h + stream + prefix + w == h + (stream + (prefix + w))
    ensures h + stream + prefix <= h + (stream + (prefix + w))
  {
  }

  lemma {:induction false} HoldsOneMore(unwrap: Unwrapper, frames: seq<Bytes>, contents: seq<Bytes>, chunks: seq<Bytes>,
                                        w: Bytes, c: Bytes)
    requires Holds(unwrap, frames, contents) && chunks <= contents && |w| < UINT64 && unwrap(w) == Some(c)
    ensures Holds(unwrap, frames + [w], contents + [c]) && chunks <= contents + [c]
  {
  }

  lemma {:induction false} Regroup(a: seq<Bytes>, c: Bytes, b: seq<Bytes>)
    ensures a + ([c] + b) == a + [c] + b && a <= a + [c] + b
  {
  }

  /** Writing blocks of any length, then closing: the file reads back as its length and the chunks
      of the blocks, with nothing behind them, unless wrapping or closing fails or the file is full. */
  method WriteFile(blocks: seq<Bytes>, fileLength: nat, wrap: Wrapper, ghost unwrap: Unwrapper,
                   bufferSize: nat, room: nat, closeOk: bool)
    returns (ok: bool, disk: Bytes)
    requires fileLength < UINT64 && bufferSize > 0 && Inverse(wrap, unwrap)
    ensures ok ==> exists rest ::
      && ReadHeader(disk) == GotHeader(fileLength, rest)
      && ReadAll(unwrap, rest) == Decoded(AllChunks(blocks), EndOfFile([]))
    ensures ok ==> closeOk
    ensures ok || !closeOk || !NeverFails(wrap) || |disk| == room
  {
    var out := new BufferedFile(bufferSize, room);
    var writer := new DirectWriter(out, wrap, fileLength, unwrap);
    if out.failed {
      return false, out.disk;
    }
    for i := 0 to |blocks|
      invariant fresh(out) && fresh(writer) && writer.out == out && writer.Valid()
      invariant writer.fileLength == fileLength && writer.unwrap == unwrap && writer.wrap == wrap
      invariant !writer.closed && out.capacity == room
      invariant writer.chunks == AllChunks(blocks[..i])
    {
      var written := writer.WriteBlock(blocks[i]);
      if !written {
        return false, out.disk;
      }
      assert blocks[..i + 1][..i] == blocks[..i];
    }
    assert blocks[..|blocks|] == blocks;
    ok := writer.Close(closeOk);
    disk := out.disk;
    if ok {
      ReadWritten(unwrap, fileLength, writer.frames, writer.chunks);
    }
  }

  // --------------------------------------------------------------- reading

  datatype FullRead = Full | Eof | UnexpectedEof

  /** `Reader`: what is left of the file, advanced by every read. */
  class Reader {
    var rest: Bytes
    const unwrap: Unwrapper
    const fileLength: nat

    constructor (rest: Bytes, fileLength: nat, unwrap: Unwrapper)
      ensures this.rest == rest && this.fileLength == fileLength && this.unwrap == unwrap
    {
      this.rest, this.fileLength, this.unwrap := rest, fileLength, unwrap;
    }

    /** `io.ReadFull`. */
    method ReadFull(n: nat) returns (status: FullRead, data: Bytes)
      modifies this
      ensures status == Full <==> n <= |old(rest)|
      ensures status == Eof <==> n > 0 && old(rest) == []
      ensures status == Full ==> data == old(rest)[..n] && rest == old(rest)[n..]
      ensures status != Full ==> rest == []
    {
      if n <= |rest| {
        status, data, rest := Full, rest[..n], rest[n..];
      } else {
        status, data, rest := if rest == [] then Eof else UnexpectedEof, rest, [];
      }
    }

    method ReadBlock() returns (r: BlockRead)
      modifies this
      ensures r == WalFormat.ReadBlock(unwrap, old(rest)) && rest == r.rest
    {
      var status, prefix := ReadFull(8);
      if status != Full {
        return if status == Eof then EndOfFile([]) else ReadError([]);
      }
      var block;
      status, block := ReadFull(FromLittleEndian(prefix));
      if status != Full {
        return if status == Eof then EndOfFile([]) else ReadError([]);
      }
      match unwrap(block) {
        case Some(data) => r := Block(data, rest);
        case None => r := ReadError(rest);
      }
    }
  }
}
