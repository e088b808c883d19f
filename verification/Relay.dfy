/** The consumer that copies a WAL file from tier 1 to tier 2, block by block, between two
    repositories that wrap blocks with different keys. */
module Relay {
  import opened WalNames
  import opened SegmentNames
  import opened WalFormat
  import opened WalWriter

  const TIER2_BUFFER: nat := 4 * 1024 * 1024

  /** `walHandler` on the bytes of the tier-1 file (`None` if it cannot be opened). A tier-2 file that
      cannot be opened, a read that ends with anything but a plain end of file, and a write or the
      final close that fails, is an error;
      without error both files read back as the same length and the same bytes, and `writtenSize`
      is how many. */
  method WalHandler(source: Option<Bytes>, unwrap1: Unwrapper, wrap2: Wrapper, ghost unwrap2: Unwrapper,
                    opens: bool, room: nat, closeOk: bool)
    returns (ok: bool, target: Bytes, writtenSize: nat)
    requires Inverse(wrap2, unwrap2)
    ensures ok ==> source.Some? && ReadHeader(source.value).GotHeader?
    ensures ok ==>
      var GotHeader(fileLength, rest) := ReadHeader(source.value);
      var read := ReadAll(unwrap1, rest);
      && read.end.EndOfFile?
      && writtenSize == |Concat(read.blocks)|
      && exists copy :: ReadHeader(target) == GotHeader(fileLength, copy) &&
           ReadAll(unwrap2, copy) == Decoded(AllChunks(read.blocks), EndOfFile([]))
    ensures ok ==> opens && closeOk
    ensures ok || !opens || !closeOk || !NeverFails(wrap2) || |target| == room || source.None?
      || !ReadHeader(source.value).GotHeader? || ReadAll(unwrap1, ReadHeader(source.value).rest).end.ReadError?
  {
    target, writtenSize := [], 0;
    if source.None? {
      return false, target, 0;
    }
    var header := ReadHeader(source.value);
    if !header.GotHeader? {
      return false, target, 0;
    }
    HeaderFits(source.value);
    if !opens {
      return false, target, 0;
    }
    ok, target, writtenSize := CopyFile(header.fileLength, header.rest, unwrap1, wrap2, unwrap2, room, closeOk);
  }

  /** The handler once both files are open. */
  method CopyFile(fileLength: nat, rest: Bytes, unwrap1: Unwrapper, wrap2: Wrapper, ghost unwrap2: Unwrapper,
                  room: nat, closeOk: bool)
    returns (ok: bool, target: Bytes, writtenSize: nat)
    requires Inverse(wrap2, unwrap2) && fileLength < UINT64
    ensures var read := ReadAll(unwrap1, rest);
      if ok then
        && closeOk && read.end.EndOfFile? && writtenSize == |Concat(read.blocks)|
        && exists copy :: ReadHeader(target) == GotHeader(fileLength, copy) &&
             ReadAll(unwrap2, copy) == Decoded(AllChunks(read.blocks), EndOfFile([]))
      else !closeOk || !NeverFails(wrap2) || |target| == room || read.end.ReadError?
  {
    var reader := new Reader(rest, fileLength, unwrap1);
    var out := new BufferedFile(TIER2_BUFFER, room);
    var writer := new DirectWriter(out, wrap2, fileLength, unwrap2);
    if out.failed {
      return false, out.disk, 0;
    }
    ok, writtenSize := Copy(reader, writer);
    var closed := writer.Close(closeOk);
    ok, target := ok && closed, out.disk;
    if ok {
      ReadWritten(unwrap2, fileLength, writer.frames, writer.chunks);
    }
  }

  /** The copy loop. The block that comes with an end of file is empty, and empty blocks are not written. */
  method Copy(reader: Reader, writer: DirectWriter) returns (ok: bool, writtenSize: nat)
    requires writer.Valid() && writer.chunks == []
    modifies reader, writer, writer.out
    ensures writer.Valid() && writer.closed == old(writer.closed) && writer.out.capacity == old(writer.out.capacity)
    ensures !ok && NeverFails(writer.wrap) ==>
      writer.out.failed || ReadAll(reader.unwrap, old(reader.rest)).end.ReadError?
    ensures ok ==>
      var read := ReadAll(reader.unwrap, old(reader.rest));
      read.end.EndOfFile? && writer.chunks == AllChunks(read.blocks) && writtenSize == |Concat(read.blocks)|
  {
    writtenSize := 0;
    ghost var done: seq<Bytes> := [];
    ghost var all := ReadAll(reader.unwrap, reader.rest);
    while true
      invariant writer.Valid() && writer.closed == old(writer.closed)
      invariant writer.out.capacity == old(writer.out.capacity)
      invariant writer.chunks == AllChunks(done) && writtenSize == |Concat(done)|
      invariant Continues(reader.unwrap, all, done, reader.rest)
      decreases |reader.rest|
    {
      ghost var before := reader.rest;
      var r := reader.ReadBlock();
      AfterRead(reader.unwrap, all, done, before);
      if r.ReadError? {
        return false, writtenSize;
      }
      var block := if r.Block? then r.data else [];
      ok := writer.WriteBlock(block);
      if !ok {
        return false, writtenSize;
      }
      if r.EndOfFile? {
        return true, writtenSize;
      }
      writtenSize := writtenSize + |block|;
      AppendBlock(done, block);
      done := done + [block];
    }
  }

  /** `all` is what has been read so far, `done`, followed by what `rest` still holds. */
  ghost predicate Continues(unwrap: Unwrapper, all: Decoded, done: seq<Bytes>, rest: Bytes) {
    all == Decoded(done + ReadAll(unwrap, rest).blocks, ReadAll(unwrap, rest).end)
  }

  lemma {:induction false} AfterRead(unwrap: Unwrapper, all: Decoded, done: seq<Bytes>, rest: Bytes)
    requires Continues(unwrap, all, done, rest)
    ensures var r := ReadBlock(unwrap, rest);
      if r.Block? then Continues(unwrap, all, done + [r.data], r.rest) else all == Decoded(done, r)
  {
    var r := ReadBlock(unwrap, rest);
    if r.Block? {
      assert done + ([r.data] + ReadAll(unwrap, r.rest).blocks) == done + [r.data] + ReadAll(unwrap, r.rest).blocks;
    } else {
      assert done + [] == done;
    }
  }

  lemma {:induction false} AppendBlock(done: seq<Bytes>, block: Bytes)
    ensures AllChunks(done + [block]) == AllChunks(done) + Chunks(block)
    ensures Concat(done + [block]) == Concat(done) + block
  {
    assert (done + [block])[..|done|] == done;
  }

  /** So what tier 2 reads back is byte for byte what tier 1 reads back, in chunks of at most 1 MiB. */
  lemma {:induction false} CopyHasSameBytes(blocks: seq<Bytes>, copied: seq<Bytes>)
    requires copied == AllChunks(blocks)
    ensures Concat(copied) == Concat(blocks) && ChunkSized(copied)
  {
    AllChunksJoin(blocks);
  }

  // --------------------------------------------------- the reported LSN

  /** `LSNStartFromWALName`: the first byte of the segment called `name`. */
  function SegmentStart(name: string, segmentSize: nat): (r: Option<nat>) {
    match ParseName(name)
    case None => None
    case Some(p) => Some(StartOf(p, segmentSize))
  }

  function StartOf(p: Position, segmentSize: nat): (lsn: nat) {
    p.log * LOG_BYTES + p.segment * segmentSize
  }

  /** `latestWrittenLSN`, in 64-bit arithmetic. */
  function LatestWrittenLSN(name: string, segmentSize: nat, writtenSize: nat): (r: Option<int>) {
    match SegmentStart(name, segmentSize)
    case None => None
    case Some(start) => Some((start + writtenSize - 1) % LSN_LIMIT)
  }

  /** When at least one byte and at most a segment was written, the LSN is inside the segment. */
  lemma {:induction false} LatestWrittenLSNInSegment(timeline: nat, lsn: nat, size: nat, writtenSize: nat)
    requires timeline < LOG_BYTES && lsn < LSN_LIMIT && SegmentBoundary(lsn, size)
    requires 0 < writtenSize <= size
    ensures LatestWrittenLSN(SegmentName(timeline, lsn, size), size, writtenSize) == Some(lsn + writtenSize - 1)
    ensures lsn <= lsn + writtenSize - 1 < lsn + size <= LSN_LIMIT
  {
    SegmentStartOfName(timeline, lsn, size);
    EndOfLogAligned(lsn, size);
    LatestFromStart(SegmentName(timeline, lsn, size), size, writtenSize, lsn);
  }

  lemma {:induction false} LatestFromStart(name: string, size: nat, writtenSize: nat, start: nat)
    requires SegmentStart(name, size) == Some(start)
    requires 0 < writtenSize && start + writtenSize <= LSN_LIMIT
    ensures LatestWrittenLSN(name, size, writtenSize) == Some(start + writtenSize - 1)
  {
    SmallRemainder(start + writtenSize - 1);
  }

  lemma {:induction false} SmallRemainder(n: int)
    requires 0 <= n < LSN_LIMIT
    ensures n % LSN_LIMIT == n
  {
  }

  lemma {:induction false} SegmentStartOfName(timeline: nat, lsn: nat, size: nat)
    requires timeline < LOG_BYTES && lsn < LSN_LIMIT && SegmentBoundary(lsn, size)
    ensures SegmentStart(SegmentName(timeline, lsn, size), size) == Some(lsn)
  {
    var p := PositionOf(timeline, lsn, size);
    assert p.Fits() by { NextPosition(lsn, size); EndOfLogAligned(lsn, size); }
    SpellShape(p);
    assert StartOf(p, size) == lsn by { Decompose(lsn, size); }
  }
}
