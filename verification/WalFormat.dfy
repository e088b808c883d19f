/** The bytes of a WAL file: a size-delimited protobuf header, then frames, each a wrapped block
    behind its length as a little-endian 64-bit number. Writing is described by what the bytes are,
    reading by what a reader that has `bs` left to read does next. */
module WalFormat {
  import opened WalNames
  import opened Arithmetic

  type Byte = b: int | 0 <= b < 256
  type Bytes = seq<Byte>

  const UINT64: nat := 0x1_0000_0000_0000_0000
  const MAX_HEADER: nat := 4 * 1024 * 1024
  const CHUNK: nat := 1024 * 1024

  // --------------------------------------------------- fixed-width lengths

  function Pow256(w: nat): (p: nat)
    ensures p > 0
  {
    if w == 0 then 1 else 256 * Pow256(w - 1)
  }

  function LittleEndian(n: nat, w: nat): (bs: Bytes)
    ensures |bs| == w
  {
    if w == 0 then [] else [n % 256] + LittleEndian(n / 256, w - 1)
  }

  function FromLittleEndian(bs: Bytes): (n: nat) {
    if bs == [] then 0 else bs[0] + 256 * FromLittleEndian(bs[1..])
  }

  lemma {:induction false} LittleEndianRoundTrip(n: nat, w: nat)
    requires n < Pow256(w)
    ensures FromLittleEndian(LittleEndian(n, w)) == n
  {
    if w > 0 {
      LittleEndianRoundTrip(n / 256, w - 1);
      assert LittleEndian(n, w)[1..] == LittleEndian(n / 256, w - 1);
    }
  }

  /** The least significant byte comes first. */
  lemma {:induction false} LittleEndianByte(n: nat, w: nat, k: nat)
    requires k < w
    ensures LittleEndian(n, w)[k] == n / Pow256(k) % 256
  {
    if k > 0 {
      LittleEndianByte(n / 256, w - 1, k - 1);
      DivideTwice(n, 256, Pow256(k - 1));
    }
  }

  function Fixed64(n: nat): (bs: Bytes)
    ensures |bs| == 8
  {
    LittleEndian(n, 8)
  }

  lemma {:induction false} Fixed64RoundTrip(n: nat)
    requires n < UINT64
    ensures FromLittleEndian(Fixed64(n)) == n
  {
    assert Pow256(8) == 0x1_0000 * Pow256(6) && Pow256(6) == 0x1_0000 * Pow256(4) && Pow256(4) == 0x1_0000 * Pow256(2);
    LittleEndianRoundTrip(n, 8);
  }

  // --------------------------------------------------------------- varints

  function Varint(n: nat): (bs: Bytes)
    ensures |bs| > 0
  {
    if n < 128 then [n] else [n % 128 + 128] + Varint(n / 128)
  }

  function Pow128(k: nat): (p: nat)
    ensures p > 0
  {
    if k == 0 then 1 else 128 * Pow128(k - 1)
  }

  /** Seven bits a byte, the least significant first; every byte but the last is marked. */
  lemma {:induction false} VarintByte(n: nat, k: nat)
    requires k < |Varint(n)|
    ensures Varint(n)[k] == n / Pow128(k) % 128 + (if k < |Varint(n)| - 1 then 128 else 0)
  {
    if k > 0 {
      VarintByte(n / 128, k - 1);
      DivideTwice(n, 128, Pow128(k - 1));
    }
  }

  datatype VarintRead = Value(n: nat, rest: Bytes) | NothingThere | CutShort | Overflow

  /** Base 128 varint of at most ten bytes holding 64 bits, `i` of them read already. */
  function ReadVarint(bs: Bytes, i: nat): (r: VarintRead)
    ensures r.Value? ==> |r.rest| < |bs|
  {
    if bs == [] then (if i == 0 then NothingThere else CutShort)
    else if i >= 9 && bs[0] > 1 then Overflow
    else if bs[0] < 128 then Value(bs[0], bs[1..])
    else
      match ReadVarint(bs[1..], i + 1)
      case Value(n, rest) => Value(bs[0] - 128 + 128 * n, rest)
      case other => other
  }

  /** What 64 bits leave for a number after `i` groups of seven. */
  function Limit(i: nat): (n: nat)
    decreases 9 - i
  {
    if i >= 9 then 2 else 128 * Limit(i + 1)
  }

  lemma {:induction false} LimitOfUint64()
    ensures Limit(0) == UINT64
  {
    assert Limit(8) == 256;
    assert Limit(6) == 0x4000 * Limit(8);
    assert Limit(4) == 0x4000 * Limit(6);
    assert Limit(2) == 0x4000 * Limit(4);
  }

  lemma {:induction false} VarintFits(bs: Bytes, i: nat)
    requires ReadVarint(bs, i).Value?
    ensures ReadVarint(bs, i).n < Limit(i)
    decreases |bs|
  {
    if bs[0] >= 128 { VarintFits(bs[1..], i + 1); } else { LimitAtLeast(i); }
  }

  lemma {:induction false} LimitAtLeast(i: nat)
    ensures Limit(i) >= 2 && (i < 9 ==> Limit(i) >= 256)
    decreases 9 - i
  {
    if i < 9 { LimitAtLeast(i + 1); }
  }

  lemma {:induction false} LimitStep(n: nat, i: nat)
    requires n < Limit(i)
    ensures i >= 9 ==> n <= 1
    ensures n >= 128 ==> i < 9 && n / 128 < Limit(i + 1)
  {
  }

  lemma {:induction false} VarintRoundTrip(n: nat, rest: Bytes, i: nat)
    requires n < Limit(i)
    ensures ReadVarint(Varint(n) + rest, i) == Value(n, rest)
  {
    LimitStep(n, i);
    var bs := Varint(n) + rest;
    if n < 128 {
      assert bs[0] == n && bs[1..] == rest;
    } else {
      assert bs[0] == n % 128 + 128 && bs[1..] == Varint(n / 128) + rest;
      VarintRoundTrip(n / 128, rest, i + 1);
    }
  }

  lemma {:induction false} VarintCut(n: nat, k: nat, i: nat)
    requires n < Limit(i) && k < |Varint(n)|
    ensures ReadVarint(Varint(n)[..k], i) == if k == 0 && i == 0 then NothingThere else CutShort
  {
    LimitStep(n, i);
    if k > 0 {
      assert Varint(n)[..k][0] == n % 128 + 128 && Varint(n)[..k][1..] == Varint(n / 128)[..k - 1];
      VarintCut(n / 128, k - 1, i + 1);
    }
  }

  // ---------------------------------------------------------------- header

  /** The message {klio_version = 1, file_length}: a zero field is not written. */
  function HeaderMessage(fileLength: nat): (bs: Bytes) {
    [8, 1] + (if fileLength == 0 then [] else [16] + Varint(fileLength))
  }

  function Header(fileLength: nat): (bs: Bytes) {
    Varint(|HeaderMessage(fileLength)|) + HeaderMessage(fileLength)
  }

  /** The header of a file without length, and of a segment of 16 MiB. */
  lemma {:induction false} HeaderBytes()
    ensures Header(0) == [2, 8, 1]
    ensures Header(0x100_0000) == [7, 8, 1, 16, 128, 128, 128, 8]
  {
    assert Varint(8) == [8] && Varint(0x400) == [128] + Varint(8);
    assert Varint(0x2_0000) == [128] + Varint(0x400) && Varint(0x100_0000) == [128] + Varint(0x2_0000);
    assert HeaderMessage(0x100_0000) == [8, 1, 16, 128, 128, 128, 8];
  }

  /** The file length in the fields `bs`: the last one wins, unknown fields are skipped by their
      wire type, groups are not accepted. */
  function ParseFields(bs: Bytes, fileLength: nat): (r: Option<nat>)
    decreases |bs|
  {
    if bs == [] then Some(fileLength) else
      match ReadVarint(bs, 0)
      case Value(tag, rest) =>
        if !(1 <= tag / 8 < 0x2000_0000) then None
        else if tag % 8 == 0 then
          (match ReadVarint(rest, 0)
           case Value(v, rest') => ParseFields(rest', if tag / 8 == 2 then v else fileLength)
           case _ => None)
        else if tag % 8 == 1 then (if |rest| < 8 then None else ParseFields(rest[8..], fileLength))
        else if tag % 8 == 2 then
          (match ReadVarint(rest, 0)
           case Value(n, rest') => if |rest'| < n then None else ParseFields(rest'[n..], fileLength)
           case _ => None)
        else if tag % 8 == 5 then (if |rest| < 4 then None else ParseFields(rest[4..], fileLength))
        else None
      case _ => None
  }

  lemma {:induction false} ParseNumber(bs: Bytes, tag: nat, rest: Bytes, v: nat, rest': Bytes, fileLength: nat)
    requires ReadVarint(bs, 0) == Value(tag, rest) && 1 <= tag / 8 < 0x2000_0000 && tag % 8 == 0
    requires ReadVarint(rest, 0) == Value(v, rest')
    ensures ParseFields(bs, fileLength) == ParseFields(rest', if tag / 8 == 2 then v else fileLength)
  {
  }

  lemma {:induction false} ParseBytes(bs: Bytes, tag: nat, rest: Bytes, n: nat, rest': Bytes, fileLength: nat)
    requires ReadVarint(bs, 0) == Value(tag, rest) && 1 <= tag / 8 < 0x2000_0000 && tag % 8 == 2
    requires ReadVarint(rest, 0) == Value(n, rest') && n <= |rest'|
    ensures ParseFields(bs, fileLength) == ParseFields(rest'[n..], fileLength)
  {
  }

  lemma {:induction false} ParseFixed(bs: Bytes, tag: nat, rest: Bytes, n: nat, fileLength: nat)
    requires ReadVarint(bs, 0) == Value(tag, rest) && 1 <= tag / 8 < 0x2000_0000 && n <= |rest|
    requires (tag % 8 == 1 && n == 8) || (tag % 8 == 5 && n == 4)
    ensures ParseFields(bs, fileLength) == ParseFields(rest[n..], fileLength)
  {
  }

  /** A number in field 2 is the file length so far; a number in another field is skipped. */
  lemma {:induction false} NumberField(field: nat, v: nat, rest: Bytes, fileLength: nat)
    requires 1 <= field < 0x2000_0000 && v < UINT64
    ensures ParseFields(Varint(8 * field) + (Varint(v) + rest), fileLength)
         == ParseFields(rest, if field == 2 then v else fileLength)
  {
    LimitOfUint64();
    VarintRoundTrip(8 * field, Varint(v) + rest, 0);
    VarintRoundTrip(v, rest, 0);
    ParseNumber(Varint(8 * field) + (Varint(v) + rest), 8 * field, Varint(v) + rest, v, rest, fileLength);
  }

  /** A field of bytes is skipped with its content. */
  lemma {:induction false} BytesField(field: nat, content: Bytes, rest: Bytes, fileLength: nat)
    requires 1 <= field < 0x2000_0000 && |content| < UINT64
    ensures ParseFields(Varint(8 * field + 2) + (Varint(|content|) + (content + rest)), fileLength)
         == ParseFields(rest, fileLength)
  {
    var body := content + rest;
    LimitOfUint64();
    VarintRoundTrip(8 * field + 2, Varint(|content|) + body, 0);
    VarintRoundTrip(|content|, body, 0);
    ParseBytes(Varint(8 * field + 2) + (Varint(|content|) + body), 8 * field + 2, Varint(|content|) + body,
               |content|, body, fileLength);
    assert body[|content|..] == rest;
  }

  /** A field of fixed width is skipped with its eight or four bytes. */
  lemma {:induction false} FixedField(field: nat, wide: bool, content: Bytes, rest: Bytes, fileLength: nat)
    requires 1 <= field < 0x2000_0000 && |content| == if wide then 8 else 4
    ensures ParseFields(Varint(8 * field + (if wide then 1 else 5)) + (content + rest), fileLength)
         == ParseFields(rest, fileLength)
  {
    var tag, body := 8 * field + (if wide then 1 else 5), content + rest;
    LimitOfUint64();
    VarintRoundTrip(tag, body, 0);
    ParseFixed(Varint(tag) + body, tag, body, |content|, fileLength);
    assert body[|content|..] == rest;
  }

  datatype HeaderRead = GotHeader(fileLength: nat, rest: Bytes) | MissingFile | BadHeader

  /** `NewReader`: an empty file counts as a missing one. */
  function ReadHeader(bs: Bytes): (r: HeaderRead) {
    match ReadVarint(bs, 0)
    case NothingThere => MissingFile
    case Value(size, rest) =>
      if size > MAX_HEADER || size > |rest| then BadHeader
      else (match ParseFields(rest[..size], 0)
            case Some(n) => GotHeader(n, rest[size..])
            case None => BadHeader)
    case _ => BadHeader
  }

  lemma {:induction false} VarintLength(n: nat, i: nat)
    requires n < Limit(i) && i <= 9
    ensures |Varint(n)| <= 10 - i
    decreases 10 - i
  {
    if n >= 128 { VarintLength(n / 128, i + 1); }
  }

  /** A file length that was read fits 64 bits. */
  lemma {:induction false} FieldsFit(bs: Bytes, fileLength: nat)
    requires fileLength < UINT64 && ParseFields(bs, fileLength).Some?
    ensures ParseFields(bs, fileLength).value < UINT64
    decreases |bs|
  {
    LimitOfUint64();
    if bs != [] {
      var tag, rest := ReadVarint(bs, 0).n, ReadVarint(bs, 0).rest;
      if tag % 8 == 0 {
        VarintFits(rest, 0);
        FieldsFit(ReadVarint(rest, 0).rest, if tag / 8 == 2 then ReadVarint(rest, 0).n else fileLength);
      } else if tag % 8 == 1 {
        FieldsFit(rest[8..], fileLength);
      } else if tag % 8 == 2 {
        FieldsFit(ReadVarint(rest, 0).rest[ReadVarint(rest, 0).n..], fileLength);
      } else {
        FieldsFit(rest[4..], fileLength);
      }
    }
  }

  lemma {:induction false} HeaderFits(bs: Bytes)
    requires ReadHeader(bs).GotHeader?
    ensures ReadHeader(bs).fileLength < UINT64
  {
    var size, rest := ReadVarint(bs, 0).n, ReadVarint(bs, 0).rest;
    FieldsFit(rest[..size], 0);
  }

  lemma {:induction false} ParseHeaderMessage(fileLength: nat)
    requires fileLength < UINT64
    ensures ParseFields(HeaderMessage(fileLength), 0) == Some(fileLength)
  {
    var bs := HeaderMessage(fileLength);
    var tail: Bytes := if fileLength == 0 then [] else [16] + Varint(fileLength);
    assert bs[1..] == [1] + tail && bs[1..][1..] == tail;
    assert ReadVarint(bs, 0) == Value(8, [1] + tail) && ReadVarint([1] + tail, 0) == Value(1, tail);
    if fileLength > 0 {
      LimitOfUint64();
      assert tail[1..] == Varint(fileLength) == Varint(fileLength) + [];
      VarintRoundTrip(fileLength, [], 0);
      assert ReadVarint(tail, 0) == Value(16, Varint(fileLength));
      assert ParseFields([], fileLength) == Some(fileLength);
    }
    assert ParseFields(tail, 0) == Some(fileLength);
  }

  lemma {:induction false} HeaderRoundTrip(fileLength: nat, rest: Bytes)
    requires fileLength < UINT64
    ensures ReadHeader(Header(fileLength) + rest) == GotHeader(fileLength, rest)
  {
    var m := HeaderMessage(fileLength);
    LimitOfUint64();
    VarintLength(fileLength, 0);
    assert Header(fileLength) + rest == Varint(|m|) + (m + rest);
    VarintRoundTrip(|m|, m + rest, 0);
    assert (m + rest)[..|m|] == m && (m + rest)[|m|..] == rest;
    ParseHeaderMessage(fileLength);
  }

  /** A file cut inside its header is empty or unreadable, never a WAL file. */
  lemma {:induction false} HeaderCut(fileLength: nat, k: nat)
    requires fileLength < UINT64 && k < |Header(fileLength)|
    ensures ReadHeader(Header(fileLength)[..k]) == if k == 0 then MissingFile else BadHeader
  {
    var m := HeaderMessage(fileLength);
    LimitOfUint64();
    VarintLength(fileLength, 0);
    var v := Varint(|m|);
    if k < |v| {
      assert Header(fileLength)[..k] == v[..k];
      VarintCut(|m|, k, 0);
    } else {
      assert Header(fileLength)[..k] == v + m[..k - |v|];
      VarintRoundTrip(|m|, m[..k - |v|], 0);
    }
  }

  // ---------------------------------------------------------------- frames

  function Frame(w: Bytes): (bs: Bytes) {
    Fixed64(|w|) + w
  }

  function Stream(ws: seq<Bytes>): (bs: Bytes) {
    if ws == [] then [] else Frame(ws[0]) + Stream(ws[1..])
  }

  lemma {:induction false} StreamAppend(ws: seq<Bytes>, w: Bytes)
    ensures Stream(ws + [w]) == Stream(ws) + Frame(w)
  {
    if ws == [] {
      assert ws + [w] == [w] && [w][1..] == [];
    } else {
      assert (ws + [w])[1..] == ws[1..] + [w];
      StreamAppend(ws[1..], w);
    }
  }

  /** What one `ReadBlock` returns, and what is left to read after it. */
  datatype BlockRead = Block(data: Bytes, rest: Bytes) | EndOfFile(rest: Bytes) | ReadError(rest: Bytes)

  type Unwrapper = Bytes -> Option<Bytes>

  /** `io.ReadFull` reports a plain end of file when it reads nothing of what it was asked for. */
  function ReadBlock(unwrap: Unwrapper, bs: Bytes): (r: BlockRead)
    ensures r.Block? ==> |r.rest| < |bs|
  {
    if bs == [] then EndOfFile([])
    else if |bs| < 8 then ReadError([])
    else
      var n, body := FromLittleEndian(bs[..8]), bs[8..];
      if n > 0 && body == [] then EndOfFile([])
      else if |body| < n then ReadError([])
      else
        match unwrap(body[..n])
        case Some(data) => Block(data, body[n..])
        case None => ReadError(body[n..])
  }

  /** Reading until the first result that is not a block. */
  datatype Decoded = Decoded(blocks: seq<Bytes>, end: BlockRead)

  function ReadAll(unwrap: Unwrapper, bs: Bytes): (r: Decoded)
    ensures !r.end.Block?
    decreases |bs|
  {
    match ReadBlock(unwrap, bs)
    case Block(data, rest) => var more := ReadAll(unwrap, rest); Decoded([data] + more.blocks, more.end)
    case end => Decoded([], end)
  }

  /** The wrapped blocks `ws` hold the blocks `cs`. */
  ghost predicate Holds(unwrap: Unwrapper, ws: seq<Bytes>, cs: seq<Bytes>) {
    |ws| == |cs| && forall i :: 0 <= i < |ws| ==> |ws[i]| < UINT64 && unwrap(ws[i]) == Some(cs[i])
  }

  lemma {:induction false} ReadFrame(unwrap: Unwrapper, w: Bytes, c: Bytes, rest: Bytes)
    requires |w| < UINT64 && unwrap(w) == Some(c)
    ensures ReadBlock(unwrap, Frame(w) + rest) == Block(c, rest)
  {
    var bs := Frame(w) + rest;
    Fixed64RoundTrip(|w|);
    assert bs[..8] == Fixed64(|w|) && bs[8..] == w + rest;
    assert (w + rest)[..|w|] == w && (w + rest)[|w|..] == rest;
  }

  /** A frame cut short is never read as a block. It surfaces as a plain end of file when nothing
      of it, or exactly its length, is there. */
  lemma {:induction false} ReadCutFrame(unwrap: Unwrapper, w: Bytes, k: nat)
    requires |w| < UINT64 && k < |Frame(w)|
    ensures ReadBlock(unwrap, Frame(w)[..k]) == if k == 0 || k == 8 then EndOfFile([]) else ReadError([])
  {
    var bs := Frame(w)[..k];
    Fixed64RoundTrip(|w|);
    if k >= 8 {
      assert bs[..8] == Fixed64(|w|) && bs[8..] == w[..k - 8];
    }
  }

  /** The number of whole frames in the first `k` bytes. */
  function WholeFrames(ws: seq<Bytes>, k: nat): (m: nat)
    ensures m <= |ws|
  {
    if ws == [] || k < |Frame(ws[0])| then 0 else 1 + WholeFrames(ws[1..], k - |Frame(ws[0])|)
  }

  /** The outcome of reading the first `k` bytes of the frames. */
  function TruncatedRead(ws: seq<Bytes>, cs: seq<Bytes>, k: nat): (r: Decoded)
    requires |ws| == |cs|
  {
    var m := WholeFrames(ws, k);
    Decoded(cs[..m],
      if k == |Stream(ws[..m])| || k == |Stream(ws[..m])| + 8 then EndOfFile([]) else ReadError([]))
  }

  lemma {:induction false} TruncatedReadStep(ws: seq<Bytes>, cs: seq<Bytes>, k: nat)
    requires |ws| == |cs| && ws != [] && k >= |Frame(ws[0])|
    ensures var more := TruncatedRead(ws[1..], cs[1..], k - |Frame(ws[0])|);
      TruncatedRead(ws, cs, k) == Decoded([cs[0]] + more.blocks, more.end)
  {
    var m := WholeFrames(ws[1..], k - |Frame(ws[0])|);
    assert ws[..m + 1] == [ws[0]] + ws[1..][..m] && ws[..m + 1][1..] == ws[1..][..m];
    assert cs[..m + 1] == [cs[0]] + cs[1..][..m];
  }

  /** Reading any truncation of the frames yields the blocks of the whole frames in it, then an
      end of file or an error, and from then on nothing but ends of file. The end is a plain end of
      file exactly when the cut is between two frames or right behind a length. */
  lemma {:induction false} ReadTruncated(unwrap: Unwrapper, ws: seq<Bytes>, cs: seq<Bytes>, k: nat)
    requires Holds(unwrap, ws, cs) && k <= |Stream(ws)|
    ensures ReadAll(unwrap, Stream(ws)[..k]) == TruncatedRead(ws, cs, k)
  {
    var bs := Stream(ws)[..k];
    if ws == [] {
      assert ws[..0] == [] && cs[..0] == [];
    } else if k < |Frame(ws[0])| {
      assert bs == Frame(ws[0])[..k];
      ReadCutFrame(unwrap, ws[0], k);
      assert ws[..0] == [] && cs[..0] == [];
    } else {
      var f := Frame(ws[0]);
      var rest := Stream(ws[1..])[..k - |f|];
      assert bs == f + rest;
      ReadFrame(unwrap, ws[0], cs[0], rest);
      ReadTruncated(unwrap, ws[1..], cs[1..], k - |f|);
      TruncatedReadStep(ws, cs, k);
    }
  }

  lemma {:induction false} AllFramesWhole(ws: seq<Bytes>)
    ensures WholeFrames(ws, |Stream(ws)|) == |ws|
  {
    if ws != [] { AllFramesWhole(ws[1..]); }
  }

  /** The whole file reads back as what was written. */
  lemma {:induction false} ReadWritten(unwrap: Unwrapper, fileLength: nat, ws: seq<Bytes>, cs: seq<Bytes>)
    requires fileLength < UINT64 && Holds(unwrap, ws, cs)
    ensures ReadHeader(Header(fileLength) + Stream(ws)) == GotHeader(fileLength, Stream(ws))
    ensures ReadAll(unwrap, Stream(ws)) == Decoded(cs, EndOfFile([]))
  {
    HeaderRoundTrip(fileLength, Stream(ws));
    AllFramesWhole(ws);
    assert Stream(ws)[..|Stream(ws)|] == Stream(ws) && ws[..|ws|] == ws && cs[..|cs|] == cs;
    ReadTruncated(unwrap, ws, cs, |Stream(ws)|);
  }

  /** What a reader finds in any prefix of a written file: nothing usable inside the header, and
      behind it a prefix of the blocks. */
  lemma {:induction false} ReadTruncatedFile(unwrap: Unwrapper, fileLength: nat, ws: seq<Bytes>, cs: seq<Bytes>,
                                             disk: Bytes)
    requires fileLength < UINT64 && Holds(unwrap, ws, cs)
    requires disk <= Header(fileLength) + Stream(ws)
    ensures var h := |Header(fileLength)|;
      if |disk| < h then ReadHeader(disk) == if disk == [] then MissingFile else BadHeader
      else
        && ReadHeader(disk) == GotHeader(fileLength, disk[h..])
        && ReadAll(unwrap, disk[h..]) == TruncatedRead(ws, cs, |disk| - h)
  {
    var h, file := |Header(fileLength)|, Header(fileLength) + Stream(ws);
    if |disk| < h {
      assert disk == Header(fileLength)[..|disk|];
      HeaderCut(fileLength, |disk|);
    } else {
      assert disk[h..] == Stream(ws)[..|disk| - h];
      assert disk == Header(fileLength) + disk[h..];
      HeaderRoundTrip(fileLength, disk[h..]);
      ReadTruncated(unwrap, ws, cs, |disk| - h);
    }
  }

  // ---------------------------------------------------------------- chunks

  /** Where the chunk that starts at `start` ends. */
  function ChunkEnd(data: Bytes, start: nat): (end: nat) {
    if start + CHUNK <= |data| then start + CHUNK else |data|
  }

  function ChunksFrom(data: Bytes, start: nat): (cs: seq<Bytes>)
    decreases |data| - start
  {
    if start >= |data| then [] else [data[start..ChunkEnd(data, start)]] + ChunksFrom(data, ChunkEnd(data, start))
  }

  /** How a block is split before it is wrapped. */
  function Chunks(data: Bytes): (cs: seq<Bytes>) {
    ChunksFrom(data, 0)
  }

  function AllChunks(blocks: seq<Bytes>): (cs: seq<Bytes>) {
    if blocks == [] then [] else AllChunks(blocks[..|blocks| - 1]) + Chunks(blocks[|blocks| - 1])
  }

  function Concat(bs: seq<Bytes>): (r: Bytes) {
    if bs == [] then [] else Concat(bs[..|bs| - 1]) + bs[|bs| - 1]
  }

  lemma {:induction false} ConcatSplit(a: seq<Bytes>, b: seq<Bytes>)
    ensures Concat(a + b) == Concat(a) + Concat(b)
  {
    if b == [] {
      assert a + b == a;
    } else {
      var n := |b| - 1;
      assert (a + b)[..|a + b| - 1] == a + b[..n];
      ConcatSplit(a, b[..n]);
    }
  }

  ghost predicate ChunkSized(cs: seq<Bytes>) {
    forall i :: 0 <= i < |cs| ==> 1 <= |cs[i]| <= CHUNK
  }

  lemma {:induction false} ChunksJoin(data: Bytes, start: nat)
    requires start <= |data|
    ensures Concat(ChunksFrom(data, start)) == data[start..] && ChunkSized(ChunksFrom(data, start))
    decreases |data| - start
  {
    if start < |data| {
      var end := ChunkEnd(data, start);
      var c := data[start..end];
      ChunksJoin(data, end);
      ConcatSplit([c], ChunksFrom(data, end));
      assert Concat([c]) == Concat([c][..0]) + c == c;
      assert c + data[end..] == data[start..];
    }
  }

  /** Every chunk of a block but the last has 2^20 bytes, so there are no more chunks than needed. */
  lemma {:induction false} ChunksAreFull(data: Bytes, start: nat, i: nat)
    requires start <= |data|
    ensures |ChunksFrom(data, start)| == (|data| - start + CHUNK - 1) / CHUNK
    ensures i + 1 < |ChunksFrom(data, start)| ==> |ChunksFrom(data, start)[i]| == CHUNK
    decreases |data| - start
  {
    if start < |data| {
      ChunksAreFull(data, ChunkEnd(data, start), if i > 0 then i - 1 else 0);
    }
  }

  /** The chunks of all the blocks hold from 1 to 2^20 bytes each and join to what the blocks join to. */
  lemma {:induction false} AllChunksJoin(blocks: seq<Bytes>)
    ensures Concat(AllChunks(blocks)) == Concat(blocks) && ChunkSized(AllChunks(blocks))
  {
    if blocks != [] {
      var n := |blocks| - 1;
      AllChunksJoin(blocks[..n]);
      ChunksJoin(blocks[n], 0);
      ConcatSplit(AllChunks(blocks[..n]), Chunks(blocks[n]));
    }
  }
}
