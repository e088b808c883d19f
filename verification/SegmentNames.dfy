/** The arithmetic behind segment names: a name spells timeline, log and segment
    number as three groups of eight hexadecimal digits. */
module SegmentNames {
  import opened WalNames
  import opened Arithmetic

  /** Bytes of WAL per log number: 4 GiB. */
  const LOG_BYTES: nat := 0x1_0000_0000
  /** One past the last byte the log space can address. */
  const LSN_LIMIT: nat := 0x1_0000_0000_0000_0000

  const HEX_DIGITS := "0123456789ABCDEF"

  function DigitValue(c: char): (v: nat)
    requires IsHexDigit(c)
    ensures v < 16
  {
    if c <= '9' then (c - '0') as nat
    else if c <= 'F' then (c - 'A') as nat + 10
    else (c - 'a') as nat + 10
  }

  function HexValue(s: string): (v: nat)
    requires AllHex(s)
  {
    if s == "" then 0 else 16 * HexValue(s[..|s| - 1]) + DigitValue(s[|s| - 1])
  }

  /** Upper-case hexadecimal, the only form `%08X` prints. */
  predicate Canonical(s: string) {
    forall i :: 0 <= i < |s| ==> CanonicalDigit(s[i])
  }

  predicate CanonicalDigit(c: char) {
    '0' <= c <= '9' || 'A' <= c <= 'F'
  }

  function HexDigit(d: nat): (c: char)
    requires d < 16
    ensures CanonicalDigit(c) && DigitValue(c) == d
  {
    HEX_DIGITS[d]
  }

  /** `fmt.Sprintf("%0wX", n)`: at least `w` digits, more when `n` needs them. */
  function FormatHex(n: nat, w: nat): (s: string)
    ensures Canonical(s)
    decreases n, w
  {
    if n == 0 && w == 0 then ""
    else FormatHex(n / 16, if w == 0 then 0 else w - 1) + [HexDigit(n % 16)]
  }

  lemma {:induction false} FormatValue(n: nat, w: nat)
    ensures HexValue(FormatHex(n, w)) == n
    decreases n, w
  {
    if n != 0 || w != 0 {
      var v := if w == 0 then 0 else w - 1;
      FormatValue(n / 16, v);
      var s := FormatHex(n, w);
      assert s[..|s| - 1] == FormatHex(n / 16, v);
    }
  }

  function Pow16(w: nat): (p: nat)
    ensures p > 0
  {
    if w == 0 then 1 else 16 * Pow16(w - 1)
  }

  lemma {:induction false} FormatLength(n: nat, w: nat)
    ensures |FormatHex(n, w)| >= w
    ensures n < Pow16(w) <==> |FormatHex(n, w)| == w
    decreases n, w
  {
    if n != 0 || w != 0 {
      FormatLength(n / 16, if w == 0 then 0 else w - 1);
    }
  }

  /** Eight digits suffice exactly for the numbers below 2^32. */
  lemma {:induction false} Octet(n: nat)
    ensures var s := FormatHex(n, 8);
      Canonical(s) && HexValue(s) == n && |s| >= 8 && (n < LOG_BYTES <==> |s| == 8)
  {
    FormatValue(n, 8);
    FormatLength(n, 8);
    assert Pow16(8) == LOG_BYTES by {
      assert Pow16(2) == 256 && Pow16(4) == 256 * Pow16(2) && Pow16(6) == 256 * Pow16(4);
    }
  }

  lemma {:induction false} DigitOrder(c: char, d: char)
    requires CanonicalDigit(c) && CanonicalDigit(d)
    ensures c < d <==> DigitValue(c) < DigitValue(d)
    ensures c == d <==> DigitValue(c) == DigitValue(d)
    ensures Below([c], [d]) <==> c < d
  {
    assert !Below([c][1..], [d][1..]);
  }

  /** On canonical names of one length, string order is numeric order. */
  lemma {:induction false} HexOrder(s: string, t: string)
    requires Canonical(s) && Canonical(t) && |s| == |t|
    ensures Below(s, t) <==> HexValue(s) < HexValue(t)
    ensures s == t <==> HexValue(s) == HexValue(t)
    decreases |s|
  {
    if s != "" {
      var k := |s| - 1;
      var a, b, c, d := s[..k], t[..k], s[k], t[k];
      assert s == a + [c] && t == b + [d];
      HexOrder(a, b);
      HexOrder(b, a);
      BelowSplit(s, t, k);
      assert s[k..] == [c] && t[k..] == [d];
      DigitOrder(c, d);
    }
  }

  /** `strconv.ParseUint(s, 16, 32)`. */
  function ParseUint32(s: string): (r: Option<nat>) {
    if s == "" || !AllHex(s) || HexValue(s) >= LOG_BYTES then None else Some(HexValue(s))
  }

  datatype Position = Position(timeline: nat, log: nat, segment: nat) {
    predicate Fits() {
      timeline < LOG_BYTES && log < LOG_BYTES && segment < LOG_BYTES
    }

    function Next(segmentsPerLog: nat): (p: Position) {
      if segment + 1 >= segmentsPerLog then Position(timeline, log + 1, 0) else Position(timeline, log, segment + 1)
    }
  }

  function Spell(p: Position): (name: string) {
    FormatHex(p.timeline, 8) + FormatHex(p.log, 8) + FormatHex(p.segment, 8)
  }

  function ParseName(name: string): (r: Option<Position>) {
    if |name| != 24 then None else
      var timeline, log, segment := ParseUint32(name[0..8]), ParseUint32(name[8..16]), ParseUint32(name[16..24]);
      if timeline.None? || log.None? || segment.None? then None
      else Some(Position(timeline.value, log.value, segment.value))
  }

  /** `lsn` is the first byte of a segment, and segments of `size` bytes fill a log evenly. */
  ghost predicate SegmentBoundary(lsn: nat, size: nat) {
    size > 0 && LOG_BYTES % size == 0 && lsn % size == 0
  }

  function SegmentsPerLog(size: nat): (n: nat)
    requires size > 0
  {
    LOG_BYTES / size
  }

  function Log(lsn: nat): (log: nat) { lsn / LOG_BYTES }

  function Segment(lsn: nat, size: nat): (segment: nat)
    requires size > 0
  {
    lsn % LOG_BYTES / size
  }

  function PositionOf(timeline: nat, lsn: nat, size: nat): (p: Position)
    requires size > 0
  {
    Position(timeline, Log(lsn), Segment(lsn, size))
  }

  /** The name of the segment of `size` bytes that holds byte `lsn` of `timeline`. */
  function SegmentName(timeline: nat, lsn: nat, size: nat): (name: string)
    requires size > 0
  {
    Spell(PositionOf(timeline, lsn, size))
  }

  /** `nextWALNameLocked`. */
  function NextWALName(name: string, segmentsPerLog: nat): (r: Option<string>) {
    match ParseName(name)
    case None => None
    case Some(p) => Some(Spell(p.Next(segmentsPerLog)))
  }

  function Successor(segmentsPerLog: nat): (next: string -> Option<string>) {
    (name: string) => NextWALName(name, segmentsPerLog)
  }

  function Repeated(next: string -> Option<string>, name: string, k: nat): (r: Option<string>) {
    if k == 0 then Some(name) else
      match Repeated(next, name, k - 1)
      case None => None
      case Some(previous) => next(previous)
  }

  /** The spelled name has the 24 digits of a WAL file exactly when its numbers fit,
      and is then read back as the same position. */
  lemma {:induction false} SpellShape(p: Position)
    requires p.timeline < LOG_BYTES && p.segment < LOG_BYTES
    ensures var name := Spell(p);
      && Canonical(name)
      && (p.Fits() <==> |name| == 24)
      && (p.Fits() ==> IsWALFile(name))
      && ParseName(name) == (if p.Fits() then Some(p) else None)
  {
    Octet(p.timeline);
    Octet(p.log);
    Octet(p.segment);
    var name := Spell(p);
    if p.Fits() {
      assert name[0..8] == FormatHex(p.timeline, 8);
      assert name[8..16] == FormatHex(p.log, 8);
      assert name[16..24] == FormatHex(p.segment, 8);
    }
  }

  lemma {:induction false} FormatStep(n: nat, w: nat, q: nat, d: nat)
    requires w > 0 && n == 16 * q + d && d < 16
    ensures FormatHex(n, w) == FormatHex(q, w - 1) + [HEX_DIGITS[d]]
  {
    assert n / 16 == q && n % 16 == d;
  }

  /** The digits of names with small numbers, and of one in full. */
  lemma {:induction false} TwoDigits(hi: nat, lo: nat)
    requires hi < 16 && lo < 16
    ensures FormatHex(16 * hi + lo, 8) == "000000" + [HEX_DIGITS[hi], HEX_DIGITS[lo]]
  {
    FormatStep(16 * hi + lo, 8, hi, lo);
    FormatStep(hi, 7, 0, hi);
    SixZeros(FormatHex(0, 6));
    LastTwo(FormatHex(0, 6), FormatHex(hi, 7), FormatHex(16 * hi + lo, 8), HEX_DIGITS[hi], HEX_DIGITS[lo]);
  }

  lemma {:induction false} LastTwo(zeros: string, s: string, t: string, c: char, d: char)
    requires s == zeros + [c] && t == s + [d]
    ensures t == zeros + [c, d]
  {
  }

  lemma {:induction false} SixZeros(s: string)
    requires s == FormatHex(0, 6)
    ensures s == "000000"
  {
    Padded(6);
  }

  lemma {:induction false} SpellExample()
    ensures Spell(Position(1, 0xAB, 0xFF)) == "00000001" + "000000AB" + "000000FF"
  {
    TwoDigits(0, 1);
    TwoDigits(0xA, 0xB);
    TwoDigits(0xF, 0xF);
  }

  lemma {:induction false} Padded(w: nat)
    ensures |FormatHex(0, w)| == w && forall i :: 0 <= i < w ==> FormatHex(0, w)[i] == '0'
  {
    if w > 0 { Padded(w - 1); }
  }

  // ------------------------------------------------ positions in the log

  /** A segment boundary splits into log number and segment number without remainder. */
  lemma {:induction false} Decompose(lsn: nat, size: nat)
    requires SegmentBoundary(lsn, size)
    ensures LOG_BYTES / size * size == LOG_BYTES && 0 < LOG_BYTES / size <= LOG_BYTES
    ensures Segment(lsn, size) < LOG_BYTES / size
    ensures lsn == Log(lsn) * LOG_BYTES + Segment(lsn, size) * size
  {
    var log, offset, perLog := lsn / LOG_BYTES, lsn % LOG_BYTES, LOG_BYTES / size;
    var q := lsn / size;
    assert lsn == q * size && LOG_BYTES == perLog * size;
    var segment := q - log * perLog;
    assert offset == segment * size by {
      assert (log * perLog) * size == log * (perLog * size);
      assert segment * size == q * size - (log * perLog) * size;
    }
    Quotient(segment, size);
    MultiplyOrder(segment, perLog, size);
    MultiplyOrder(0, perLog, size);
    assert perLog * size >= perLog;
  }

  lemma {:induction false} Recompose(log: nat, segment: nat, size: nat)
    requires size > 0 && segment * size < LOG_BYTES
    ensures Log(log * LOG_BYTES + segment * size) == log
    ensures Segment(log * LOG_BYTES + segment * size, size) == segment
  {
    Quotient(segment, size);
  }

  /** The next segment is in the same log or is the first of the next one. */
  lemma {:induction false} NextPosition(lsn: nat, size: nat)
    requires SegmentBoundary(lsn, size)
    ensures SegmentBoundary(lsn + size, size)
    ensures Segment(lsn, size) < SegmentsPerLog(size) <= LOG_BYTES
    ensures if Segment(lsn, size) + 1 >= SegmentsPerLog(size)
      then Log(lsn + size) == Log(lsn) + 1 && Segment(lsn + size, size) == 0
      else Log(lsn + size) == Log(lsn) && Segment(lsn + size, size) == Segment(lsn, size) + 1
  {
    Decompose(lsn, size);
    var log, segment, perLog := Log(lsn), Segment(lsn, size), LOG_BYTES / size;
    assert (segment + 1) * size == segment * size + size;
    if segment + 1 >= perLog {
      assert (log + 1) * LOG_BYTES + 0 * size == lsn + size;
      Recompose(log + 1, 0, size);
    } else {
      MultiplyOrder(segment + 1, perLog, size);
      Recompose(log, segment + 1, size);
    }
    assert lsn + size == (lsn / size + 1) * size;
    Quotient(lsn / size + 1, size);
  }

  /** Segments fill the log space evenly too. */
  lemma {:induction false} EndOfLogAligned(lsn: nat, size: nat)
    requires SegmentBoundary(lsn, size)
    ensures Log(lsn) < LOG_BYTES <==> lsn < LSN_LIMIT
    ensures lsn < LSN_LIMIT ==> lsn + size <= LSN_LIMIT
  {
    Decompose(lsn, size);
    MultiplyOrder(Segment(lsn, size) + 1, LOG_BYTES / size, size);
    MultiplyOrder(LOG_BYTES / size, Segment(lsn, size) + 1, size);
    assert (Segment(lsn, size) + 1) * size == Segment(lsn, size) * size + size;
  }

  lemma {:induction false} BoundaryOrder(lsn1: nat, lsn2: nat, size: nat)
    requires SegmentBoundary(lsn1, size) && SegmentBoundary(lsn2, size)
    ensures lsn1 < lsn2 <==>
      Log(lsn1) < Log(lsn2) || (Log(lsn1) == Log(lsn2) && Segment(lsn1, size) < Segment(lsn2, size))
  {
    Decompose(lsn1, size);
    Decompose(lsn2, size);
    MultiplyOrder(Segment(lsn1, size), Segment(lsn2, size), size);
  }

  // ------------------------------------------------------------ successors

  lemma {:induction false} NameShape(timeline: nat, lsn: nat, size: nat)
    requires timeline < LOG_BYTES && SegmentBoundary(lsn, size)
    ensures var name := SegmentName(timeline, lsn, size);
      Canonical(name) && (lsn < LSN_LIMIT <==> |name| == 24) && (lsn < LSN_LIMIT ==> IsWALFile(name))
  {
    NextPosition(lsn, size);
    EndOfLogAligned(lsn, size);
    SpellShape(PositionOf(timeline, lsn, size));
  }

  lemma {:induction false} NextIsSuccessor(timeline: nat, lsn: nat, size: nat)
    requires timeline < LOG_BYTES && lsn < LSN_LIMIT && SegmentBoundary(lsn, size)
    ensures NextWALName(SegmentName(timeline, lsn, size), SegmentsPerLog(size))
         == Some(SegmentName(timeline, lsn + size, size))
  {
    NextPosition(lsn, size);
    EndOfLogAligned(lsn, size);
    SpellShape(PositionOf(timeline, lsn, size));
    assert PositionOf(timeline, lsn, size).Next(SegmentsPerLog(size)) == PositionOf(timeline, lsn + size, size);
  }

  /** `r` is the name of the segment at `last`: a WAL file name before the end of the log space, a
      name that is too long at its end, and none beyond it. */
  ghost predicate NamesSegmentAt(timeline: nat, last: nat, size: nat, r: Option<string>) {
    && SegmentBoundary(last, size)
    && (last <= LSN_LIMIT ==> r == Some(SegmentName(timeline, last, size)))
    && (last > LSN_LIMIT ==> r == None)
    && (last < LSN_LIMIT <==> r.Some? && IsWALFile(r.value))
  }

  lemma {:induction false} SuccessorStep(timeline: nat, previous: nat, size: nat, r: Option<string>, next: nat,
                                         r': Option<string>)
    requires timeline < LOG_BYTES && NamesSegmentAt(timeline, previous, size, r)
    requires next == previous + size && r' == if r.None? then None else NextWALName(r.value, SegmentsPerLog(size))
    ensures NamesSegmentAt(timeline, next, size, r')
  {
    NextPosition(previous, size);
    EndOfLogAligned(previous, size);
    if previous < LSN_LIMIT {
      NextIsSuccessor(timeline, previous, size);
      NameShape(timeline, previous + size, size);
    } else if previous == LSN_LIMIT {
      NameShape(timeline, previous, size);
    }
  }

  ghost function Advanced(lsn: nat, size: nat, k: nat): (last: nat) {
    if k == 0 then lsn else Advanced(lsn, size, k - 1) + size
  }

  lemma {:induction false} AdvancedIsProduct(lsn: nat, size: nat, k: nat)
    ensures Advanced(lsn, size, k) == lsn + k * size
  {
    if k > 0 {
      AdvancedIsProduct(lsn, size, k - 1);
      assert k * size == (k - 1) * size + size;
    }
  }

  lemma {:induction false} SuccessorNamesStepwise(timeline: nat, lsn: nat, size: nat, k: nat, last: nat)
    requires timeline < LOG_BYTES && lsn < LSN_LIMIT && SegmentBoundary(lsn, size)
    requires last == Advanced(lsn, size, k)
    ensures NamesSegmentAt(timeline, last, size,
      Repeated(Successor(SegmentsPerLog(size)), SegmentName(timeline, lsn, size), k))
  {
    var r := Repeated(Successor(SegmentsPerLog(size)), SegmentName(timeline, lsn, size), k);
    if k == 0 {
      NameShape(timeline, lsn, size);
      assert NamesSegmentAt(timeline, lsn, size, r);
    } else {
      var before := Advanced(lsn, size, k - 1);
      SuccessorNamesStepwise(timeline, lsn, size, k - 1, before);
      var previous := Repeated(Successor(SegmentsPerLog(size)), SegmentName(timeline, lsn, size), k - 1);
      SuccessorStep(timeline, before, size, previous, last, r);
    }
  }

  /** `k` steps lead to the segment `k * size` bytes further on the same timeline, for
      every `k` until the log space is used up. The name printed for the end of the log
      space is the first that is not a WAL file name, and no step leads beyond it. */
  lemma {:induction false} SuccessorNames(timeline: nat, lsn: nat, size: nat, k: nat, last: nat)
    requires timeline < LOG_BYTES && lsn < LSN_LIMIT && SegmentBoundary(lsn, size)
    requires last == lsn + k * size
    ensures NamesSegmentAt(timeline, last, size,
      Repeated(Successor(SegmentsPerLog(size)), SegmentName(timeline, lsn, size), k))
  {
    AdvancedIsProduct(lsn, size, k);
    SuccessorNamesStepwise(timeline, lsn, size, k, last);
  }

  // ------------------------------------------------------------------ order

  lemma {:induction false} FormatOrder(a: nat, b: nat)
    requires a < LOG_BYTES && b < LOG_BYTES
    ensures Below(FormatHex(a, 8), FormatHex(b, 8)) <==> a < b
    ensures FormatHex(a, 8) == FormatHex(b, 8) <==> a == b
  {
    Octet(a);
    Octet(b);
    assert |FormatHex(a, 8)| == |FormatHex(b, 8)| == 8;
    HexOrder(FormatHex(a, 8), FormatHex(b, 8));
  }

  lemma {:induction false} Octets(p: Position)
    requires p.Fits()
    ensures var a := Spell(p);
      && |a| == 24
      && a[..8] == FormatHex(p.timeline, 8)
      && a[8..][..8] == FormatHex(p.log, 8)
      && a[8..][8..] == FormatHex(p.segment, 8)
  {
    Octet(p.timeline);
    Octet(p.log);
    Octet(p.segment);
  }

  lemma {:induction false} SpellOrder(p: Position, q: Position)
    requires p.Fits() && q.Fits()
    ensures Below(Spell(p), Spell(q)) <==>
      || p.timeline < q.timeline
      || (p.timeline == q.timeline && (p.log < q.log || (p.log == q.log && p.segment < q.segment)))
  {
    var a, b := Spell(p), Spell(q);
    Octets(p);
    Octets(q);
    FormatOrder(p.timeline, q.timeline);
    FormatOrder(p.log, q.log);
    FormatOrder(p.segment, q.segment);
    BelowSplit(a, b, 8);
    BelowSplit(a[8..], b[8..], 8);
  }

  /** String order on segment names is (timeline, LSN) order. */
  lemma {:induction false} SegmentNameOrder(t1: nat, lsn1: nat, t2: nat, lsn2: nat, size: nat)
    requires t1 < LOG_BYTES && t2 < LOG_BYTES && lsn1 < LSN_LIMIT && lsn2 < LSN_LIMIT
    requires SegmentBoundary(lsn1, size) && SegmentBoundary(lsn2, size)
    ensures Below(SegmentName(t1, lsn1, size), SegmentName(t2, lsn2, size))
       <==> t1 < t2 || (t1 == t2 && lsn1 < lsn2)
  {
    NextPosition(lsn1, size);
    NextPosition(lsn2, size);
    EndOfLogAligned(lsn1, size);
    EndOfLogAligned(lsn2, size);
    BoundaryOrder(lsn1, lsn2, size);
    SpellOrder(PositionOf(t1, lsn1, size), PositionOf(t2, lsn2, size));
  }
}
