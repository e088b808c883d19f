/** WAL file names: the order Go's `strings.Compare` puts on them, their shape,
    the `.partial` suffix, and where a name is filed in the archive. */
module WalNames {

  datatype Option<+T> = None | Some(value: T)

  // ---------------------------------------------------------------- order

  /** `strings.Compare(a, b) == -1`. */
  predicate Below(a: string, b: string) {
    b != "" && (a == "" || a[0] < b[0] || (a[0] == b[0] && Below(a[1..], b[1..])))
  }

  lemma {:induction false} BelowTotal(a: string, b: string)
    ensures a == b || Below(a, b) || Below(b, a)
    ensures !(Below(a, b) && Below(b, a))
    ensures Below(a, b) ==> a != b
  {
    if a != "" && b != "" {
      BelowTotal(a[1..], b[1..]);
      if a[0] == b[0] && a[1..] == b[1..] {
        assert a == [a[0]] + a[1..] == [b[0]] + b[1..] == b;
      }
    }
  }

  lemma {:induction false} BelowTransitive(a: string, b: string, c: string)
    requires Below(a, b) && Below(b, c)
    ensures Below(a, c)
  {
    if a != "" {
      if a[0] == b[0] == c[0] { BelowTransitive(a[1..], b[1..], c[1..]); }
    }
  }

  /** `a` is at or before `b` and `b` at or before `c`. */
  lemma {:induction false} AtMostTransitive(a: string, b: string, c: string)
    requires !Below(b, a) && !Below(c, b)
    ensures !Below(c, a)
  {
    BelowTotal(a, b);
    BelowTotal(b, c);
    BelowTotal(a, c);
    if Below(a, b) && Below(b, c) { BelowTransitive(a, b, c); }
  }

  /** The order can be decided on a common-length prefix first. */
  lemma {:induction false} BelowSplit(a: string, b: string, k: nat)
    requires k <= |a| && k <= |b|
    ensures Below(a, b) <==> Below(a[..k], b[..k]) || (a[..k] == b[..k] && Below(a[k..], b[k..]))
    decreases k
  {
    if k == 0 {
      assert a[0..] == a && b[0..] == b;
    } else {
      BelowSplit(a[1..], b[1..], k - 1);
      assert a[..k][1..] == a[1..][..k - 1] && b[..k][1..] == b[1..][..k - 1];
      assert a[1..][k - 1..] == a[k..] && b[1..][k - 1..] == b[k..];
      assert a[..k] == [a[0]] + a[1..][..k - 1] && b[..k] == [b[0]] + b[1..][..k - 1];
    }
  }

  /** Cutting both names to the same length can lose a strict order, never invert it. */
  lemma {:induction false} PrefixMonotone(a: string, b: string, k: nat)
    requires k <= |a| && k <= |b|
    requires !Below(b, a)
    ensures !Below(b[..k], a[..k])
  {
    BelowSplit(b, a, k);
  }

  // ---------------------------------------------------------------- shape

  const PARTIAL_SUFFIX := ".partial"
  const SUBDIRECTORY_LENGTH := 16
  const WAL_NAME_LENGTH := 24

  predicate IsHexDigit(c: char) {
    '0' <= c <= '9' || 'A' <= c <= 'F' || 'a' <= c <= 'f'
  }

  predicate AllHex(s: string) {
    forall i :: 0 <= i < |s| ==> IsHexDigit(s[i])
  }

  predicate EndsWith(s: string, suffix: string) {
    |suffix| <= |s| && s[|s| - |suffix|..] == suffix
  }

  /** A complete segment: 24 hexadecimal digits. */
  predicate IsWALFile(name: string) {
    |name| == WAL_NAME_LENGTH && AllHex(name)
  }

  function TrimPartialSuffix(name: string): (r: string)
    ensures !EndsWith(name, PARTIAL_SUFFIX) ==> r == name
    ensures EndsWith(name, PARTIAL_SUFFIX) ==> name == r + PARTIAL_SUFFIX
  {
    if EndsWith(name, PARTIAL_SUFFIX) then name[..|name| - |PARTIAL_SUFFIX|] else name
  }

  function WithPartialSuffix(name: string): (r: string)
    ensures EndsWith(r, PARTIAL_SUFFIX) && TrimPartialSuffix(r) == TrimPartialSuffix(name)
  {
    if EndsWith(name, PARTIAL_SUFFIX) then name else
      assert (name + PARTIAL_SUFFIX)[..|name|] == name;
      name + PARTIAL_SUFFIX
  }

  predicate IsPartialWALFile(name: string) {
    EndsWith(name, PARTIAL_SUFFIX) && IsWALFile(TrimPartialSuffix(name))
  }

  predicate IsWALSegmentOrPartial(name: string) {
    IsWALFile(name) || IsPartialWALFile(name)
  }

  /** The regular expression of `ValidateWalFileName`, one disjunct per branch:
      segment, backup label, partial segment, history file. */
  predicate ValidWalFileName(name: string) {
    || IsWALFile(name)
    || (|name| == 40 && AllHex(name[..24]) && name[24] == '.' && AllHex(name[25..33]) && name[33..] == ".backup")
    || (|name| == 32 && AllHex(name[..24]) && name[24..] == PARTIAL_SUFFIX)
    || (|name| == 16 && AllHex(name[..8]) && name[8..] == ".history")
  }

  /** The valid names, put together from their parts: timeline, position and offset are hexadecimal. */
  ghost predicate HasParts(name: string, timeline: string, position: string, offset: string) {
    && |timeline| == 8 && |position| == 16 && |offset| == 8
    && AllHex(timeline) && AllHex(position) && AllHex(offset)
    && (|| name == timeline + position
        || name == timeline + position + "." + offset + ".backup"
        || name == timeline + position + ".partial"
        || name == timeline + ".history")
  }

  lemma {:induction false} ValidNamesHaveParts(name: string)
    ensures ValidWalFileName(name) <==> exists timeline, position, offset :: HasParts(name, timeline, position, offset)
  {
    if timeline, position, offset :| HasParts(name, timeline, position, offset) {
      PartsAreValid(name, timeline, position, offset);
    }
    if ValidWalFileName(name) {
      var digits := "0000000000000000";
      var timeline := name[..8];
      var position := if |name| == 16 then digits else name[8..24];
      var offset := if |name| == 40 then name[25..33] else digits[..8];
      CutIntoParts(name, timeline, position, offset);
    }
  }

  lemma {:induction false} PartsAreValid(name: string, timeline: string, position: string, offset: string)
    requires HasParts(name, timeline, position, offset)
    ensures ValidWalFileName(name)
  {
    assert name[..8] == timeline;
    if name == timeline + ".history" {
      assert name[8..] == ".history";
    } else {
      assert name[..24] == timeline + position;
      if name == timeline + position + "." + offset + ".backup" {
        assert name[25..33] == offset && name[33..] == ".backup";
      } else if name == timeline + position + ".partial" {
        assert name[24..] == ".partial";
      }
    }
  }

  lemma {:induction false} CutIntoParts(name: string, timeline: string, position: string, offset: string)
    requires ValidWalFileName(name) && |position| == 16 && |offset| == 8 && AllHex(position) && AllHex(offset)
    requires timeline == name[..8] && (|name| >= 24 ==> position == name[8..24])
    requires |name| == 40 ==> offset == name[25..33]
    ensures HasParts(name, timeline, position, offset)
  {
    if |name| == 16 {
      assert name == timeline + name[8..];
    } else {
      assert name[..24] == timeline + position;
      if |name| == 24 {
        assert name == name[..24];
      } else if |name| == 32 {
        assert name == name[..24] + name[24..];
      } else {
        assert name == name[..24] + [name[24]] + name[25..33] + name[33..];
      }
    }
  }

  /** The length of `name` without its `path.Ext`, the part from the last dot on. */
  function StemLength(name: string): (r: nat)
    ensures r <= |name|
    ensures r == |name| ==> '.' !in name
    ensures r < |name| ==> name[r] == '.' && '.' !in name[r + 1..]
  {
    if name == "" then 0
    else if name[|name| - 1] == '.' then |name| - 1
    else
      var n := |name| - 1;
      var r := StemLength(name[..n]);
      assert name == name[..n] + [name[n]];
      if r == n then |name| else
        assert name[r + 1..] == name[..n][r + 1..] + [name[n]];
        r
  }

  /** The subdirectory `getWALArchivePath` files `name` under, if any. */
  function ArchiveDirectory(name: string): (r: Option<string>) {
    if StemLength(name) == WAL_NAME_LENGTH then Some(name[..SUBDIRECTORY_LENGTH]) else None
  }

  lemma {:induction false} StemUnique(name: string, k: nat)
    requires k < |name| && name[k] == '.' && '.' !in name[k + 1..]
    ensures StemLength(name) == k
  {
    var r := StemLength(name);
    assert name[k] in name;
    forall i | k < i < |name| ensures name[i] != '.' { assert name[i] == name[k + 1..][i - k - 1]; }
    forall i | r < i < |name| ensures name[i] != '.' { assert name[i] == name[r + 1..][i - r - 1]; }
  }

  /** Every valid name can be cut at 16 characters, and the files that get a
      subdirectory are exactly the segments and their partials, which share
      the directory named after their first 16 characters. */
  lemma {:induction false} ValidNamesPlacement(name: string)
    requires ValidWalFileName(name)
    ensures |name| >= SUBDIRECTORY_LENGTH
    ensures ArchiveDirectory(name).Some? <==> IsWALSegmentOrPartial(name)
    ensures IsWALSegmentOrPartial(name) ==>
      && |TrimPartialSuffix(name)| == WAL_NAME_LENGTH
      && ArchiveDirectory(name) == Some(name[..SUBDIRECTORY_LENGTH])
      && name[..SUBDIRECTORY_LENGTH] == TrimPartialSuffix(name)[..SUBDIRECTORY_LENGTH]
  {
    if IsWALSegmentOrPartial(name) { SegmentPlacement(name); }
    if |name| == 40 && name[33..] == ".backup" {
      assert name[33] == '.' && name[34..] == name[33..][1..] == "backup";
      StemUnique(name, 33);
      assert name[32..][7] == name[39] == name[33..][6] == 'p';
    } else if |name| == 16 && name[8..] == ".history" {
      assert name[8] == '.' && name[9..] == name[8..][1..] == "history";
      StemUnique(name, 8);
      assert name[15] == name[8..][7] == 'y';
    } else if |name| == 32 {
      assert TrimPartialSuffix(name) == name[..24];
    }
  }

  lemma {:induction false} SegmentPlacement(name: string)
    requires IsWALSegmentOrPartial(name)
    ensures |name| >= SUBDIRECTORY_LENGTH && |TrimPartialSuffix(name)| == WAL_NAME_LENGTH
    ensures IsWALFile(TrimPartialSuffix(name))
    ensures ArchiveDirectory(name) == Some(name[..SUBDIRECTORY_LENGTH])
    ensures name[..SUBDIRECTORY_LENGTH] == TrimPartialSuffix(name)[..SUBDIRECTORY_LENGTH]
  {
    if IsWALFile(name) {
      assert '.' !in name;
      assert name[16..][0] == name[16] != '.';
    } else {
      assert name[24] == name[24..][0] == '.';
      assert name[25..] == name[24..][1..] == "partial";
      StemUnique(name, 24);
    }
  }
}
