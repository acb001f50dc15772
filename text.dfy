/** Character and string operations of the .NET base library that the
    controllers rely on: case mapping, whitespace trimming, searching,
    replacing, splitting and joining, number formatting and ordinal order.
    Case mapping covers ASCII letters only; comparisons are ordinal. */
module Text {

  datatype Option<T> = None | Some(value: T) {
    /** The C# null-coalescing operator: this ?? d. */
    function GetOr(d: T): T { if Some? then value else d }
  }

  // ---------------------------------------------------------------- case

  function Lower(c: char): char {
    if 'A' <= c <= 'Z' then (c as int + 32) as char else c
  }

  /** String.ToLowerInvariant: maps every character, keeps the length. */
  function LowerAll(s: string): (r: string)
    ensures |r| == |s|
    ensures forall i :: 0 <= i < |s| ==> r[i] == Lower(s[i])
  {
    if s == [] then [] else [Lower(s[0])] + LowerAll(s[1..])
  }

  lemma LowerIdempotent(s: string)
    ensures LowerAll(LowerAll(s)) == LowerAll(s)
  {
  }

  /** String.Equals(a, b, OrdinalIgnoreCase). */
  predicate EqualsIgnoreCase(a: string, b: string) {
    LowerAll(a) == LowerAll(b)
  }

  // ---------------------------------------------------------- whitespace

  /** char.IsWhiteSpace, which String.Trim and string.IsNullOrWhiteSpace
      use: the control characters U+0009 to U+000D, the space, U+0085,
      U+00A0 and the Unicode space separators, line separator and
      paragraph separator. */
  predicate IsWhite(c: char) {
    '\t' <= c <= '\r' || c == ' ' || c == '\U{0085}' || c == '\U{00A0}' || c == '\U{1680}'
    || '\U{2000}' <= c <= '\U{200A}' || c == '\U{2028}' || c == '\U{2029}' || c == '\U{202F}'
    || c == '\U{205F}' || c == '\U{3000}'
  }

  /** string.IsNullOrWhiteSpace for a non-null string. */
  predicate IsBlank(s: string) {
    forall i :: 0 <= i < |s| ==> IsWhite(s[i])
  }

  /** Blankness of a nullable string. */
  predicate IsBlankOpt(s: Option<string>) {
    s.None? || IsBlank(s.value)
  }

  /** string.IsNullOrEmpty. */
  predicate IsEmptyOpt(s: Option<string>) {
    s.None? || s.value == ""
  }

  /** Concatenation is associative (stated once, for the proofs that
      regroup a sum of sequences). */
  lemma AppendAssoc<T>(a: seq<T>, b: seq<T>, c: seq<T>)
    ensures a + b + c == a + (b + c)
  { }

  // ------------------------------------------------------------ trimming

  /** The first position at or after i whose character drop keeps (|s|
      when there is none): where TrimStart's scan stops. */
  function LeadEnd(s: string, drop: char -> bool, i: nat): (r: nat)
    requires i <= |s|
    ensures i <= r <= |s|
    ensures forall k :: i <= k < r ==> drop(s[k])
    ensures r < |s| ==> !drop(s[r])
    decreases |s| - i
  {
    if i < |s| && drop(s[i]) then LeadEnd(s, drop, i + 1) else i
  }

  /** The position just past the last character before j, and not before
      lo, that drop keeps (lo when there is none): where TrimEnd's scan
      stops. */
  function TrailEnd(s: string, drop: char -> bool, lo: nat, j: nat): (r: nat)
    requires lo <= j <= |s|
    ensures lo <= r <= j
    ensures forall k :: r <= k < j ==> drop(s[k])
    ensures lo < r ==> !drop(s[r - 1])
    decreases j
  {
    if lo < j && drop(s[j - 1]) then TrailEnd(s, drop, lo, j - 1) else j
  }

  /** Drops leading characters that satisfy drop (TrimStart). */
  function TrimStartBy(s: string, drop: char -> bool): (r: string)
    ensures |r| <= |s| && r == s[|s| - |r|..]
    ensures r != [] ==> !drop(r[0])
    ensures forall i :: 0 <= i < |s| - |r| ==> drop(s[i])
  {
    s[LeadEnd(s, drop, 0)..]
  }

  /** Drops trailing characters that satisfy drop (TrimEnd). */
  function TrimEndBy(s: string, drop: char -> bool): (r: string)
    ensures |r| <= |s| && r == s[..|r|]
    ensures r != [] ==> !drop(r[|r| - 1])
    ensures forall i :: |r| <= i < |s| ==> drop(s[i])
  {
    s[..TrailEnd(s, drop, 0, |s|)]
  }

  /** Trim at both ends: the slice between the two scans' stopping
      points, the end scan never passing the start one. */
  function TrimBy(s: string, drop: char -> bool): string {
    var lo := LeadEnd(s, drop, 0);
    s[lo..TrailEnd(s, drop, lo, |s|)]
  }

  /** What trimming means: the result is a contiguous slice of the input,
      everything cut off satisfies drop, and the result does not start or
      end with such a character. */
  lemma TrimBySlice(s: string, drop: char -> bool)
    ensures var r := TrimBy(s, drop); var lo := |s| - |TrimStartBy(s, drop)|;
      0 <= lo <= |s| - |r| && (forall k :: 0 <= k < |r| ==> r[k] == s[lo + k])
        && (forall i :: 0 <= i < lo ==> drop(s[i]))
        && (forall i :: lo + |r| <= i < |s| ==> drop(s[i]))
        && (r != [] ==> !drop(r[0]) && !drop(r[|r| - 1]))
  {
    TrimSliceChars(s, drop);
    TrimSliceCut(s, drop);
    TrimSliceEnds(s, drop);
  }

  lemma TrimSliceChars(s: string, drop: char -> bool)
    ensures var r := TrimBy(s, drop); var lo := |s| - |TrimStartBy(s, drop)|;
      0 <= lo <= |s| - |r| && forall k :: 0 <= k < |r| ==> r[k] == s[lo + k]
  {
    TrimStartLead(s, drop);
    var lo := LeadEnd(s, drop, 0);
    MiddleSlice(s, lo, TrailEnd(s, drop, lo, |s|));
  }

  lemma TrimSliceCut(s: string, drop: char -> bool)
    ensures var r := TrimBy(s, drop); var lo := |s| - |TrimStartBy(s, drop)|;
      (forall i :: 0 <= i < lo ==> drop(s[i])) && (forall i :: lo + |r| <= i < |s| ==> drop(s[i]))
  {
    TrimStartLead(s, drop);
  }

  lemma TrimSliceEnds(s: string, drop: char -> bool)
    ensures var r := TrimBy(s, drop); r != [] ==> !drop(r[0]) && !drop(r[|r| - 1])
  {
    var lo := LeadEnd(s, drop, 0);
    var hi := TrailEnd(s, drop, lo, |s|);
    MiddleSlice(s, lo, hi);
  }

  lemma TrimStartLead(s: string, drop: char -> bool)
    ensures |s| - |TrimStartBy(s, drop)| == LeadEnd(s, drop, 0)
  { }

  /** The characters of a middle slice are those of the whole. */
  lemma MiddleSlice<T>(s: seq<T>, lo: nat, hi: nat)
    requires lo <= hi <= |s|
    ensures |s[lo..hi]| == hi - lo && forall k :: 0 <= k < hi - lo ==> s[lo..hi][k] == s[lo + k]
  { }

  /** A character trimming does not drop stays in the result. */
  lemma TrimKeeps(s: string, drop: char -> bool, i: nat)
    requires i < |s| && !drop(s[i])
    ensures var lo := |s| - |TrimStartBy(s, drop)|;
      lo <= i < lo + |TrimBy(s, drop)| && TrimBy(s, drop)[i - lo] == s[i]
  {
    TrimBySlice(s, drop);
  }

  /** Trimming a string that does not start with a dropped character only
      trims its end. */
  lemma TrimByKeptStart(s: string, drop: char -> bool)
    requires s != [] && !drop(s[0])
    ensures TrimBy(s, drop) == TrimEndBy(s, drop)
  {
    assert LeadEnd(s, drop, 0) == 0;
  }

  /** Trimming twice changes nothing. */
  lemma TrimByIdempotent(s: string, drop: char -> bool)
    ensures TrimBy(TrimBy(s, drop), drop) == TrimBy(s, drop)
  {
    TrimBySlice(s, drop);
    TrimByNoop(TrimBy(s, drop), drop);
  }

  /** Trimming leaves a string alone whose ends are not dropped. */
  lemma TrimByNoop(s: string, drop: char -> bool)
    requires s != [] ==> !drop(s[0]) && !drop(s[|s| - 1])
    ensures TrimBy(s, drop) == s
  {
    if s != [] {
      assert LeadEnd(s, drop, 0) == 0;
      assert TrailEnd(s, drop, 0, |s|) == |s|;
    }
  }

  /** Trimming the end keeps every position up to the last kept character. */
  lemma TrimEndKeeps(s: string, drop: char -> bool, k: nat)
    requires k < |s| && !drop(s[k])
    ensures k < |TrimEndBy(s, drop)|
  {
  }

  /** String.Trim(): drops whitespace at both ends. */
  function Trim(s: string): string {
    TrimBy(s, IsWhite)
  }

  /** String.Trim(c): drops the character c at both ends. */
  function TrimChar(s: string, c: char): string {
    TrimBy(s, x => x == c)
  }

  /** String.TrimStart(c). */
  function TrimStartChar(s: string, c: char): string {
    TrimStartBy(s, x => x == c)
  }

  /** A string is blank exactly when it trims to the empty string. */
  lemma {:induction false} BlankIffTrimsEmpty(s: string)
    ensures IsBlank(s) <==> Trim(s) == ""
  {
    TrimBySlice(s, IsWhite);
  }

  // ------------------------------------------------------------ searching

  predicate OccursAt(s: string, key: string, i: int) {
    0 <= i && i + |key| <= |s| && s[i..i + |key|] == key
  }

  /** First occurrence of key in s at or after position i. */
  function IndexOfFrom(s: string, key: string, i: nat): (r: Option<nat>)
    decreases |s| - i
    ensures r.Some? ==> i <= r.value && OccursAt(s, key, r.value)
    ensures r.Some? ==> forall j :: i <= j < r.value ==> !OccursAt(s, key, j)
    ensures r.None? ==> forall j :: i <= j ==> !OccursAt(s, key, j)
  {
    if i + |key| > |s| then None
    else if s[i..i + |key|] == key then Some(i)
    else IndexOfFrom(s, key, i + 1)
  }

  /** String.IndexOf(key), ordinal: the first occurrence, or None for -1. */
  function IndexOf(s: string, key: string): (r: Option<nat>)
    ensures r.Some? <==> exists j :: OccursAt(s, key, j)
    ensures r.Some? ==> OccursAt(s, key, r.value) && forall j :: 0 <= j < r.value ==> !OccursAt(s, key, j)
  {
    IndexOfFrom(s, key, 0)
  }

  predicate Contains(s: string, key: string) {
    IndexOf(s, key).Some?
  }

  /** Case-insensitive containment of a lower-case key. */
  predicate ContainsIgnoreCase(s: string, key: string) {
    Contains(LowerAll(s), LowerAll(key))
  }

  /** A key occurs only where each of its characters does. */
  lemma OccurrenceHasChar(s: string, key: string, k: nat)
    requires k < |key| && Contains(s, key)
    ensures ContainsChar(s, key[k])
  {
    var j := IndexOf(s, key).value;
    assert s[j..j + |key|][k] == s[j + k];
  }

  predicate ContainsChar(s: string, c: char) {
    exists i :: 0 <= i < |s| && s[i] == c
  }

  lemma ContainsCharIff(s: string, c: char)
    ensures Contains(s, [c]) <==> ContainsChar(s, c)
  {
    if ContainsChar(s, c) {
      var i :| 0 <= i < |s| && s[i] == c;
      assert OccursAt(s, [c], i);
    }
    if Contains(s, [c]) {
      var j := IndexOf(s, [c]).value;
      assert s[j..j + 1] == [c];
      assert s[j] == c;
    }
  }

  predicate StartsWith(s: string, prefix: string) {
    |prefix| <= |s| && s[..|prefix|] == prefix
  }

  predicate StartsWithIgnoreCase(s: string, prefix: string) {
    StartsWith(LowerAll(s), LowerAll(prefix))
  }

  // ------------------------------------------------------------ replacing

  /** String.Replace(char, char). */
  function ReplaceChar(s: string, a: char, b: char): (r: string)
    ensures |r| == |s|
    ensures forall i :: 0 <= i < |s| ==> r[i] == if s[i] == a then b else s[i]
  {
    if s == [] then [] else [if s[0] == a then b else s[0]] + ReplaceChar(s[1..], a, b)
  }

  lemma ReplaceCharNoop(s: string, a: char, b: char)
    requires forall i :: 0 <= i < |s| ==> s[i] != a
    ensures ReplaceChar(s, a, b) == s
  {
    var r := ReplaceChar(s, a, b);
    assert forall i :: 0 <= i < |s| ==> r[i] == s[i];
  }

  lemma ReplaceCharAppend(s: string, t: string, a: char, b: char)
    ensures ReplaceChar(s + t, a, b) == ReplaceChar(s, a, b) + ReplaceChar(t, a, b)
  {
  }

  /** String.Replace(string, string): every non-overlapping occurrence of
      o, scanning left to right, is replaced by n. */
  function ReplaceAll(s: string, o: string, n: string): string
    requires |o| > 0
    decreases |s|
  {
    if |s| < |o| then s
    else if s[..|o|] == o then n + ReplaceAll(s[|o|..], o, n)
    else [s[0]] + ReplaceAll(s[1..], o, n)
  }

  /** A string without an occurrence is left as it is. */
  lemma {:induction false} ReplaceAllAbsent(s: string, o: string, n: string)
    requires |o| > 0
    requires !Contains(s, o)
    ensures ReplaceAll(s, o, n) == s
  {
    if |s| >= |o| {
      assert !OccursAt(s, o, 0);
      assert s[..|o|] != o;
      forall j | 0 <= j ensures !OccursAt(s[1..], o, j) {
        if OccursAt(s[1..], o, j) {
          assert s[1..][j..j + |o|] == s[j + 1..j + 1 + |o|];
          assert OccursAt(s, o, j + 1);
        }
      }
      ReplaceAllAbsent(s[1..], o, n);
    }
  }

  /** A leading occurrence is replaced and the scan resumes after it. */
  lemma ReplaceAllLeading(o: string, rest: string, n: string)
    requires |o| > 0
    ensures ReplaceAll(o + rest, o, n) == n + ReplaceAll(rest, o, n)
  {
    assert (o + rest)[..|o|] == o;
    assert (o + rest)[|o|..] == rest;
  }

  // ------------------------------------------------- splitting and joining

  /** String.Join(sep, parts). */
  function Join(parts: seq<string>, sep: string): string {
    if parts == [] then ""
    else if |parts| == 1 then parts[0]
    else parts[0] + sep + Join(parts[1..], sep)
  }

  /** String.Split(sep): the pieces between separators, at least one. */
  function Split(s: string, sep: char): (r: seq<string>)
    ensures |r| >= 1
    decreases |s|
  {
    if s == [] then [""]
    else if s[0] == sep then [""] + Split(s[1..], sep)
    else var t := Split(s[1..], sep); [[s[0]] + t[0]] + t[1..]
  }

  lemma {:induction false} SplitNoSep(s: string, sep: char)
    requires !ContainsChar(s, sep)
    ensures Split(s, sep) == [s]
  {
    if s != [] {
      assert !ContainsChar(s[1..], sep) by {
        forall i | 0 <= i < |s[1..]| ensures s[1..][i] != sep {
          assert s[1..][i] == s[i + 1];
        }
      }
      SplitNoSep(s[1..], sep);
      assert s[0] != sep;
      assert [s[0]] + s[1..] == s;
    }
  }

  lemma {:induction false} SplitPrefix(a: string, rest: string, sep: char)
    requires !ContainsChar(a, sep)
    ensures Split(a + [sep] + rest, sep) == [a] + Split(rest, sep)
  {
    if a == [] {
      assert a + [sep] + rest == [sep] + rest;
      assert ([sep] + rest)[1..] == rest;
    } else {
      assert !ContainsChar(a[1..], sep) by {
        forall i | 0 <= i < |a[1..]| ensures a[1..][i] != sep {
          assert a[1..][i] == a[i + 1];
        }
      }
      SplitPrefix(a[1..], rest, sep);
      var s := a + [sep] + rest;
      assert s[0] == a[0] && s[0] != sep;
      assert s[1..] == a[1..] + [sep] + rest;
      assert [a[0]] + a[1..] == a;
    }
  }

  /** Splitting a join recovers the parts when none of them holds the
      separator: the round trip of separator-joined text. */
  lemma {:induction false} SplitJoin(parts: seq<string>, sep: char)
    requires |parts| >= 1
    requires forall k :: 0 <= k < |parts| ==> !ContainsChar(parts[k], sep)
    ensures Split(Join(parts, [sep]), sep) == parts
  {
    if |parts| == 1 {
      SplitNoSep(parts[0], sep);
    } else {
      SplitJoin(parts[1..], sep);
      SplitPrefix(parts[0], Join(parts[1..], [sep]), sep);
      assert [parts[0]] + parts[1..] == parts;
    }
  }

  /** Number of occurrences of the character c in s. */
  function CountChar(s: string, c: char): nat {
    if s == [] then 0 else (if s[0] == c then 1 else 0) + CountChar(s[1..], c)
  }

  lemma {:induction false} CountCharAppend(a: string, b: string, c: char)
    ensures CountChar(a + b, c) == CountChar(a, c) + CountChar(b, c)
  {
    if a != [] {
      assert (a + b)[1..] == a[1..] + b;
      CountCharAppend(a[1..], b, c);
    } else {
      assert a + b == b;
    }
  }

  lemma {:induction false} CountCharZero(s: string, c: char)
    ensures CountChar(s, c) == 0 <==> !ContainsChar(s, c)
  {
    if s != [] {
      CountCharZero(s[1..], c);
      if ContainsChar(s[1..], c) {
        var i :| 0 <= i < |s[1..]| && s[1..][i] == c;
        assert s[i + 1] == c;
      }
      if ContainsChar(s, c) && s[0] != c {
        var i :| 0 <= i < |s| && s[i] == c;
        assert s[1..][i - 1] == c;
      }
    }
  }

  /** Split yields one piece more than there are separators. */
  lemma {:induction false} SplitCount(s: string, sep: char)
    ensures |Split(s, sep)| == 1 + CountChar(s, sep)
  {
    if s != [] {
      SplitCount(s[1..], sep);
    }
  }

  /** Total number of occurrences of c over all the parts. */
  function CountInParts(parts: seq<string>, c: char): nat {
    if parts == [] then 0 else CountChar(parts[0], c) + CountInParts(parts[1..], c)
  }

  lemma {:induction false} JoinCount(parts: seq<string>, sep: char)
    requires |parts| >= 1
    ensures CountChar(Join(parts, [sep]), sep) == |parts| - 1 + CountInParts(parts, sep)
  {
    if |parts| == 1 {
      assert parts[1..] == [];
    } else {
      JoinCount(parts[1..], sep);
      CountCharAppend(parts[0], [sep] + Join(parts[1..], [sep]), sep);
      CountCharAppend([sep], Join(parts[1..], [sep]), sep);
      assert parts[0] + [sep] + Join(parts[1..], [sep]) == parts[0] + ([sep] + Join(parts[1..], [sep]));
    }
  }

  lemma {:induction false} CountInPartsZero(parts: seq<string>, c: char)
    ensures CountInParts(parts, c) == 0 <==> forall k :: 0 <= k < |parts| ==> !ContainsChar(parts[k], c)
  {
    if parts != [] {
      CountInPartsZero(parts[1..], c);
      CountCharZero(parts[0], c);
      assert forall k :: 1 <= k < |parts| ==> parts[k] == parts[1..][k - 1];
    }
  }

  /** Splitting separator-joined parts gives back exactly as many pieces
      as there were parts if and only if no part holds the separator. */
  lemma PieceCountIff(parts: seq<string>, sep: char)
    requires |parts| >= 1
    ensures |Split(Join(parts, [sep]), sep)| == |parts|
        <==> forall k :: 0 <= k < |parts| ==> !ContainsChar(parts[k], sep)
  {
    SplitCount(Join(parts, [sep]), sep);
    JoinCount(parts, sep);
    CountInPartsZero(parts, sep);
  }

  // ------------------------------------------------------------- numbers

  function DigitChar(d: nat): char
    requires d < 10
  {
    ('0' as int + d) as char
  }

  predicate IsDigit(c: char) { '0' <= c <= '9' }

  /** Decimal rendering of a natural number, no leading zeros. */
  function NatToString(n: nat): (r: string)
    ensures |r| >= 1
    ensures forall i :: 0 <= i < |r| ==> IsDigit(r[i])
  {
    if n < 10 then [DigitChar(n)] else NatToString(n / 10) + [DigitChar(n % 10)]
  }

  /** Int32.ToString(): digits with a leading '-' for negatives. */
  function IntToString(i: int): (r: string)
    ensures |r| >= 1
    ensures forall k :: 0 <= k < |r| ==> IsDigit(r[k]) || r[k] == '-'
  {
    if i < 0 then "-" + NatToString(-i) else NatToString(i)
  }

  function Zeros(k: nat): (r: string)
    ensures |r| == k && forall i :: 0 <= i < k ==> r[i] == '0'
  {
    if k == 0 then "" else "0" + Zeros(k - 1)
  }

  /** Zero-padded decimal rendering with at least width digits, as the
      custom date format specifiers "yyyy", "MM", "dd", "HH", "mm" write. */
  function PadNat(n: nat, width: nat): (r: string)
    ensures |r| >= width
    ensures forall i :: 0 <= i < |r| ==> IsDigit(r[i])
  {
    var s := NatToString(n);
    if |s| >= width then s else Zeros(width - |s|) + s
  }

  // ------------------------------------------------------ ordinal order

  /** Ordinal (code point) order on strings: a proper prefix comes first,
      otherwise the first differing character decides. */
  predicate Less(a: string, b: string)
    decreases |a|
  {
    if a == [] then b != []
    else if b == [] then false
    else if a[0] != b[0] then a[0] < b[0]
    else Less(a[1..], b[1..])
  }

  lemma {:induction false} LessIrreflexive(a: string)
    ensures !Less(a, a)
  {
    if a != [] { LessIrreflexive(a[1..]); }
  }

  lemma {:induction false} LessTransitive(a: string, b: string, c: string)
    requires Less(a, b) && Less(b, c)
    ensures Less(a, c)
    decreases |a|
  {
    if a != [] && b != [] && c != [] && a[0] == b[0] && b[0] == c[0] {
      LessTransitive(a[1..], b[1..], c[1..]);
    }
  }

  lemma {:induction false} LessTotal(a: string, b: string)
    ensures a == b || Less(a, b) || Less(b, a)
    decreases |a|
  {
    if a != [] && b != [] && a[0] == b[0] {
      LessTotal(a[1..], b[1..]);
      if a[1..] == b[1..] {
        assert a == [a[0]] + a[1..] && b == [b[0]] + b[1..];
      }
    }
  }

  lemma {:induction false} LessAsymmetric(a: string, b: string)
    requires Less(a, b)
    ensures !Less(b, a)
  {
    if Less(b, a) {
      LessTransitive(a, b, a);
      LessIrreflexive(a);
    }
  }
}
