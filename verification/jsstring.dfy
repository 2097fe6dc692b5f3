/** The JavaScript `String.prototype` operations the core relies on, with
    their ECMAScript semantics: `split` on a one-character separator, `join`,
    `trim`, `indexOf`, `includes`, `startsWith`, `endsWith` and `substring`
    (which clamps negative and oversized indices and swaps reversed bounds). */
module JsString {

  /** The code points `trim` removes: ECMAScript's WhiteSpace (TAB, VT, FF,
      ZWNBSP and the space separators) and LineTerminator (LF, CR, LS, PS). */
  predicate IsWhitespace(c: char) {
    c in LoneWhitespace || '\U{2000}' <= c <= '\U{200A}'
  }

  /** The whitespace code points outside the range U+2000 to U+200A. */
  const LoneWhitespace: set<char> := {
    '\t', '\n', '\U{B}', '\U{C}', '\r', ' ', '\U{A0}', '\U{1680}',
    '\U{2028}', '\U{2029}', '\U{202F}', '\U{205F}', '\U{3000}', '\U{FEFF}'}

  /** `s` has no whitespace at either end. */
  predicate IsTrimmed(s: string) {
    |s| == 0 || (!IsWhitespace(s[0]) && !IsWhitespace(s[|s| - 1]))
  }

  /** The first index at or after `i` that does not hold whitespace, or `|s|`. */
  function SkipWhitespace(s: string, i: nat): (r: nat)
    requires i <= |s|
    ensures i <= r <= |s|
    ensures forall k :: i <= k < r ==> IsWhitespace(s[k])
    ensures r < |s| ==> !IsWhitespace(s[r])
    decreases |s| - i
  {
    if i < |s| && IsWhitespace(s[i]) then SkipWhitespace(s, i + 1) else i
  }

  /** The end of `s[lo..j]` once its trailing whitespace is dropped. */
  function SkipWhitespaceBack(s: string, lo: nat, j: nat): (r: nat)
    requires lo <= j <= |s|
    ensures lo <= r <= j
    ensures forall k :: r <= k < j ==> IsWhitespace(s[k])
    ensures r > lo ==> !IsWhitespace(s[r - 1])
  {
    if j > lo && IsWhitespace(s[j - 1]) then SkipWhitespaceBack(s, lo, j - 1) else j
  }

  /** `r` is the slice of `s` starting at `lo`, and everything of `s` outside it is whitespace. */
  predicate IsCoreAt(s: string, r: string, lo: int) {
    && 0 <= lo <= |s| - |r|
    && r == s[lo..lo + |r|]
    && (forall i :: 0 <= i < lo ==> IsWhitespace(s[i]))
    && (forall i :: lo + |r| <= i < |s| ==> IsWhitespace(s[i]))
  }

  /** `String.prototype.trim`: the result is the slice of `s` left after
      dropping the whitespace at both ends. */
  function Trim(s: string): (r: string)
    ensures IsTrimmed(r)
    ensures exists lo :: IsCoreAt(s, r, lo)
  {
    var lo := SkipWhitespace(s, 0);
    var hi := SkipWhitespaceBack(s, lo, |s|);
    var r := s[lo..hi];
    assert |r| > 0 ==> r[0] == s[lo] && r[|r| - 1] == s[hi - 1];
    assert IsCoreAt(s, r, lo);
    r
  }

  /** A string without edge whitespace is left unchanged by `trim`. */
  lemma TrimOfTrimmed(s: string)
    requires IsTrimmed(s)
    ensures Trim(s) == s
  {
  }

  /** `trim` is idempotent. */
  lemma TrimIdempotent(s: string)
    ensures Trim(Trim(s)) == Trim(s)
  {
    TrimOfTrimmed(Trim(s));
  }

  /** `s.split(sep)` for a one-character separator: the maximal runs of `s`
      between separators, including empty ones at the ends and between
      adjacent separators. */
  function Split(s: string, sep: char): (r: seq<string>)
    ensures |r| >= 1
    ensures forall k :: 0 <= k < |r| ==> sep !in r[k]
  {
    if |s| == 0 then [""]
    else
      var rest := Split(s[1..], sep);
      if s[0] == sep then [""] + rest
      else [[s[0]] + rest[0]] + rest[1..]
  }

  /** `parts.join(sep)` for a one-character separator. */
  function Join(parts: seq<string>, sep: char): string {
    if |parts| == 0 then ""
    else if |parts| == 1 then parts[0]
    else parts[0] + [sep] + Join(parts[1..], sep)
  }

  /** Joining the pieces of a split gives back the original string. */
  lemma {:induction false} JoinSplit(s: string, sep: char)
    ensures Join(Split(s, sep), sep) == s
  {
    if |s| > 0 {
      var rest := Split(s[1..], sep);
      JoinSplit(s[1..], sep);
      if s[0] == sep {
        assert Split(s, sep) == [""] + rest;
        assert ([""] + rest)[1..] == rest;
      } else {
        var r := Split(s, sep);
        assert r == [[s[0]] + rest[0]] + rest[1..];
        if |rest| == 1 {
          assert Join(r, sep) == [s[0]] + rest[0];
        } else {
          assert r[1..] == rest[1..];
          assert Join(rest, sep) == rest[0] + [sep] + Join(rest[1..], sep);
        }
      }
    }
  }

  /** Splitting a join of separator-free pieces gives back the pieces. */
  lemma {:induction false} SplitJoin(parts: seq<string>, sep: char)
    requires |parts| >= 1
    requires forall k :: 0 <= k < |parts| ==> sep !in parts[k]
    ensures Split(Join(parts, sep), sep) == parts
  {
    if |parts| == 1 {
      SplitNoSeparator(parts[0], sep);
    } else {
      SplitJoin(parts[1..], sep);
      SplitPrefix(parts[0], Join(parts[1..], sep), sep);
      assert [parts[0]] + parts[1..] == parts;
    }
  }

  /** A string without separator splits into itself. */
  lemma {:induction false} SplitNoSeparator(s: string, sep: char)
    requires sep !in s
    ensures Split(s, sep) == [s]
  {
    if |s| > 0 {
      SplitNoSeparator(s[1..], sep);
      assert [s[0]] + s[1..] == s;
    }
  }

  /** Splitting `a + sep + b`, with `a` separator-free, puts `a` in front of the pieces of `b`. */
  lemma {:induction false} SplitPrefix(a: string, b: string, sep: char)
    requires sep !in a
    ensures Split(a + [sep] + b, sep) == [a] + Split(b, sep)
  {
    if |a| == 0 {
      assert a + [sep] + b == [sep] + b;
      assert ([sep] + b)[1..] == b;
    } else {
      SplitPrefix(a[1..], b, sep);
      assert (a + [sep] + b)[1..] == a[1..] + [sep] + b;
      assert [a[0]] + a[1..] == a;
    }
  }

  /** The last piece of a join of two or more pieces follows the last separator. */
  lemma {:induction false} JoinLast(parts: seq<string>, sep: char)
    requires |parts| >= 2
    ensures Join(parts, sep) == Join(parts[..|parts| - 1], sep) + [sep] + parts[|parts| - 1]
  {
    if |parts| > 2 {
      JoinLast(parts[1..], sep);
      assert parts[1..][..|parts| - 2] == parts[1..|parts| - 1];
      assert parts[..|parts| - 1][1..] == parts[1..|parts| - 1];
    }
  }

  /** `s.split(sep).pop()`: the part of `s` after its last separator (all of
      `s` when there is none). Never `undefined`, since `split` never returns
      an empty array. */
  function LastSegment(s: string, sep: char): (r: string)
    ensures sep !in r
    ensures |r| <= |s| && r == s[|s| - |r|..]
    ensures |r| == |s| || s[|s| - |r| - 1] == sep
  {
    var parts := Split(s, sep);
    var r := parts[|parts| - 1];
    JoinSplit(s, sep);
    if |parts| >= 2 then (JoinLast(parts, sep); r) else r
  }

  lemma SliceIndex(s: string, lo: int, i: int)
    requires 0 <= lo <= i < |s|
    ensures s[lo..][i - lo] == s[i]
  {
  }

  /** The text after the last separator is the last segment. */
  lemma LastSegmentAfter(a: string, b: string, sep: char)
    requires sep !in b
    ensures LastSegment(a + [sep] + b, sep) == b
  {
    var s := a + [sep] + b;
    var r := LastSegment(s, sep);
    if |r| > |b| {
      SliceIndex(s, |s| - |r|, |a|);
      assert false;
    } else if |r| < |b| {
      assert false;
    }
    assert s[|s| - |b|..] == b;
  }

  /** `needle` occurs in `s` starting at index `i`. */
  predicate OccursAt(s: string, needle: string, i: int) {
    0 <= i && i + |needle| <= |s| && s[i..i + |needle|] == needle
  }

  function IndexOfFrom(s: string, needle: string, from: nat): (r: int)
    ensures r == -1 || (from <= r && OccursAt(s, needle, r))
    ensures r == -1 ==> forall i :: from <= i ==> !OccursAt(s, needle, i)
    ensures r >= 0 ==> forall i :: from <= i < r ==> !OccursAt(s, needle, i)
    decreases |s| - from
  {
    if from + |needle| > |s| then -1
    else if s[from..from + |needle|] == needle then from
    else IndexOfFrom(s, needle, from + 1)
  }

  /** `s.indexOf(needle)`: the first index where `needle` occurs, or -1. */
  function IndexOf(s: string, needle: string): (r: int)
    ensures r == -1 <==> forall i :: !OccursAt(s, needle, i)
    ensures r >= 0 ==> OccursAt(s, needle, r) && forall i :: 0 <= i < r ==> !OccursAt(s, needle, i)
  {
    IndexOfFrom(s, needle, 0)
  }

  /** `s.includes(needle)`. */
  predicate Includes(s: string, needle: string) {
    IndexOf(s, needle) >= 0
  }

  /** A string includes each of its suffixes. */
  lemma IncludesSuffix(a: string, n: string)
    ensures Includes(a + n, n)
  {
    assert (a + n)[|a|..|a| + |n|] == n;
    assert OccursAt(a + n, n, |a|);
  }

  /** `s.startsWith(prefix)`. */
  predicate StartsWith(s: string, prefix: string) {
    |prefix| <= |s| && s[..|prefix|] == prefix
  }

  /** `s.endsWith(suffix)`. */
  predicate EndsWith(s: string, suffix: string) {
    |suffix| <= |s| && s[|s| - |suffix|..] == suffix
  }

  /** The index `substring` actually uses for argument `i`. */
  function Clamp(i: int, n: nat): (r: nat)
    ensures r <= n
  {
    if i < 0 then 0 else if i > n then n else i
  }

  /** `s.substring(start, end)`: both bounds are clamped into `[0, |s|]` and
      swapped when reversed. */
  function Substring(s: string, start: int, end: int): (r: string)
    ensures |r| <= |s|
    ensures 0 <= start <= end <= |s| ==> r == s[start..end]
    ensures 0 <= end <= start <= |s| ==> r == s[end..start]
    ensures end >= |s| && 0 <= start <= |s| ==> r == s[start..]
    ensures start <= 0 ==> r == s[..Clamp(end, |s|)]
    ensures end <= 0 ==> r == s[..Clamp(start, |s|)]
    ensures start >= |s| ==> r == s[Clamp(end, |s|)..]
    ensures end >= |s| ==> r == s[Clamp(start, |s|)..]
  {
    var a, b := Clamp(start, |s|), Clamp(end, |s|);
    if a <= b then s[a..b] else s[b..a]
  }

  /** A negative bound behaves like 0. */
  lemma SubstringNegative(s: string, start: int, end: int)
    requires start < 0 || end < 0
    ensures start < 0 ==> Substring(s, start, end) == Substring(s, 0, end)
    ensures end < 0 ==> Substring(s, start, end) == Substring(s, start, 0)
  {
  }

  /** `substring(0, -1)` is empty, as at src/document.ts:33 when the phrase is absent. */
  lemma SubstringToMinusOne(s: string)
    ensures Substring(s, 0, -1) == ""
  {
  }
}
