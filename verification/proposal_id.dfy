/** The fallback that finds a proposal identifier in a vote title
    (src/votes.ts:126): the first match of the global regular expression
    `([A-Z]{1,2}-[A-Z0-9]{1,3}-[0-9]{4}/[0-9]{4})|([A-Z][0-9]-[0-9]{4}/[0-9]{4})`,
    or `""` when there is none. The regular-expression engine is replaced by a
    recognizer that tries the alternatives and quantifier counts in the order
    a backtracking engine does. */
module ProposalId {
  import opened Wrappers

  predicate IsUpperLetter(c: char) {
    'A' <= c <= 'Z'
  }

  predicate IsDigit(c: char) {
    '0' <= c <= '9'
  }

  predicate IsUpperOrDigit(c: char) {
    IsUpperLetter(c) || IsDigit(c)
  }

  /** `t` is exactly `[A-Z]{p}-[A-Z0-9]{q}-[0-9]{4}/[0-9]{4}`, as in "RC-B9-0123/2023". */
  predicate LongShape(t: string, p: nat, q: nat) {
    && |t| == p + q + 11
    && (forall k :: 0 <= k < p ==> IsUpperLetter(t[k]))
    && t[p] == '-'
    && (forall k :: p + 1 <= k < p + q + 1 ==> IsUpperOrDigit(t[k]))
    && t[p + q + 1] == '-'
    && (forall k :: p + q + 2 <= k < p + q + 6 ==> IsDigit(t[k]))
    && t[p + q + 6] == '/'
    && (forall k :: p + q + 7 <= k < p + q + 11 ==> IsDigit(t[k]))
  }

  /** `t` is exactly `[A-Z][0-9]-[0-9]{4}/[0-9]{4}`, as in "A9-0288/2023". */
  predicate ShortShape(t: string) {
    && |t| == 12
    && IsUpperLetter(t[0])
    && IsDigit(t[1])
    && t[2] == '-'
    && (forall k :: 3 <= k < 7 ==> IsDigit(t[k]))
    && t[7] == '/'
    && (forall k :: 8 <= k < 12 ==> IsDigit(t[k]))
  }

  /** `t` is matched in full by one of the two alternatives. */
  predicate IsProposalId(t: string) {
    || (exists p: nat, q: nat :: 1 <= p <= 2 && 1 <= q <= 3 && LongShape(t, p, q))
    || ShortShape(t)
  }

  /** An identifier of length `n` starts at index `i` of `s`. */
  predicate IdAt(s: string, i: int, n: nat) {
    0 <= i && i + n <= |s| && IsProposalId(s[i..i + n])
  }

  /** No identifier starts at index `i` of `s`. */
  ghost predicate NoIdAt(s: string, i: int) {
    forall n: nat :: !IdAt(s, i, n)
  }

  /** The identifier of length `n` at `i` is the leftmost one in `s`. */
  ghost predicate LeftmostIdAt(s: string, i: int, n: nat) {
    IdAt(s, i, n) && forall j :: 0 <= j < i ==> NoIdAt(s, j)
  }

  predicate LongAt(s: string, i: nat, p: nat, q: nat) {
    i + p + q + 11 <= |s| && LongShape(s[i..i + p + q + 11], p, q)
  }

  predicate ShortAt(s: string, i: nat) {
    i + 12 <= |s| && ShortShape(s[i..i + 12])
  }

  /** The first alternative at index `i`: `{1,2}` and `{1,3}` are greedy, so
      the engine tries two letters before one and three code characters
      before two and one. The length of the match, if any. */
  function LongMatchAt(s: string, i: nat): Option<nat> {
    if LongAt(s, i, 2, 3) then Some(16)
    else if LongAt(s, i, 2, 2) then Some(15)
    else if LongAt(s, i, 2, 1) then Some(14)
    else if LongAt(s, i, 1, 3) then Some(15)
    else if LongAt(s, i, 1, 2) then Some(14)
    else if LongAt(s, i, 1, 1) then Some(13)
    else None
  }

  /** The regular expression anchored at index `i`: the first alternative,
      then the second. */
  function MatchAt(s: string, i: nat): (r: Option<nat>)
    requires i <= |s|
    ensures r.Some? ==> IdAt(s, i, r.value)
    ensures r.None? ==> NoIdAt(s, i)
  {
    var r := match LongMatchAt(s, i)
      case Some(n) => Some(n)
      case None => if ShortAt(s, i) then Some(12) else None;
    if r.None? then
      assert NoIdAt(s, i) by {
        forall n: nat | IdAt(s, i, n)
          ensures false
        {
          var t := s[i..i + n];
          if !ShortShape(t) {
            var p: nat, q: nat :| 1 <= p <= 2 && 1 <= q <= 3 && LongShape(t, p, q);
            assert LongAt(s, i, p, q);
          }
        }
      }
      r
    else
      r
  }

  /** The scan for the first match, starting at index `i`. Returns its start and length. */
  function FindFrom(s: string, i: nat): (r: Option<(nat, nat)>)
    requires i <= |s|
    ensures r.Some? ==> i <= r.value.0 && IdAt(s, r.value.0, r.value.1)
    ensures r.Some? ==> forall j :: i <= j < r.value.0 ==> NoIdAt(s, j)
    ensures r.None? ==> forall j :: i <= j ==> NoIdAt(s, j)
    decreases |s| - i
  {
    match MatchAt(s, i)
    case Some(n) => Some((i, n))
    case None =>
      if i == |s| then None else FindFrom(s, i + 1)
  }

  /** `title.match(regex)?.[0] || ""` (src/votes.ts:126). */
  function IdFromTitle(title: string): (r: string)
    ensures r == "" <==> forall j :: NoIdAt(title, j)
    ensures r != "" ==> IsProposalId(r)
    ensures r != "" ==> exists i :: LeftmostIdAt(title, i, |r|) && r == title[i..i + |r|]
  {
    match FindFrom(title, 0)
    case Some((i, n)) =>
      var r := title[i..i + n];
      assert |r| >= 12;
      assert LeftmostIdAt(title, i, |r|);
      assert !NoIdAt(title, i);
      r
    case None =>
      assert forall j :: j < 0 ==> NoIdAt(title, j);
      ""
  }

  /** At a given index at most one identifier starts: the alternatives and the
      quantifier counts exclude each other, so the engine's preference order
      never decides between two candidates. */
  lemma IdLengthUnique(s: string, i: int, n: nat, m: nat)
    requires IdAt(s, i, n) && IdAt(s, i, m)
    ensures n == m
  {
    var t1, t2 := s[i..i + n], s[i..i + m];
    if !ShortShape(t1) && !ShortShape(t2) {
      var p1: nat, q1: nat :| 1 <= p1 <= 2 && 1 <= q1 <= 3 && LongShape(t1, p1, q1);
      var p2: nat, q2: nat :| 1 <= p2 <= 2 && 1 <= q2 <= 3 && LongShape(t2, p2, q2);
      assert t1[1] == s[i + 1] == t2[1];
      assert p1 == p2;
      if q1 < q2 {
        CodeHasNoDash(t2, p2, q2, p1 + q1 + 1);
        assert false;
      } else if q2 < q1 {
        CodeHasNoDash(t1, p1, q1, p2 + q2 + 1);
        assert false;
      }
    } else if ShortShape(t1) != ShortShape(t2) {
      assert false;
    }
  }

  lemma CodeHasNoDash(t: string, p: nat, q: nat, k: int)
    requires LongShape(t, p, q) && p + 1 <= k < p + q + 1
    ensures t[k] != '-'
  {
  }

  /** The identifier found in a title is the unique one starting at the
      leftmost index where any identifier starts. */
  lemma IdFromTitleIsLeftmost(title: string, i: int, n: nat)
    requires LeftmostIdAt(title, i, n)
    ensures IdFromTitle(title) == title[i..i + n]
  {
    var r := IdFromTitle(title);
    assert r != "" by {
      assert !NoIdAt(title, i);
    }
    var i' :| LeftmostIdAt(title, i', |r|) && r == title[i'..i' + |r|];
    assert !NoIdAt(title, i') && !NoIdAt(title, i);
    assert i' == i;
    IdLengthUnique(title, i, n, |r|);
  }
}
