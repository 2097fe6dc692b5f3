/** Name matching (`checkNameIsInList` in src/util.ts): a member's full name
    matches a list of names when one of its space-separated tokens equals one
    of the entries, after both sides are normalised by canonical decomposition
    (NFD), removal of the combining marks U+0300..U+036F and lower-casing.

    Decomposition and case mapping are modelled exactly for ASCII and the
    Latin-1 Supplement (U+00C0..U+00FF); other code points are left unchanged. */
module Names {
  import opened Wrappers
  import opened JsString

  /** The range `replace(/[\u0300-\u036f]/g, "")` removes. */
  predicate IsCombiningMark(c: char) {
    '\U{300}' <= c <= '\U{36F}'
  }

  /** The base letter and combining mark of a decomposable Latin-1 letter,
      looked up by its column: its code point minus 0xC0, modulo 0x20, so that
      upper- and lower-case letters share a column. `None` for the columns of
      Æ/æ, Ð/ð, ×/÷, Ø/ø, Þ/þ and ß, which have no canonical decomposition. */
  function Latin1Decomposition(col: int): (r: Option<(char, int)>)
    ensures r.Some? ==> 'A' <= r.value.0 <= 'Z' && 0x300 <= r.value.1 <= 0x36F
  {
    if 0 <= col <= 3 then Some(('A', 0x300 + col))          // À Á Â Ã
    else if col == 4 then Some(('A', 0x308))                // Ä
    else if col == 5 then Some(('A', 0x30A))                // Å
    else if col == 7 then Some(('C', 0x327))                // Ç
    else if 8 <= col <= 10 then Some(('E', 0x300 + col - 8))   // È É Ê
    else if col == 11 then Some(('E', 0x308))               // Ë
    else if 12 <= col <= 14 then Some(('I', 0x300 + col - 12)) // Ì Í Î
    else if col == 15 then Some(('I', 0x308))               // Ï
    else if col == 17 then Some(('N', 0x303))               // Ñ
    else if 18 <= col <= 21 then Some(('O', 0x300 + col - 18)) // Ò Ó Ô Õ
    else if col == 22 then Some(('O', 0x308))               // Ö
    else if 25 <= col <= 27 then Some(('U', 0x300 + col - 25)) // Ù Ú Û
    else if col == 28 then Some(('U', 0x308))               // Ü
    else if col == 29 then Some(('Y', 0x301))               // Ý
    else None
  }

  /** Canonical decomposition of one character. */
  function DecomposeChar(c: char): (r: string)
    ensures |r| == 1 || |r| == 2
    ensures |r| == 2 ==> IsCombiningMark(r[1]) && ('A' <= r[0] <= 'Z' || 'a' <= r[0] <= 'z')
    ensures |r| == 1 ==> r[0] == c
  {
    var n := c as int;
    if n == 0xFF then ['y', '\U{308}']                      // ÿ
    else if 0xC0 <= n <= 0xFF && Latin1Decomposition((n - 0xC0) % 32).Some? then
      var d := Latin1Decomposition((n - 0xC0) % 32).value;
      [if n >= 0xE0 then (d.0 as int + 0x20) as char else d.0, d.1 as char]
    else [c]
  }

  /** `normalize("NFD")`. */
  function Decompose(s: string): string {
    if |s| == 0 then "" else DecomposeChar(s[0]) + Decompose(s[1..])
  }

  /** `replace(/[\u0300-\u036f]/g, "")`. */
  function StripMarks(s: string): (r: string)
    ensures |r| <= |s|
    ensures forall i :: 0 <= i < |r| ==> !IsCombiningMark(r[i])
  {
    if |s| == 0 then ""
    else (if IsCombiningMark(s[0]) then "" else [s[0]]) + StripMarks(s[1..])
  }

  predicate IsUpper(c: char) {
    ('A' <= c <= 'Z') || ('\U{C0}' <= c <= '\U{DE}' && c != '\U{D7}')
  }

  predicate IsLower(c: char) {
    ('a' <= c <= 'z') || ('\U{E0}' <= c <= '\U{FE}' && c != '\U{F7}')
  }

  function LowerChar(c: char): char {
    if IsUpper(c) then (c as int + 0x20) as char else c
  }

  function UpperChar(c: char): char {
    if IsLower(c) then (c as int - 0x20) as char else c
  }

  /** `toLowerCase()`. */
  function LowerCase(s: string): (r: string)
    ensures |r| == |s|
    ensures forall i :: 0 <= i < |s| ==> r[i] == LowerChar(s[i])
  {
    if |s| == 0 then "" else [LowerChar(s[0])] + LowerCase(s[1..])
  }

  /** `toUpperCase()`, used only to state case-insensitivity. */
  function UpperCase(s: string): string {
    if |s| == 0 then "" else [UpperChar(s[0])] + UpperCase(s[1..])
  }

  /** A character that normalisation leaves as it is. */
  predicate IsFolded(c: char) {
    !IsCombiningMark(c) && !IsUpper(c) && DecomposeChar(c) == [c]
  }

  /** The normalisation applied to both sides of the comparison (src/util.ts:118, 122). */
  function Normalize(s: string): (r: string)
    ensures forall i :: 0 <= i < |r| ==> !IsCombiningMark(r[i]) && !IsUpper(r[i])
  {
    LowerCase(StripMarks(Decompose(s)))
  }

  /** Normalised text holds no combining mark, no upper-case letter and no
      decomposable letter. */
  lemma {:induction false} NormalFormFolded(s: string)
    ensures forall i :: 0 <= i < |Normalize(s)| ==> IsFolded(Normalize(s)[i])
  {
    if |s| > 0 {
      NormalFormFolded(s[1..]);
      NormalizeCons(s[0], s[1..]);
      assert [s[0]] + s[1..] == s;
      NormalCharFolded(s[0]);
    }
  }

  /** The normal form of one character consists of folded characters. */
  lemma NormalCharFolded(c: char)
    ensures forall i :: 0 <= i < |Normalize([c])| ==> IsFolded(Normalize([c])[i])
  {
    NormalizeChar(c);
    var d := DecomposeChar(c);
    if |d| == 2 {
      assert DecomposeChar(LowerChar(d[0])) == [LowerChar(d[0])];
    } else if !IsCombiningMark(c) {
      if IsUpper(c) && c as int >= 0xC0 {
        LowerLatin1Folded(c);
      } else {
        assert IsFolded(LowerChar(c));
      }
    }
  }

  /** Lower-casing an undecomposable Latin-1 capital gives a folded letter. */
  lemma LowerLatin1Folded(c: char)
    requires IsUpper(c) && c as int >= 0xC0 && DecomposeChar(c) == [c]
    ensures IsFolded(LowerChar(c))
  {
    var l := LowerChar(c);
    var col := c as int - 0xC0;
    assert l as int == c as int + 0x20;
    DecomposeColumn(c, col);
    DecomposeColumn(l, col);
  }

  lemma {:induction false} DecomposeAppend(a: string, b: string)
    ensures Decompose(a + b) == Decompose(a) + Decompose(b)
  {
    if |a| > 0 {
      DecomposeAppend(a[1..], b);
      assert (a + b)[0] == a[0] && (a + b)[1..] == a[1..] + b;
      assert Decompose(a + b) == DecomposeChar(a[0]) + Decompose(a[1..] + b);
    } else {
      assert a + b == b;
    }
  }

  lemma {:induction false} StripMarksAppend(a: string, b: string)
    ensures StripMarks(a + b) == StripMarks(a) + StripMarks(b)
  {
    if |a| > 0 {
      StripMarksAppend(a[1..], b);
      assert (a + b)[0] == a[0] && (a + b)[1..] == a[1..] + b;
      var head := if IsCombiningMark(a[0]) then "" else [a[0]];
      assert StripMarks(a + b) == head + StripMarks(a[1..] + b);
    } else {
      assert a + b == b;
    }
  }

  lemma {:induction false} LowerCaseAppend(a: string, b: string)
    ensures LowerCase(a + b) == LowerCase(a) + LowerCase(b)
  {
    if |a| > 0 {
      LowerCaseAppend(a[1..], b);
      assert (a + b)[0] == a[0] && (a + b)[1..] == a[1..] + b;
      assert LowerCase(a + b) == [LowerChar(a[0])] + LowerCase(a[1..] + b);
    } else {
      assert a + b == b;
    }
  }

  /** Normalisation works character by character. */
  lemma {:induction false} NormalizeAppend(a: string, b: string)
    ensures LowerCase(StripMarks(Decompose(a + b)))
         == LowerCase(StripMarks(Decompose(a))) + LowerCase(StripMarks(Decompose(b)))
  {
    DecomposeAppend(a, b);
    StripMarksAppend(Decompose(a), Decompose(b));
    LowerCaseAppend(StripMarks(Decompose(a)), StripMarks(Decompose(b)));
  }

  /** The normal form of a one-character string. */
  lemma NormalizeChar(c: char)
    ensures LowerCase(StripMarks(Decompose([c]))) ==
      var d := DecomposeChar(c);
      if |d| == 2 then [LowerChar(d[0])]
      else if IsCombiningMark(c) then ""
      else [LowerChar(c)]
  {
    assert [c][1..] == "";
    var d := DecomposeChar(c);
    assert Decompose([c]) == d;
    if |d| == 2 {
      assert d[1..][1..] == "";
      assert StripMarks(d[1..]) == "";
      assert StripMarks(d) == [d[0]];
    }
  }

  lemma {:induction false} NormalizeCons(c: char, s: string)
    ensures Normalize([c] + s) == Normalize([c]) + Normalize(s)
  {
    NormalizeAppend([c], s);
  }

  /** Normalised text is a fixed point: normalising twice is normalising once. */
  lemma {:induction false} NormalizeFolded(s: string)
    requires forall i :: 0 <= i < |s| ==> IsFolded(s[i])
    ensures Normalize(s) == s
  {
    if |s| > 0 {
      NormalizeCons(s[0], s[1..]);
      NormalizeChar(s[0]);
      NormalizeFolded(s[1..]);
      assert [s[0]] + s[1..] == s;
    }
  }

  lemma NormalizeIdempotent(s: string)
    ensures Normalize(Normalize(s)) == Normalize(s)
  {
    NormalFormFolded(s);
    NormalizeFolded(Normalize(s));
  }

  /** Case-insensitivity for one character. */
  lemma NormalizeUpperChar(c: char)
    ensures Normalize([UpperChar(c)]) == Normalize([c])
  {
    if 'a' <= c <= 'z' {
      NormalizeUpperAscii(c);
    } else if IsLower(c) {
      NormalizeUpperLatin1(c);
    }
  }

  lemma NormalizeUpperAscii(c: char)
    requires 'a' <= c <= 'z'
    ensures Normalize([UpperChar(c)]) == Normalize([c])
  {
    var u := UpperChar(c);
    assert DecomposeChar(c) == [c] && DecomposeChar(u) == [u];
    NormalizeChar(c);
    NormalizeChar(u);
  }

  /** An upper- and a lower-case Latin-1 letter share their decomposition
      column, so they decompose to the same base letter up to case. */
  lemma NormalizeUpperLatin1(c: char)
    requires '\U{E0}' <= c <= '\U{FE}' && c != '\U{F7}'
    ensures Normalize([UpperChar(c)]) == Normalize([c])
  {
    var u := UpperChar(c);
    var col := c as int - 0xE0;
    assert u as int == c as int - 0x20;
    DecomposeColumn(c, col);
    DecomposeColumn(u, col);
    NormalizeChar(c);
    NormalizeChar(u);
  }

  /** The decomposition of a Latin-1 letter other than ÿ, read off its column. */
  lemma DecomposeColumn(c: char, col: int)
    requires 0xC0 <= c as int < 0xFF && col == (c as int - 0xC0) % 32
    ensures Latin1Decomposition(col).None? ==> DecomposeChar(c) == [c]
    ensures Latin1Decomposition(col).Some? ==>
              var d := Latin1Decomposition(col).value;
              DecomposeChar(c) == [if c as int >= 0xE0 then (d.0 as int + 0x20) as char else d.0, d.1 as char]
  {
  }

  /** Normalisation ignores letter case. */
  lemma {:induction false} NormalizeIgnoresCase(s: string)
    ensures Normalize(UpperCase(s)) == Normalize(s)
  {
    if |s| > 0 {
      NormalizeIgnoresCase(s[1..]);
      NormalizeCons(UpperChar(s[0]), UpperCase(s[1..]));
      NormalizeCons(s[0], s[1..]);
      NormalizeUpperChar(s[0]);
      assert [s[0]] + s[1..] == s;
    }
  }

  /** Normalisation ignores combining marks wherever they stand. */
  lemma NormalizeDropsMark(a: string, m: char, b: string)
    requires IsCombiningMark(m)
    ensures Normalize(a + [m] + b) == Normalize(a + b)
  {
    NormalizeAppend(a + [m], b);
    NormalizeAppend(a, [m]);
    NormalizeAppend(a, b);
    NormalizeChar(m);
  }

  /** A precomposed accented letter normalises like its base letter. */
  lemma NormalizeDropsAccent(c: char)
    requires |DecomposeChar(c)| == 2
    ensures Normalize([c]) == Normalize([DecomposeChar(c)[0]])
  {
    NormalizeChar(c);
    NormalizeChar(DecomposeChar(c)[0]);
  }

  /** The space-separated tokens of a normalised full name (src/util.ts:118-120). */
  function Tokens(fullName: string): seq<string> {
    Split(Normalize(fullName), ' ')
  }

  /** The property `checkNameIsInList` decides: some token of the full name
      equals some normalised entry of the list. */
  predicate NameInList(fullName: string, nameList: seq<string>) {
    var tokens := Tokens(fullName);
    exists i, j :: 0 <= i < |tokens| && 0 <= j < |nameList| && tokens[i] == Normalize(nameList[j])
  }

  function NormalizeAll(nameList: seq<string>): (r: seq<string>)
    ensures |r| == |nameList|
    ensures forall j :: 0 <= j < |r| ==> r[j] == Normalize(nameList[j])
  {
    seq(|nameList|, j requires 0 <= j < |nameList| => Normalize(nameList[j]))
  }

  /** `checkNameIsInList` (src/util.ts:116-132): tries each token of the
      normalised full name in turn against the normalised list and stops at
      the first hit. */
  method CheckNameIsInList(fullName: string, nameList: seq<string>) returns (found: bool)
    ensures found <==> NameInList(fullName, nameList)
  {
    var names := Split(Normalize(fullName), ' ');
    var normalizedList := NormalizeAll(nameList);
    var i := 0;
    while i < |names|
      invariant 0 <= i <= |names|
      invariant forall k :: 0 <= k < i ==> names[k] !in normalizedList
    {
      if names[i] in normalizedList {
        var j :| 0 <= j < |normalizedList| && normalizedList[j] == names[i];
        assert names == Tokens(fullName) && names[i] == Normalize(nameList[j]);
        return true;
      }
      i := i + 1;
    }
    return false;
  }

  /** An empty list never matches. */
  lemma EmptyListNeverMatches(fullName: string)
    ensures !NameInList(fullName, [])
  {
  }

  /** Adding entries, before or after, never turns a match into a miss. */
  lemma MatchSurvivesMoreEntries(fullName: string, nameList: seq<string>, extra: seq<string>)
    requires NameInList(fullName, nameList)
    ensures NameInList(fullName, nameList + extra)
    ensures NameInList(fullName, extra + nameList)
  {
    var tokens := Tokens(fullName);
    var i, j :| 0 <= i < |tokens| && 0 <= j < |nameList| && tokens[i] == Normalize(nameList[j]);
    assert (nameList + extra)[j] == nameList[j];
    assert (extra + nameList)[|extra| + j] == nameList[j];
  }

  /** Only the set of entries matters, not their order or repetition. */
  lemma MatchDependsOnEntrySet(fullName: string, l1: seq<string>, l2: seq<string>)
    requires forall x :: x in l1 <==> x in l2
    ensures NameInList(fullName, l1) <==> NameInList(fullName, l2)
  {
    var tokens := Tokens(fullName);
    if NameInList(fullName, l1) {
      var i, j :| 0 <= i < |tokens| && 0 <= j < |l1| && tokens[i] == Normalize(l1[j]);
      assert l1[j] in l2;
      var j' :| 0 <= j' < |l2| && l2[j'] == l1[j];
    }
    if NameInList(fullName, l2) {
      var i, j :| 0 <= i < |tokens| && 0 <= j < |l2| && tokens[i] == Normalize(l2[j]);
      assert l2[j] in l1;
      var j' :| 0 <= j' < |l1| && l1[j'] == l2[j];
    }
  }

  /** Matching ignores the case of the full name. */
  lemma MatchIgnoresCase(fullName: string, nameList: seq<string>)
    ensures NameInList(UpperCase(fullName), nameList) <==> NameInList(fullName, nameList)
  {
    NormalizeIgnoresCase(fullName);
    assert Tokens(UpperCase(fullName)) == Tokens(fullName);
  }

  /** A leading space yields an empty token, which matches an entry that normalises to "". */
  lemma LeadingSpaceMatchesEmptyEntry(fullName: string)
    requires |fullName| > 0 && fullName[0] == ' '
    ensures NameInList(fullName, [""])
  {
    NormalizeCons(' ', fullName[1..]);
    NormalizeChar(' ');
    assert [' '] + fullName[1..] == fullName;
    var n := Normalize(fullName);
    assert n[0] == ' ';
    assert Tokens(fullName)[0] == "";
    assert Normalize("") == "";
  }

  /** Normalising two words joined by a space normalises each word. */
  lemma NormalizeSpaced(a: string, b: string)
    ensures Normalize(a + " " + b) == Normalize(a) + " " + Normalize(b)
  {
    NormalizeAppend(a + " ", b);
    NormalizeAppend(a, " ");
    NormalizeChar(' ');
  }

  /** The tokens of a full name given as its normalised parts. */
  lemma TokensOf(fullName: string, parts: seq<string>)
    requires |parts| >= 1 && forall k :: 0 <= k < |parts| ==> ' ' !in parts[k]
    requires Normalize(fullName) == Join(parts, ' ')
    ensures Tokens(fullName) == parts
  {
    SplitJoin(parts, ' ');
  }

  /** The tokens of two space-separated words that normalise to space-free text. */
  lemma TokensOfTwoWords(a: string, b: string, na: string, nb: string)
    requires Normalize(a) == na && Normalize(b) == nb && ' ' !in na && ' ' !in nb
    ensures Tokens(a + " " + b) == [na, nb]
  {
    NormalizeSpaced(a, b);
    JoinTwo(na, nb);
    TokensOf(a + " " + b, [na, nb]);
  }

  lemma TokensOfThreeWords(a: string, b: string, c: string, na: string, nb: string, nc: string)
    requires Normalize(a) == na && Normalize(b) == nb && Normalize(c) == nc
    requires ' ' !in na && ' ' !in nb && ' ' !in nc
    ensures Tokens(a + " " + b + " " + c) == [na, nb, nc]
  {
    NormalizeSpaced(a + " " + b, c);
    NormalizeSpaced(a, b);
    JoinThree(na, nb, nc);
    TokensOf(a + " " + b + " " + c, [na, nb, nc]);
  }

  lemma JoinTwo(x: string, y: string)
    ensures Join([x, y], ' ') == x + " " + y
  {
    assert [x, y][1..] == [y];
  }

  lemma JoinThree(x: string, y: string, z: string)
    ensures Join([x, y, z], ' ') == x + " " + y + " " + z
  {
    assert [x, y, z][1..] == [y, z];
    JoinTwo(y, z);
  }

  /** A word of lower-case ASCII letters is already normalised. */
  lemma NormalizeLowerAscii(s: string)
    requires forall i :: 0 <= i < |s| ==> 'a' <= s[i] <= 'z'
    ensures Normalize(s) == s
  {
    forall i | 0 <= i < |s|
      ensures IsFolded(s[i])
    {
      assert DecomposeChar(s[i]) == [s[i]];
    }
    NormalizeFolded(s);
  }

  /** A capitalised ASCII word normalises to its lower-case form. */
  lemma NormalizeCapitalised(c: char, rest: string)
    requires 'A' <= c <= 'Z'
    requires forall i :: 0 <= i < |rest| ==> 'a' <= rest[i] <= 'z'
    ensures Normalize([c] + rest) == [(c as int + 0x20) as char] + rest
  {
    NormalizeCons(c, rest);
    NormalizeChar(c);
    assert DecomposeChar(c) == [c];
    NormalizeLowerAscii(rest);
  }

  /* The examples below take the words of a name as parameters, fixed by
     their preconditions, and reason about them through the lemmas above
     rather than by evaluating the normalisation of the whole literal name
     character by character. */

  /** The list the unit tests match against (src/util.test.ts:30). */
  const TestList: seq<string> := ["john", "jane", "doe"]

  /** Every entry of the list is already normalised and at most four letters long. */
  lemma TestListNormal()
    ensures forall j :: 0 <= j < |TestList| ==> Normalize(TestList[j]) == TestList[j]
    ensures forall j :: 0 <= j < |TestList| ==> |TestList[j]| <= 4
  {
    forall j | 0 <= j < |TestList|
      ensures Normalize(TestList[j]) == TestList[j]
    {
      NormalizeLowerAscii(TestList[j]);
    }
  }

  /** The words of the matching test names, normalised. */
  lemma NormalizeTestWords(john: string, jane: string, doe: string)
    requires john == "John" && jane == "Jane" && doe == "Doe"
    ensures Normalize(john) == "john" && Normalize(jane) == "jane" && Normalize(doe) == "doe"
  {
    NormalizeCapitalised('J', "ohn");
    NormalizeCapitalised('J', "ane");
    NormalizeCapitalised('D', "oe");
    assert ['J'] + "ohn" == john && ['J'] + "ane" == jane && ['D'] + "oe" == doe;
  }

  /** "John Doe" and "John Jane Doe" match through their first token
      (src/util.test.ts:28-33, 42-47). */
  lemma OneTokenIsEnough(john: string, jane: string, doe: string)
    requires john == "John" && jane == "Jane" && doe == "Doe"
    ensures NameInList(john + " " + doe, TestList)
    ensures NameInList(john + " " + jane + " " + doe, TestList)
  {
    NormalizeTestWords(john, jane, doe);
    TestListNormal();
    assert Normalize(TestList[0]) == "john";
    TokensOfTwoWords(john, doe, "john", "doe");
    assert Tokens(john + " " + doe)[0] == Normalize(TestList[0]);
    TokensOfThreeWords(john, jane, doe, "john", "jane", "doe");
    assert Tokens(john + " " + jane + " " + doe)[0] == Normalize(TestList[0]);
  }

  /** A full name whose tokens are all longer than every entry of the test
      list does not match it. */
  lemma LongTokensMissTestList(fullName: string)
    requires forall i :: 0 <= i < |Tokens(fullName)| ==> |Tokens(fullName)[i]| > 4
    ensures !NameInList(fullName, TestList)
  {
    TestListNormal();
  }

  /** Only whole tokens match: "Johnz Smithz" does not match although
      "john" is a prefix of its first token (src/util.test.ts:49-54). */
  lemma PartialTokensDoNotMatch(johnz: string, smithz: string)
    requires johnz == "Johnz" && smithz == "Smithz"
    ensures StartsWith(Tokens(johnz + " " + smithz)[0], TestList[0])
    ensures !NameInList(johnz + " " + smithz, TestList)
  {
    NormalizeCapitalised('J', "ohnz");
    NormalizeCapitalised('S', "mithz");
    assert ['J'] + "ohnz" == johnz && ['S'] + "mithz" == smithz;
    TokensOfTwoWords(johnz, smithz, "johnz", "smithz");
    assert "johnz"[..4] == "john";
    LongTokensMissTestList(johnz + " " + smithz);
  }

  /** A name sharing no token with the list does not match (src/util.test.ts:35-40). */
  lemma UnrelatedNameDoesNotMatch(donna: string, smith: string)
    requires donna == "Donna" && smith == "Smith"
    ensures !NameInList(donna + " " + smith, TestList)
  {
    NormalizeCapitalised('D', "onna");
    NormalizeCapitalised('S', "mith");
    assert ['D'] + "onna" == donna && ['S'] + "mith" == smith;
    TokensOfTwoWords(donna, smith, "donna", "smith");
    LongTokensMissTestList(donna + " " + smith);
  }

  lemma NormalizeJose(jos: string, e: char)
    requires jos == "Jos" && e == '\U{E9}'
    ensures Normalize(jos + [e]) == "jose"
  {
    NormalizeCapitalised('J', "os");
    assert ['J'] + "os" == jos;
    NormalizeAccented(e, 9, 'e');
    NormalizeAppend(jos, [e]);
  }

  /** An accented Latin-1 letter normalises to its lower-case base letter. */
  lemma NormalizeAccented(c: char, col: int, base: char)
    requires 0xC0 <= c as int < 0xFF && col == (c as int - 0xC0) % 32
    requires Latin1Decomposition(col).Some?
    requires base == LowerChar(Latin1Decomposition(col).value.0)
    ensures Normalize([c]) == [base]
  {
    DecomposeColumn(c, col);
    NormalizeChar(c);
  }

  lemma NormalizeAGrave(c: char, dot: char)
    requires c == '\U{C0}' && dot == '.'
    ensures Normalize([c, dot]) == ['a', dot]
  {
    NormalizeCons(c, [dot]);
    NormalizeAccented(c, 0, 'a');
    NormalizeChar(dot);
    assert [c] + [dot] == [c, dot];
  }

  /** Matching is accent- and case-insensitive: "José À." matches "jose". */
  lemma AccentsAndCaseIgnored(jos: string, e: char, c: char, dot: char)
    requires jos == "Jos" && e == '\U{E9}' && c == '\U{C0}' && dot == '.'
    ensures NameInList(jos + [e] + " " + [c, dot], ["jose"])
  {
    var jose := jos + [e];
    NormalizeJose(jos, e);
    NormalizeAGrave(c, dot);
    NormalizeLowerAscii("jose");
    TokensOfTwoWords(jose, [c, dot], "jose", ['a', dot]);
    assert Tokens(jos + [e] + " " + [c, dot])[0] == Normalize(["jose"][0]);
  }
}
