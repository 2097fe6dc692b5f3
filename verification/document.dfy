/** The pure part of `fetchAndParseDocument` (src/document.ts:11-41): the
    document URL built from its identifier, the document type read off the
    identifier's first letter, and the clipping of the page text between the
    resolution's opening phrase and its closing instruction. */
module Document {
  import opened JsString

  /** src/document.ts:3. */
  datatype DocumentType =
    | Report | Motion | Amendment | Declaration | Resolution | Opinion
    | Decision | Recommendation | Communication | Statement | Other

  /** The returned record (src/document.ts:5-9). */
  datatype ParsedDocument = ParsedDocument(content: string, kind: DocumentType, url: string)

  const UrlPrefix := "https://www.europarl.europa.eu/doceo/document/"
  const UrlSuffix := "_EN.html"
  const StartMarker := "The European Parliament"
  const EndMarker := "Instructs its President to forward this resolution"

  /** The page of a document (src/document.ts:12; the same address is built at src/votes.ts:44). */
  function DocumentUrl(id: string): (r: string)
    ensures StartsWith(r, UrlPrefix) && EndsWith(r, UrlSuffix)
    ensures |r| == |UrlPrefix| + |id| + |UrlSuffix|
  {
    var r := UrlPrefix + id + UrlSuffix;
    assert r[..|UrlPrefix|] == UrlPrefix;
    assert r[|r| - |UrlSuffix|..] == UrlSuffix;
    r
  }

  /** The identifier part of a document URL. */
  function IdOfUrl(url: string): string
    requires |url| >= |UrlPrefix| + |UrlSuffix|
  {
    url[|UrlPrefix|..|url| - |UrlSuffix|]
  }

  /** The identifier can be read back from its URL. */
  lemma DocumentUrlRoundTrip(id: string)
    ensures IdOfUrl(DocumentUrl(id)) == id
  {
    var r := UrlPrefix + id + UrlSuffix;
    assert r[|UrlPrefix|..|r| - |UrlSuffix|] == id;
  }

  /** Different identifiers give different URLs (src/document.test.ts:14). */
  lemma DocumentUrlInjective(a: string, b: string)
    requires DocumentUrl(a) == DocumentUrl(b)
    ensures a == b
  {
    DocumentUrlRoundTrip(a);
    DocumentUrlRoundTrip(b);
  }

  /** src/document.ts:17-24: the prefix test is case-sensitive. */
  function Classify(id: string): (r: DocumentType)
    ensures r == Report <==> StartsWith(id, "A")
    ensures r == Motion <==> StartsWith(id, "B")
    ensures r == Other <==> !StartsWith(id, "A") && !StartsWith(id, "B")
  {
    if StartsWith(id, "A") then Report
    else if StartsWith(id, "B") then Motion
    else Other
  }

  /** Only three of the eleven declared types are ever produced. */
  lemma ClassifyRange(id: string)
    ensures Classify(id) in {Report, Motion, Other}
    ensures Classify(id) == Report <==> |id| > 0 && id[0] == 'A'
    ensures Classify(id) == Motion <==> |id| > 0 && id[0] == 'B'
  {
  }

  /** src/document.test.ts:13 and the lower-case counterpart. */
  lemma ClassifyExamples()
    ensures Classify("A-9-2023-0288") == Report
    ensures Classify("a-9-2023-0288") == Other
    ensures Classify("B9-0123/2023") == Motion
  {
    FirstLetter("A-9-2023-0288");
    FirstLetter("a-9-2023-0288");
    FirstLetter("B9-0123/2023");
  }

  lemma FirstLetter(id: string)
    requires |id| > 0
    ensures StartsWith(id, "A") <==> id[0] == 'A'
    ensures StartsWith(id, "B") <==> id[0] == 'B'
  {
    assert id[..1] == [id[0]];
  }

  /** src/document.ts:31: `text.substring(text.indexOf(StartMarker))`. */
  function ClipStart(text: string): (r: string)
    ensures IndexOf(text, StartMarker) == -1 ==> r == text
    ensures IndexOf(text, StartMarker) >= 0 ==>
      StartsWith(r, StartMarker) && EndsWith(text, r)
    ensures forall j :: 0 <= j < |text| - |r| ==> !OccursAt(text, StartMarker, j)
  {
    var i := IndexOf(text, StartMarker);
    var r := Substring(text, i, |text|);
    if i >= 0 then
      assert r == text[i..];
      assert r[..|StartMarker|] == text[i..i + |StartMarker|];
      r
    else
      SubstringNegative(text, i, |text|);
      assert r == text;
      r
  }

  /** src/document.ts:33: `text.substring(0, text.indexOf(EndMarker))`. */
  function ClipEnd(text: string): (r: string)
    ensures |r| <= |text| && r == text[..|r|]
    ensures forall j :: !OccursAt(r, EndMarker, j)
    ensures IndexOf(text, EndMarker) == -1 ==> r == ""
    ensures IndexOf(text, EndMarker) >= 0 ==> OccursAt(text, EndMarker, |r|)
  {
    var i := IndexOf(text, EndMarker);
    var r := Substring(text, 0, i);
    if i >= 0 then
      assert r == text[..i];
      PrefixKeepsOccurrences(text, i, EndMarker);
      r
    else
      r
  }

  /** An occurrence inside a prefix is an occurrence in the whole string. */
  lemma PrefixKeepsOccurrences(s: string, n: nat, needle: string)
    requires n <= |s|
    ensures forall j :: OccursAt(s[..n], needle, j) ==> OccursAt(s, needle, j)
  {
    forall j | OccursAt(s[..n], needle, j)
      ensures OccursAt(s, needle, j)
    {
      assert s[..n][j..j + |needle|] == s[j..j + |needle|];
    }
  }

  /** The content of the document: from the opening phrase up to, not
      including, the closing instruction. */
  function Content(text: string): (r: string)
    ensures forall j :: !OccursAt(r, EndMarker, j)
    ensures IndexOf(ClipStart(text), EndMarker) == -1 ==> r == ""
    ensures IndexOf(text, StartMarker) == -1 ==> r == ClipEnd(text)
  {
    ClipEnd(ClipStart(text))
  }

  /** When both phrases are present the content starts with the opening one
      (src/document.test.ts:11): the closing phrase begins with `I`, a letter
      the opening phrase does not contain, so it cannot start inside it. */
  lemma ContentStartsWithStartMarker(text: string)
    requires IndexOf(text, StartMarker) >= 0
    requires IndexOf(ClipStart(text), EndMarker) >= 0
    ensures StartsWith(Content(text), StartMarker)
  {
    var c := ClipStart(text);
    var j := IndexOf(c, EndMarker);
    EndMarkerAfterStart(c, j);
    assert Content(text) == c[..j];
    assert c[..j][..|StartMarker|] == c[..|StartMarker|];
  }

  /** In text that starts with the opening phrase, the closing phrase can
      only occur after it. */
  lemma EndMarkerAfterStart(c: string, j: int)
    requires StartsWith(c, StartMarker) && OccursAt(c, EndMarker, j)
    ensures j >= |StartMarker|
  {
    if j < |StartMarker| {
      assert c[j] == c[j..j + |EndMarker|][0];
      assert c[j] == c[..|StartMarker|][j];
      MarkerLetters();
      assert false;
    }
  }

  /** The closing phrase starts with a letter absent from the opening phrase. */
  lemma MarkerLetters()
    ensures EndMarker[0] == 'I'
    ensures forall k :: 0 <= k < |StartMarker| ==> StartMarker[k] != 'I'
  {
    EndMarkerInitial();
    StartMarkerLetters();
  }

  lemma EndMarkerInitial()
    ensures EndMarker[0] == 'I'
  {
    assert EndMarker == "Instructs its President" + " to forward this resolution";
  }

  lemma StartMarkerLetters()
    ensures forall k :: 0 <= k < |StartMarker| ==> StartMarker[k] != 'I'
  {
  }

  /** The content is a run of the page text: the one starting at the first
      opening phrase, or a prefix of the text when there is none. */
  lemma ContentInText(text: string)
    ensures IndexOf(text, StartMarker) >= 0 ==> OccursAt(text, Content(text), IndexOf(text, StartMarker))
    ensures IndexOf(text, StartMarker) == -1 ==> StartsWith(text, Content(text))
  {
    var i := IndexOf(text, StartMarker);
    var c := ClipStart(text);
    var r := ClipEnd(c);
    if i >= 0 {
      ClipStartIsSuffix(text, i);
      RunOfSuffix(text, i, r);
    }
  }

  /** With the opening phrase at its first index `i`, the clip is `text[i..]`. */
  lemma ClipStartIsSuffix(text: string, i: int)
    requires i == IndexOf(text, StartMarker) && i >= 0
    ensures ClipStart(text) == text[i..]
  {
  }

  /** A prefix of a suffix is a run of the whole string. */
  lemma RunOfSuffix(text: string, i: nat, r: string)
    requires i <= |text| && |r| <= |text| - i && r == text[i..][..|r|]
    ensures OccursAt(text, r, i)
  {
    assert text[i..i + |r|] == text[i..][..|r|];
  }

  /** `fetchAndParseDocument` once the page text is available: the URL
      carries the identifier, the type follows its first letter, and the
      content runs from the opening phrase to before the closing one. */
  function ParseDocument(id: string, text: string): (r: ParsedDocument)
    ensures |r.url| >= |UrlPrefix| + |UrlSuffix| && IdOfUrl(r.url) == id
    ensures StartsWith(r.url, UrlPrefix) && EndsWith(r.url, UrlSuffix)
    ensures r.kind in {Report, Motion, Other}
    ensures r.kind == Report <==> StartsWith(id, "A")
    ensures r.kind == Motion <==> StartsWith(id, "B")
    ensures forall j :: !OccursAt(r.content, EndMarker, j)
    ensures IndexOf(text, StartMarker) >= 0 ==> OccursAt(text, r.content, IndexOf(text, StartMarker))
    ensures IndexOf(text, StartMarker) == -1 ==> StartsWith(text, r.content)
    ensures IndexOf(ClipStart(text), EndMarker) == -1 ==> r.content == ""
    ensures IndexOf(text, StartMarker) >= 0 && IndexOf(ClipStart(text), EndMarker) >= 0 ==>
      StartsWith(r.content, StartMarker)
  {
    DocumentUrlRoundTrip(id);
    ClassifyRange(id);
    ContentInText(text);
    if IndexOf(text, StartMarker) >= 0 && IndexOf(ClipStart(text), EndMarker) >= 0 then
      ContentStartsWithStartMarker(text);
      ParsedDocument(Content(text), Classify(id), DocumentUrl(id))
    else
      ParsedDocument(Content(text), Classify(id), DocumentUrl(id))
  }
}
