/** The argument handling that `loadJsonFromUrl` (src/util.ts:89-101) does
    before it issues any request: every query parameter must have a value
    other than `undefined`, `null` and `""`, and the URL gets a trailing `?`
    unless it already ends with one. The request itself and the encoding of
    the query string by `URLSearchParams` are outside the model. */
module Request {
  import opened Wrappers
  import opened JsString

  /** The JavaScript values that reach a query parameter. */
  datatype Scalar = Num(n: real) | Text(s: string) | Flag(b: bool)

  type Param = Nullable<Scalar>

  /** The check of src/util.ts:93: `0`, `false` and non-empty strings pass. */
  predicate IsAccepted(v: Param) {
    v.Defined? && v.value != Text("")
  }

  /** What would be handed to `fetch`: the URL ending in `?` and the query entries in order. */
  datatype Query = Query(base: string, entries: seq<(string, Scalar)>)

  const InvalidParameter := "Invalid parameter"

  /** src/util.ts:99-101: append `?` unless the URL already ends with it. */
  function WithQueryMark(url: string): (r: string)
    ensures EndsWith(r, "?")
    ensures r == url <==> EndsWith(url, "?")
    ensures r != url ==> r == url + "?"
  {
    if EndsWith(url, "?") then url else url + "?"
  }

  /** The loop of src/util.ts:92-98 over `Object.entries(params)`. */
  function AcceptedEntries(params: seq<(string, Param)>): (r: Result<seq<(string, Scalar)>, string>)
    ensures r.Failure? <==> exists i :: 0 <= i < |params| && !IsAccepted(params[i].1)
    ensures r.Failure? ==> r.error == InvalidParameter
    ensures r.Success? ==> |r.value| == |params|
    ensures r.Success? ==>
      forall i :: 0 <= i < |params| ==> r.value[i] == (params[i].0, params[i].1.value)
  {
    if |params| == 0 then Success([])
    else if !IsAccepted(params[0].1) then Failure(InvalidParameter)
    else
      match AcceptedEntries(params[1..])
      case Failure(e) =>
        assert exists i :: 0 <= i < |params| - 1 && !IsAccepted(params[1..][i].1);
        Failure(e)
      case Success(rest) =>
        Success([(params[0].0, params[0].1.value)] + rest)
  }

  /** `loadJsonFromUrl(url, params)` up to the call of `fetch`. */
  function PrepareQuery(url: string, params: seq<(string, Param)>): (r: Result<Query, string>)
    ensures r.Failure? <==> exists i :: 0 <= i < |params| && !IsAccepted(params[i].1)
    ensures r.Failure? ==> r.error == InvalidParameter
    ensures r.Success? ==> r.value.base == WithQueryMark(url) && |r.value.entries| == |params|
    ensures r.Success? ==>
      forall i :: 0 <= i < |params| ==> r.value.entries[i] == (params[i].0, params[i].1.value)
  {
    var entries :- AcceptedEntries(params);
    Success(Query(WithQueryMark(url), entries))
  }

  /** Adding the question mark twice adds it once. */
  lemma WithQueryMarkIdempotent(url: string)
    ensures WithQueryMark(WithQueryMark(url)) == WithQueryMark(url)
  {
  }

  /** A URL whose last character is not `?` gets one appended. */
  lemma WithQueryMarkAppends(a: string, c: char)
    requires c != '?'
    ensures WithQueryMark(a + [c]) == a + [c] + "?"
  {
    var s := a + [c];
    assert s[|s| - 1..] == [c];
  }

  /** The number 0 is a valid parameter (only `""` among the falsy values is refused),
      and an empty parameter object still gets its `?` (src/util.test.ts:74-78, 87). */
  lemma ZeroAcceptedEmptyRefused(url: string)
    requires !EndsWith(url, "?")
    ensures PrepareQuery(url, [("offset", Defined(Num(0.0)))]).Success?
    ensures PrepareQuery(url, [("userId", Undefined)]) == Failure(InvalidParameter)
    ensures PrepareQuery(url, [("userId", Defined(Text("")))]) == Failure(InvalidParameter)
    ensures PrepareQuery(url, []) == Success(Query(url + "?", []))
  {
  }
}
