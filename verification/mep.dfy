/** The decision logic of the MEP helpers in src/mep.ts: the political group
    read from a member's memberships (`parseParty`), the endpoint chosen for a
    parliamentary term (`loadMeps`), the country code read from a citizenship
    URL (`loadCountryDataFromUrl`) and the membership read from a JSON-LD
    graph (`parseMembership`). */
module Mep {
  import opened Wrappers
  import opened JsString
  import opened Request

  /** src/mep.ts:30-37. The dates are kept as the text the API delivers;
      `org` is optional because `parseParty` reads it with `?.`. */
  datatype Membership = Membership(
    corporateBody: Option<string>,
    role: string,
    org: Option<string>,
    startDate: Option<string>,
    endDate: Option<string>)

  /** The political groups by the last segment of their organisation URL (src/mep.ts:50-59). */
  const Parties: map<string, string> := map[
    "5148" := "ECR",
    "5152" := "NI",
    "5153" := "EPP",
    "5154" := "SD",
    "5155" := "GREEN_EFA",
    "5704" := "RENEW",
    "6259" := "LEFT",
    "5588" := "ID"]

  const GroupMarker := "EP_GROUP"

  /** A membership of a political group that has not ended (src/mep.ts:283-285). */
  predicate IsCurrentGroup(m: Membership) {
    m.corporateBody.Some? && Includes(m.corporateBody.value, GroupMarker) && m.endDate.None?
  }

  /** `memberships.find(...)`: the index of the first current group membership. */
  function FindCurrentGroup(ms: seq<Membership>): (r: Option<nat>)
    ensures r.None? <==> forall k :: 0 <= k < |ms| ==> !IsCurrentGroup(ms[k])
    ensures r.Some? ==> r.value < |ms| && IsCurrentGroup(ms[r.value])
    ensures r.Some? ==> forall k :: 0 <= k < r.value ==> !IsCurrentGroup(ms[k])
  {
    if |ms| == 0 then None
    else if IsCurrentGroup(ms[0]) then Some(0)
    else
      match FindCurrentGroup(ms[1..])
      case None => None
      case Some(i) => Some(i + 1)
  }

  /** `partyMembership.org?.split('/')?.pop()` as the template literal of the
      error message and the table lookup see it: `"undefined"` when `org` is missing. */
  function PartyId(org: Option<string>): (r: string)
    ensures org.None? ==> r == "undefined"
    ensures org.Some? ==> '/' !in r && EndsWith(org.value, r)
    ensures org.Some? ==> |r| == |org.value| || org.value[|org.value| - |r| - 1] == '/'
  {
    match org
    case None => "undefined"
    case Some(o) =>
      var r := LastSegment(o, '/');
      assert o[|o| - |r|..] == r;
      r
  }

  /** `parseParty` (src/mep.ts:281-297). */
  function ParseParty(ms: seq<Membership>): (r: Result<string, string>)
    ensures r == Success("") <==> forall k :: 0 <= k < |ms| ==> !IsCurrentGroup(ms[k])
    ensures r.Success? ==> r.value == "" || r.value in Parties.Values
    ensures r.Success? && r.value != "" ==> exists i ::
      (&& 0 <= i < |ms| && IsCurrentGroup(ms[i])
       && (forall k :: 0 <= k < i ==> !IsCurrentGroup(ms[k]))
       && PartyId(ms[i].org) in Parties
       && r.value == Parties[PartyId(ms[i].org)])
    ensures r.Failure? ==> exists i ::
      (&& 0 <= i < |ms| && IsCurrentGroup(ms[i])
       && (forall k :: 0 <= k < i ==> !IsCurrentGroup(ms[k]))
       && PartyId(ms[i].org) !in Parties
       && r.error == "Unknown party " + PartyId(ms[i].org))
  {
    match FindCurrentGroup(ms)
    case None => Success("")
    case Some(i) =>
      var id := PartyId(ms[i].org);
      if id in Parties then
        assert Parties[id] in Parties.Values;
        assert Parties[id] != "";
        Success(Parties[id])
      else Failure("Unknown party " + id)
  }

  /** Only the first current group membership is consulted: memberships
      before it that are not current, and everything after it, do not count. */
  lemma FirstCurrentGroupDecides(before: seq<Membership>, m: Membership, after: seq<Membership>)
    requires forall k :: 0 <= k < |before| ==> !IsCurrentGroup(before[k])
    requires IsCurrentGroup(m)
    ensures ParseParty(before + [m] + after) == ParseParty([m])
  {
    var ms := before + [m] + after;
    assert ms[|before|] == m;
    assert forall k :: 0 <= k < |before| ==> ms[k] == before[k];
    assert FindCurrentGroup(ms) == Some(|before|);
  }

  /** The group of a current membership is looked up by its organisation id. */
  lemma PartyOfOrganisation(m: Membership, base: string, id: string)
    requires IsCurrentGroup(m) && m.org == Some(base + "/" + id) && '/' !in id
    ensures ParseParty([m]) == if id in Parties then Success(Parties[id]) else Failure("Unknown party " + id)
  {
    LastSegmentAfter(base, id, '/');
    assert [m][0] == m;
  }

  /** The memberships of the tests in test/mep.test.ts:47-98, for organisation
      and corporate-body URLs below any common `base`. */
  function TestMembership(base: string, org: string, ended: bool): Membership {
    Membership(Some(base + "/" + GroupMarker), "Member", Some(base + "/" + org), Some("2019-07-02"),
      if ended then Some("2019-07-02") else None)
  }

  /** test/mep.test.ts:47-68: the current membership decides, the ended one is ignored. */
  lemma ParsePartyCurrentGroup(base: string)
    ensures ParseParty([TestMembership(base, "5153", false), TestMembership(base, "5155", true)]) == Success("EPP")
  {
    var m := TestMembership(base, "5153", false);
    IncludesSuffix(base + "/", GroupMarker);
    assert base + "/" + GroupMarker == (base + "/") + GroupMarker;
    FirstCurrentGroupDecides([], m, [TestMembership(base, "5155", true)]);
    assert [] + [m] + [TestMembership(base, "5155", true)] == [m, TestMembership(base, "5155", true)];
    PartyOfOrganisation(m, base, "5153");
  }

  /** test/mep.test.ts:70-82: an id missing from the table is an error. */
  lemma ParsePartyUnknown(base: string)
    ensures ParseParty([TestMembership(base, "1234", false)]) == Failure("Unknown party 1234")
  {
    var m := TestMembership(base, "1234", false);
    IncludesSuffix(base + "/", GroupMarker);
    assert base + "/" + GroupMarker == (base + "/") + GroupMarker;
    PartyOfOrganisation(m, base, "1234");
    assert "Unknown party " + "1234" == "Unknown party 1234";
  }

  /** test/mep.test.ts:84-98: with only ended memberships there is no group. */
  lemma ParsePartyNoGroup(base: string)
    ensures ParseParty([TestMembership(base, "5155", true)]) == Success("")
  {
  }

  const MepsEndpoint := "https://data.europarl.europa.eu/api/v1/meps"
  const CurrentMepsEndpoint := "https://data.europarl.europa.eu/api/v1/meps/show-current"
  const InvalidTerm := "Invalid term number"

  /** The term `loadMeps` works with: the argument, or 9 when it is omitted. */
  function EffectiveTerm(term: Nullable<real>): (r: Option<real>)
    ensures r.None? <==> term.Null?
    ensures term.Defined? ==> r == Some(term.value)
    ensures term.Undefined? ==> r == Some(9.0)
  {
    match term
    case Undefined => Some(9.0)
    case Null => None
    case Defined(t) => Some(t)
  }

  /** Neither endpoint ends with a question mark, so one is appended. */
  lemma EndpointsMarked()
    ensures WithQueryMark(MepsEndpoint) == MepsEndpoint + "?"
    ensures WithQueryMark(CurrentMepsEndpoint) == CurrentMepsEndpoint + "?"
  {
    assert MepsEndpoint == "https://data.europarl.europa.eu/api/v1/mep" + ['s'];
    WithQueryMarkAppends("https://data.europarl.europa.eu/api/v1/mep", 's');
    assert CurrentMepsEndpoint == "https://data.europarl.europa.eu/api/v1/meps/show-curren" + ['t'];
    WithQueryMarkAppends("https://data.europarl.europa.eu/api/v1/meps/show-curren", 't');
  }

  /** `loadMeps` up to the request (src/mep.ts:70-92): terms strictly between
      0 and 10 query the list of a term, term 0 the current members; anything
      else, `null` included, is refused before the parameters are checked. */
  function MepsRequest(limit: Nullable<real>, term: Nullable<real>): (r: Result<Query, string>)
    ensures r == Failure(InvalidTerm) <==>
      EffectiveTerm(term).None? || !(0.0 <= EffectiveTerm(term).value < 10.0)
    ensures r.Failure? && r.error != InvalidTerm ==> r.error == InvalidParameter && limit.Null?
    ensures limit.Null? && r != Failure(InvalidTerm) ==> r == Failure(InvalidParameter)
    ensures r.Success? && EffectiveTerm(term).value == 0.0 ==>
      r.value.base == CurrentMepsEndpoint + "?" && |r.value.entries| == 1
    ensures r.Success? && EffectiveTerm(term).value != 0.0 ==>
      && r.value.base == MepsEndpoint + "?" && |r.value.entries| == 2
      && r.value.entries[1] == ("parliamentary-term", Num(EffectiveTerm(term).value))
    ensures r.Success? ==>
      |r.value.entries| >= 1 && r.value.entries[0] == ("limit", Num(if limit.Defined? then limit.value else 5.0))
  {
    var lim: Param := match limit
      case Undefined => Defined(Num(5.0))
      case Null => Null
      case Defined(l) => Defined(Num(l));
    match EffectiveTerm(term)
    case None => Failure(InvalidTerm)
    case Some(t) =>
      if 0.0 < t < 10.0 then
        EndpointsMarked();
        PrepareQuery(MepsEndpoint, [("limit", lim), ("parliamentary-term", Defined(Num(t)))])
      else if t == 0.0 then
        EndpointsMarked();
        PrepareQuery(CurrentMepsEndpoint, [("limit", lim)])
      else Failure(InvalidTerm)
  }

  /** The term dispatch on the cases of test/mep.test.ts:121-148 and the defaults. */
  lemma MepsRequestExamples()
    ensures MepsRequest(Defined(2.0), Defined(20.0)) == Failure(InvalidTerm)
    ensures MepsRequest(Defined(5.0), Defined(11.0)) == Failure(InvalidTerm)
    ensures MepsRequest(Defined(5.0), Defined(-1.0)) == Failure(InvalidTerm)
    ensures MepsRequest(Defined(5.0), Defined(0.0)).Success?
    ensures MepsRequest(Undefined, Undefined)
      == Success(Query(MepsEndpoint + "?", [("limit", Num(5.0)), ("parliamentary-term", Num(9.0))]))
  {
    var q := MepsRequest(Undefined, Undefined);
    assert q.Success?;
    assert q.value.entries == [("limit", Num(5.0)), ("parliamentary-term", Num(9.0))];
    assert MepsRequest(Defined(5.0), Defined(0.0)) != Failure(InvalidTerm);
  }

  const CountryCodeError := "Unable to parse code from "

  /** `loadCountryDataFromUrl` up to the table lookup (src/mep.ts:186-190):
      the text after the last `/` must be exactly three characters. */
  function CountryCode(url: string): (r: Result<string, string>)
    ensures r.Success? ==> |r.value| == 3 && '/' !in r.value && EndsWith(url, r.value)
    ensures r.Success? ==> |r.value| == |url| || url[|url| - 4] == '/'
    ensures r.Failure? ==> r.error == CountryCodeError + url
    ensures r.Success? <==> |LastSegment(url, '/')| == 3
    ensures r.Success? ==> r.value == LastSegment(url, '/')
  {
    var code := LastSegment(url, '/');
    if |code| != 3 then Failure(CountryCodeError + url)
    else
      assert url[|url| - |code|..] == code;
      Success(code)
  }

  /** The code is read back from a URL ending in `/` and three characters,
      and a last segment of any other length is refused. */
  lemma CountryCodeOfUrl(base: string, code: string)
    requires '/' !in code
    ensures CountryCode(base + "/" + code) == if |code| == 3 then Success(code) else Failure(CountryCodeError + base + "/" + code)
  {
    LastSegmentAfter(base, code, '/');
    assert CountryCodeError + (base + "/" + code) == CountryCodeError + base + "/" + code;
  }

  /** test/mep.test.ts:113-119. */
  lemma CountryCodeInvalidUrl()
    ensures CountryCode("https://invalid-url").Failure?
  {
    var base, code := "https:/", "invalid-url";
    assert '/' !in code;
    assert base + "/" + code == "https://invalid-url";
    CountryCodeOfUrl(base, code);
  }

  /** A `prefLabel` entry. */
  datatype Label = Label(language: string, value: string)

  /** A node of the `@graph` array: its `@type` list, its labels and its dates. */
  datatype Node = Node(types: seq<string>, prefLabel: seq<Label>, startDate: Option<string>, endDate: Option<string>)

  /** The `TypeError` raised when a node or an English label is missing. */
  datatype MembershipError = MissingNode(nodeType: string) | MissingEnglishLabel(nodeType: string)

  const CorporateBodyType := "euvoc:CorporateBodyClassification"
  const RoleType := "euvoc:Role"
  const OrganizationType := "org:Organization"
  const PeriodType := "dcterms:PeriodOfTime"

  /** `graph.find((property) => property['@type'].includes(nodeType))`. */
  function FindNode(graph: seq<Node>, nodeType: string): (r: Option<Node>)
    ensures r.None? <==> forall k :: 0 <= k < |graph| ==> nodeType !in graph[k].types
    ensures r.Some? ==> exists i ::
      0 <= i < |graph| && graph[i] == r.value && nodeType in r.value.types
      && forall k :: 0 <= k < i ==> nodeType !in graph[k].types
  {
    if |graph| == 0 then None
    else if nodeType in graph[0].types then Some(graph[0])
    else
      var r := FindNode(graph[1..], nodeType);
      if r.Some? then
        var i :| 0 <= i < |graph| - 1 && graph[1..][i] == r.value && nodeType in r.value.types
          && forall k :: 0 <= k < i ==> nodeType !in graph[1..][k].types;
        assert graph[i + 1] == r.value;
        r
      else r
  }

  /** `labels.find((label) => label['@language'] === 'en')['@value']`. */
  function EnglishValue(labels: seq<Label>): (r: Option<string>)
    ensures r.None? <==> forall k :: 0 <= k < |labels| ==> labels[k].language != "en"
    ensures r.Some? ==> exists i ::
      0 <= i < |labels| && labels[i] == Label("en", r.value)
      && forall k :: 0 <= k < i ==> labels[k].language != "en"
  {
    if |labels| == 0 then None
    else if labels[0].language == "en" then Some(labels[0].value)
    else
      var r := EnglishValue(labels[1..]);
      if r.Some? then
        var i :| 0 <= i < |labels| - 1 && labels[1..][i] == Label("en", r.value)
          && forall k :: 0 <= k < i ==> labels[1..][k].language != "en";
        assert labels[i + 1] == Label("en", r.value);
        r
      else r
  }

  /** The English label of the first node of a type that must be present. */
  function RequiredLabel(graph: seq<Node>, nodeType: string): (r: Result<string, MembershipError>)
    ensures r.Success? <==> FindNode(graph, nodeType).Some? && EnglishValue(FindNode(graph, nodeType).value.prefLabel).Some?
    ensures r.Success? ==> r.value == EnglishValue(FindNode(graph, nodeType).value.prefLabel).value
    ensures r.Failure? ==> r.error == MissingNode(nodeType) || r.error == MissingEnglishLabel(nodeType)
  {
    match FindNode(graph, nodeType)
    case None => Failure(MissingNode(nodeType))
    case Some(n) =>
      match EnglishValue(n.prefLabel)
      case None => Failure(MissingEnglishLabel(nodeType))
      case Some(v) => Success(v)
  }

  /** `parseMembership` (src/mep.ts:238-272). */
  function ParseMembership(graph: seq<Node>): (r: Result<Membership, MembershipError>)
    ensures r.Success? ==>
      (r.value.corporateBody.None? <==> forall k :: 0 <= k < |graph| ==> CorporateBodyType !in graph[k].types)
    ensures r.Success? && r.value.corporateBody.Some? ==>
      r.value.corporateBody == EnglishValue(FindNode(graph, CorporateBodyType).value.prefLabel)
    ensures r.Success? ==> RequiredLabel(graph, RoleType) == Success(r.value.role)
    ensures r.Success? ==> r.value.org.Some? && RequiredLabel(graph, OrganizationType) == Success(r.value.org.value)
    ensures r.Success? ==> exists i ::
      && 0 <= i < |graph| && PeriodType in graph[i].types
      && (forall k :: 0 <= k < i ==> PeriodType !in graph[k].types)
      && r.value.startDate == graph[i].startDate && r.value.endDate == graph[i].endDate
    ensures r.Failure? <==>
      || (FindNode(graph, CorporateBodyType).Some?
          && EnglishValue(FindNode(graph, CorporateBodyType).value.prefLabel).None?)
      || RequiredLabel(graph, RoleType).Failure?
      || RequiredLabel(graph, OrganizationType).Failure?
      || FindNode(graph, PeriodType).None?
  {
    var corporateBody :- match FindNode(graph, CorporateBodyType)
      case None => Success(None)
      case Some(n) =>
        match EnglishValue(n.prefLabel)
        case None => Failure(MissingEnglishLabel(CorporateBodyType))
        case Some(v) => Success(Some(v));
    var role :- RequiredLabel(graph, RoleType);
    var org :- RequiredLabel(graph, OrganizationType);
    match FindNode(graph, PeriodType)
    case None => Failure(MissingNode(PeriodType))
    case Some(dates) => Success(Membership(corporateBody, role, Some(org), dates.startDate, dates.endDate))
  }

  /** test/mep.test.ts:3-43: a graph with one node of each type. */
  lemma ParseMembershipExample(body: string, start: string)
    ensures
      var graph := [
        Node([CorporateBodyType], [Label("en", body)], None, None),
        Node([RoleType], [Label("en", "Member")], None, None),
        Node([OrganizationType], [Label("en", body)], None, None),
        Node([PeriodType], [], Some(start), None)];
      ParseMembership(graph) == Success(Membership(Some(body), "Member", Some(body), Some(start), None))
  {
    var graph := [
      Node([CorporateBodyType], [Label("en", body)], None, None),
      Node([RoleType], [Label("en", "Member")], None, None),
      Node([OrganizationType], [Label("en", body)], None, None),
      Node([PeriodType], [], Some(start), None)];
    TypesDiffer();
    FindNodeAt(graph, 0, CorporateBodyType);
    FindNodeAt(graph, 1, RoleType);
    FindNodeAt(graph, 2, OrganizationType);
    FindNodeAt(graph, 3, PeriodType);
  }

  /** The node found for a type is the first node of that type. */
  lemma FindNodeAt(graph: seq<Node>, i: int, nodeType: string)
    requires 0 <= i < |graph| && nodeType in graph[i].types
    requires forall k :: 0 <= k < i ==> nodeType !in graph[k].types
    ensures FindNode(graph, nodeType) == Some(graph[i])
  {
    var r := FindNode(graph, nodeType);
    var i' :| 0 <= i' < |graph| && graph[i'] == r.value && nodeType in r.value.types
      && forall k :: 0 <= k < i' ==> nodeType !in graph[k].types;
    assert !(i' < i) && !(i < i');
  }

  /** The four node types are different strings. */
  lemma TypesDiffer()
    ensures CorporateBodyType != RoleType && CorporateBodyType != OrganizationType && CorporateBodyType != PeriodType
    ensures RoleType != OrganizationType && RoleType != PeriodType && OrganizationType != PeriodType
  {
    assert |CorporateBodyType| == 33 && |RoleType| == 10 && |OrganizationType| == 16 && |PeriodType| == 20;
  }
}
