# EU Parliament votes SDK — a Dafny model of its parsing and decision logic

The SDK reads roll-call-vote pages, documents and MEP (Member of the European
Parliament) data from the European Parliament's web site and open-data API.
Its network calls wrap a set of pure transformations. This project models
those transformations and proves properties about them:

- **Vote parsing** (src/votes.ts):
  - the vote boxes of a page: the `<table>` elements whose `class` is exactly `doc_box_header`;
  - `parseHTMLVote`, which reads a title, a proposal identifier and three
    comma-split, trimmed, sentinel-filtered name lists from a vote box;
  - `parseHTMLToProposalVoteArray`, which skips boxes that fail to parse and
    groups the rest into proposals by first-seen identifier;
  - the argument guards of `getProposalVoteList` and `getVotesFromRCV`.
- **Utilities** (src/util.ts):
  - `checkNameIsInList`, a token-membership test on names after accent
    stripping and lower-casing;
  - the parameter validation and `?` suffix that `loadJsonFromUrl` applies
    before its request.
- **MEP helpers** (src/mep.ts):
  - `parseParty`, backed by the eight-entry group table;
  - the term-to-endpoint dispatch of `loadMeps`;
  - the country-code extraction of `loadCountryDataFromUrl`;
  - `parseMembership` over a typed JSON-LD node list.
- **Documents** (src/document.ts): the document URL, the type read from the
  identifier's first letter, and the clipping of the text between two marker phrases.

HTML appears in the model in abstract form (module `Html`). A page is the
sequence of its `<table>` elements, each with its `class` attribute and its
descendant tables. A descendant table carries the texts of its `<span>`,
`<a>` and `<tr>`/`<td>` descendants. JavaScript's `undefined` and `null`
become the `Nullable` datatype (module `Wrappers`). Every thrown error
becomes the `Failure` case of a `Result`. The string primitives the code
relies on are modelled in module `JsString`: `trim`, `split`, `pop` after
`split`, `indexOf`, `substring` with its clamping, and the
`startsWith`/`endsWith`/`includes` predicates.

The grouping loop is modelled exactly as written. At src/votes.ts:107 the
proposal still open is pushed without the votes collected for it. So the last
proposal always has no votes and `finalVote` 0, and the votes of the last
identifier group are lost, although the field comment at src/votes.ts:17
describes `finalVote` as the index of the final vote of the proposal. For two
votes on each of two proposals the code yields one proposal with two votes
and one with none; `Segment.TwoPairs` states this.

Modules, one file each:

- `wrappers.dfy`: `Option`, `Result` and `Nullable`.
- `jsstring.dfy`: the JavaScript string primitives.
- `html.dfy`: the abstract page and the vote-box filter.
- `proposal_id.dfy`: a hand-written recogniser for the regular expression at src/votes.ts:126.
- `votes.dfy`: `parseHTMLVote` and the argument guards.
- `segment.dfy`: the grouping loop, with its reference definition.
- `names.dfy`: `checkNameIsInList`.
- `request.dfy`: the prefix of `loadJsonFromUrl`.
- `mep.dfy`: the MEP helpers.
- `document.dfy`: the document helpers.

## Model

| member | source | states |
|---|---|---|
| JsString.Trim | src/votes.ts:136 | `trim` yields a slice of the input with no whitespace left at either end, and only whitespace cut off |
| JsString.TrimIdempotent | src/votes.ts:142 | trimming twice is trimming once |
| JsString.Split | src/votes.ts:135 | `split` on one character always yields at least one piece, and no piece contains the separator |
| JsString.JoinSplit | src/votes.ts:135 | joining the pieces of a split with the separator gives back the original text, so nothing is lost |
| JsString.SplitJoin | src/util.ts:120 | splitting a join of separator-free pieces gives back the pieces |
| JsString.LastSegment | src/mep.ts:187 | `split('/').pop()` is the suffix after the last `/`, or the whole text when there is none |
| JsString.LastSegmentAfter | src/mep.ts:292 | the segment read from `a/b`, when `b` has no `/`, is `b` |
| JsString.IndexOf | src/document.ts:31 | `indexOf` is -1 exactly when the needle never occurs, and otherwise its first occurrence |
| JsString.Substring | src/document.ts:31-33 | both bounds clamped into the string: a bound at or below 0 acts as 0 and one at or past the length acts as the length; in range it is the slice between them, in either order |
| JsString.SubstringNegative | src/document.ts:31-33 | a negative start or a negative end of `substring` behaves like 0 |
| JsString.SubstringToMinusOne | src/document.ts:33 | `substring(0, -1)` is empty |
| Html.IsVoteBox | src/votes.ts:114 | the class must be present and a single class name: a table with a second class is not a vote box |
| Html.VoteBoxes | src/votes.ts:111-116 | the kept tables are exactly those whose class equals `doc_box_header`, each as often as in the page |
| Html.VoteBoxesAppend | src/votes.ts:114 | the filter keeps document order: the boxes of a concatenation are the boxes of each part, in order |
| Html.NoVoteBoxesNoBlocks | src/votes.test.ts:9-12 | a page without vote boxes, the empty page included, yields none |
| Html.SingleTable | src/votes.ts:114 | a lone table is kept exactly when its class string is `doc_box_header` |
| ProposalId.MatchAt | src/votes.ts:126 | a match found at an index has one of the two identifier shapes, and none is reported only when no identifier starts there |
| ProposalId.IdFromTitle | src/votes.ts:126 | the identifier read from a title is `""` exactly when no identifier occurs; otherwise it is the leftmost occurrence and has one of the two shapes |
| ProposalId.IdLengthUnique | src/votes.ts:126 | at an index at most one identifier starts, so the leftmost match is determined |
| ProposalId.IdFromTitleIsLeftmost | src/votes.ts:126 | any leftmost identifier in the title is the one returned |
| Votes.SecondCells | src/votes.ts:134 | the second cell of every row, in row order, and a failure exactly when some row lacks one |
| Votes.Pieces | src/votes.ts:135-136 | each name piece is trimmed and comma-free, and no row yields fewer than one piece |
| Votes.PiecesOfJoin | src/votes.ts:135-136 | a cell that joins comma-free names with commas yields exactly those names, trimmed and in order, empty names included; an empty cell yields one empty piece |
| Votes.PiecesAppend | src/votes.ts:135-136 | pieces come in row-then-piece order |
| Votes.PiecesOfOneName | src/votes.ts:135-136 | a cell without commas yields just its trimmed text |
| Votes.Without | src/votes.ts:136 | filtering removes every occurrence of the sentinel and keeps every other name as often as it occurred |
| Votes.WithoutAppend | src/votes.ts:143 | filtering keeps the order of what it keeps |
| Votes.Column | src/votes.ts:131-150 | a name list exists exactly when its table is present and all its rows have a second cell; it never holds the sentinel; its names are trimmed and comma-free; a missing table and a missing cell are told apart |
| Votes.ColumnRows | src/votes.ts:131-150 | the names of a table are the names of its first rows followed by those of the rest |
| Votes.VoteId | src/votes.ts:123-129 | the identifier is the first anchor's text when there is an anchor, and otherwise the leftmost identifier in the title, or `""` |
| Votes.Lists | src/votes.ts:131-150 | the three name lists are read exactly when tables 1 to 3 are all complete; a failure names the first incomplete table, as a missing table or a missing cell; on success each list is that table's column with its sentinel removed |
| Votes.ParseVote | src/votes.ts:118-161 | a box parses exactly when it has four tables and every result row has a second cell; the failure names the first defect; the title is the joined span texts; each list is free of its sentinel |
| Votes.ParseVoteOneNameEach | src/votes.ts:118-161 | a box with one named member per result table yields those three names, trimmed |
| Votes.ProposalListRequest | src/votes.ts:20-29 | an undefined, null or negative limit is refused with "Invalid limit"; any other limit, 0 included, yields the documents query with the work type, offset 0 and the limit |
| Votes.ProposalListRequestExamples | src/votes.test.ts:80-84 | -1, null and undefined are refused and 0 is accepted |
| Votes.RcvRequest | src/votes.ts:43-47 | an undefined, null or empty identifier is refused with "Invalid id"; otherwise the URL is exactly the document prefix, the identifier and `_EN.html` |
| Votes.RcvRequestExamples | src/votes.test.ts:102-106 | `""`, undefined and null are refused |
| Segment.FirstIndices | src/votes.ts:90 | the indices where a new identifier first appears, increasing, starting at 0 |
| Segment.StepInv | src/votes.ts:80-105 | one iteration of the loop keeps the invariant relating its variables to the votes seen so far |
| Segment.FoldInv | src/votes.ts:72-106 | the invariant holds after every prefix of the parsed votes |
| Segment.SegmenterCorrect | src/votes.ts:60-109 | the loop's output satisfies the reference definition: one proposal per first appearance, each closed proposal holding the votes up to the next new identifier, the last one empty |
| Segment.SegmentedUnique | src/votes.ts:60-109 | the reference definition admits exactly one output |
| Segment.ParseHtmlToProposalVoteArray | src/votes.ts:60-109 | the loop over the page's vote boxes returns the reference grouping of the votes that parse |
| Segment.AddVote | src/votes.ts:80-105 | after one iteration on the loop variables, the closed proposals, first-seen identifiers, open proposal and collected votes meet the invariant of the reference grouping for the votes seen so far, this vote included |
| Segment.IdsDistinct | src/votes.ts:90-94 | the proposal identifiers are pairwise distinct |
| Segment.IdsAreVoteIds | src/votes.ts:80-101 | every proposal identifier is the identifier of a parsed vote, and every parsed identifier has its proposal |
| Segment.ProposalShapes | src/votes.ts:90-107 | every proposal but the last has votes and `finalVote` equal to their count less one; the last has no votes and `finalVote` 0 |
| Segment.VotesKept | src/votes.ts:102-107 | the votes of all proposals, concatenated, are the parsed votes cut before the first vote of the last new identifier |
| Segment.NothingParsed | src/votes.ts:65-107 | when no box parses the output is the single placeholder proposal |
| Segment.FailedBoxIgnored | src/votes.ts:73-78 | a box that fails to parse does not change the parsed votes |
| Segment.RevisitJoinsOpenProposal | src/votes.ts:90-105 | a vote whose identifier was seen before joins the open proposal, not the one it first opened |
| Segment.TwoPairs | src/votes.ts:107 | two votes on each of two proposals give the first proposal its two votes and the second none |
| Names.CheckNameIsInList | src/util.ts:116-132 | the result is true exactly when some space-separated token of the normalised full name equals some normalised entry |
| Names.Normalize | src/util.ts:118 | normalised text contains no combining mark and no upper-case letter |
| Names.NormalizeIdempotent | src/util.ts:118 | normalising twice is normalising once |
| Names.NormalizeIgnoresCase | src/util.ts:118 | upper-casing before normalising changes nothing |
| Names.NormalizeDropsMark | src/util.ts:118 | a combining mark anywhere is removed by normalisation |
| Names.NormalizeDropsAccent | src/util.ts:118 | a precomposed accented letter normalises like its base letter |
| Names.EmptyListNeverMatches | src/util.ts:125-131 | an empty list never matches |
| Names.MatchSurvivesMoreEntries | src/util.ts:125-131 | adding entries before or after never turns a match into a miss |
| Names.MatchDependsOnEntrySet | src/util.ts:125-131 | only the set of entries matters, not their order or repetition |
| Names.MatchIgnoresCase | src/util.ts:118 | matching ignores the case of the full name |
| Names.LeadingSpaceMatchesEmptyEntry | src/util.ts:120-126 | a leading space yields an empty token that matches an empty entry |
| Names.OneTokenIsEnough | src/util.test.ts:28-47 | "John Doe" and "John Jane Doe" match `john, jane, doe` |
| Names.PartialTokensDoNotMatch | src/util.test.ts:49-54 | "Johnz Smithz" does not match `john, jane, doe`, although `john` begins its first token |
| Names.UnrelatedNameDoesNotMatch | src/util.test.ts:35-40 | "Donna Smith" does not match `john, jane, doe` |
| Names.AccentsAndCaseIgnored | src/util.ts:118-126 | an accented, capitalised name matches its plain lower-case entry |
| Request.WithQueryMark | src/util.ts:99-101 | the URL ends with `?` afterwards, and is changed exactly when it did not |
| Request.WithQueryMarkIdempotent | src/util.ts:99-101 | the `?` is never doubled |
| Request.AcceptedEntries | src/util.ts:92-98 | the parameters are refused with "Invalid parameter" exactly when one is undefined, null or `""`; otherwise every entry is kept in order |
| Request.PrepareQuery | src/util.ts:89-101 | the request carries the URL with its `?` and the parameters in order, or fails exactly when a parameter is refused |
| Request.ZeroAcceptedEmptyRefused | src/util.test.ts:74-78 | 0 is a valid value; undefined and `""` are refused; empty parameters still append `?` |
| Mep.PartyId | src/mep.ts:292 | the organisation's last `/`-separated segment: `/`-free, a suffix of the organisation URL, preceded by `/` or the whole URL; `"undefined"` when the organisation is missing |
| Mep.FindCurrentGroup | src/mep.ts:282-286 | the first membership with `EP_GROUP` in its corporate body and no end date, or none |
| Mep.ParseParty | src/mep.ts:281-297 | `""` exactly when there is no current group; any other success is the table's group for the organisation id of the first current group; a failure reports that id, which is absent from the table |
| Mep.FirstCurrentGroupDecides | src/mep.ts:282-286 | earlier memberships that are not current and all later memberships do not change the result |
| Mep.PartyOfOrganisation | src/mep.ts:292-296 | the group is looked up by the segment after the last `/` of the organisation URL |
| Mep.ParsePartyCurrentGroup | test/mep.test.ts:47-68 | the current `5153` membership gives EPP; the ended one is ignored |
| Mep.ParsePartyUnknown | test/mep.test.ts:70-82 | organisation `1234` gives "Unknown party 1234" |
| Mep.ParsePartyNoGroup | test/mep.test.ts:84-98 | only ended memberships give `""` |
| Mep.EffectiveTerm | src/mep.ts:70-72 | an omitted term becomes 9, a given term is kept, and only `null` has no value |
| Mep.MepsRequest | src/mep.ts:70-90 | "Invalid term number" exactly when the term is null or outside [0, 10); otherwise "Invalid parameter" exactly when the limit is null; term 0 asks for the current members with the limit only; other terms ask for the term's list with limit and term; omitted arguments default to 5 and 9 |
| Mep.MepsRequestExamples | test/mep.test.ts:121-148 | terms 20, 11 and -1 are refused, term 0 is accepted, and the defaults give the list of term 9 with limit 5 |
| Mep.CountryCode | src/mep.ts:186-190 | succeeds exactly when the text after the last `/` (the whole URL when it has none) has three characters, and returns that text; otherwise the error names the URL |
| Mep.CountryCodeOfUrl | src/mep.ts:186-190 | the code is read back from a URL ending in `/` and a `/`-free segment exactly when that segment has three characters |
| Mep.CountryCodeInvalidUrl | test/mep.test.ts:113-119 | `https://invalid-url` is refused |
| Mep.FindNode | src/mep.ts:244-246 | the first node carrying the type, and none exactly when no node does |
| Mep.EnglishValue | src/mep.ts:249-251 | the value of the first English label, and none exactly when there is no English label |
| Mep.RequiredLabel | src/mep.ts:253-258 | a present node and English label give the value; a missing one gives an error naming the type |
| Mep.ParseMembership | src/mep.ts:238-272 | the corporate body is absent exactly when no node has its type, and otherwise its English label; role and organisation are the English labels of their nodes; the dates come from the first period node; a failure means a required node or English label is missing |
| Mep.ParseMembershipExample | test/mep.test.ts:3-43 | a graph with one node of each type yields its corporate body, role, organisation and start date |
| Document.DocumentUrl | src/document.ts:12 | the URL begins with the document prefix and ends with `_EN.html` |
| Document.DocumentUrlRoundTrip | src/document.ts:12 | the identifier is read back from its URL |
| Document.DocumentUrlInjective | src/document.test.ts:14 | different identifiers give different URLs |
| Document.Classify | src/document.ts:17-24 | report exactly when the identifier starts with `A`, motion exactly when it starts with `B`, other otherwise |
| Document.ClassifyRange | src/document.ts:17-24 | only three of the eleven declared types can be produced, and the first-letter test is case-sensitive |
| Document.ClassifyExamples | src/document.test.ts:13 | `A-9-2023-0288` is a report; its lower-case form is other |
| Document.ClipStart | src/document.ts:31 | without the opening phrase the text is unchanged; otherwise the result is the suffix starting at its first occurrence |
| Document.ClipEnd | src/document.ts:33 | the result is the prefix before the first occurrence of the closing phrase, never contains it, and is `""` when the phrase is absent |
| Document.Content | src/document.ts:31-33 | the content never contains the closing phrase, and is `""` when the clipped text lacks it |
| Document.ContentStartsWithStartMarker | src/document.test.ts:11 | when both phrases are present the content starts with the opening phrase |
| Document.ContentInText | src/document.ts:31-33 | the content is the run of the text that starts at the first opening phrase, or a prefix of the text when the phrase is absent |
| Document.ParseDocument | src/document.ts:11-41 | the URL is exactly the document prefix, the identifier and `_EN.html`; the type is Report exactly for ids starting with `A` and Motion exactly for ids starting with `B`; the content starts at the first opening phrase and begins with it when the closing phrase follows, is empty when no closing phrase follows, and never contains the closing phrase |

## Left out

- HTTP and promises: `fetch`, the response checks (src/votes.ts:48-57, src/document.ts:13-16, src/util.ts:103-113), `response.data.map` in `getProposalVoteList`, and `Promise.all` in `loadMeps`, `loadMep` and `loadMemberships`. Only the pure steps before and after them are modelled.
- `loadMep`, `loadMemberships` and the `loadDetails`/`loadMembershipData` branches of `loadMeps`: they combine network calls; the helpers they call are modelled.
- `cacheFunction` (src/util.ts): storage I/O only.
- The HTML parser: parsing, `structuredText`, `innerText` and `getElementsByTagName` are replaced by the abstract page of module `Html`.
- `URLSearchParams` encoding: the model keeps the query as the ordered entry list that would be encoded.
- Names.Normalize: `normalize("NFD")` and `toLowerCase` are modelled for ASCII and Latin-1 only. Other characters are left unchanged, because the full Unicode tables are out of scope.
- ProposalId.IdFromTitle: the regular expression engine is replaced by a recogniser for its two shapes.
- The value semantics of JavaScript: a `NaN` limit or term, a `params` object that is itself undefined or null, and prototype keys such as `constructor` in the `parties` lookup. The group table is a finite map.
- Mep.ParseMembership: a node's `@type` is modelled as a list. A plain string, where `includes` would match substrings, is not modelled. Dates are kept as the API's text.
- JsString: lengths and indices count characters, not UTF-16 code units.
- `loadCountryData` and the `countryData` table, the `age` helper and `parseInt`: only the code extraction is modelled.
- Member tallying against a roster (`loadVoteWithMeps`, `VoteResults`, `parseHTMLToVote`, `getVoteList`, `DocumentVote`, `getRCVs`): these names appear only in tests and exports, and their code is not part of this model.
- Logging of skipped boxes (src/votes.ts:76).
