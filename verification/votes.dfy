/** One roll-call vote read from a vote box (`parseHTMLVote`,
    src/votes.ts:118-161), and the argument guards of the two entry points
    that fetch votes (src/votes.ts:20-29, 43-47). */
module Votes {
  import opened Wrappers
  import opened JsString
  import opened Html
  import ProposalId
  import opened Request
  import Document

  /** src/votes.ts:5-11. */
  datatype Vote = Vote(
    proposalId: string,
    title: string,
    positive: seq<string>,
    negative: seq<string>,
    abstention: seq<string>)

  /** The `TypeError` thrown when a property of `undefined` is read: a
      missing descendant table, or a row without a second `<td>`. */
  datatype ParseError = MissingTable(index: nat) | MissingCell(table: nat)

  /** The sentinel each result table puts in rows without names. */
  const PositiveSentinel := "+"
  const NegativeSentinel := "-"
  const AbstentionSentinel := "0"

  /** `parts.join("")`. */
  function Concat(parts: seq<string>): string {
    if |parts| == 0 then "" else parts[0] + Concat(parts[1..])
  }

  /** `party.getElementsByTagName("td")[1].structuredText` for every row; `None`
      when some row has fewer than two cells. */
  function SecondCells(rows: seq<Row>): (r: Option<seq<string>>)
    ensures r.None? <==> exists k :: 0 <= k < |rows| && |rows[k].cells| < 2
    ensures r.Some? ==> |r.value| == |rows|
    ensures r.Some? ==> forall k :: 0 <= k < |rows| ==> r.value[k] == rows[k].cells[1]
  {
    if |rows| == 0 then Some([])
    else if |rows[0].cells| < 2 then None
    else
      match SecondCells(rows[1..])
      case None =>
        assert exists k :: 0 <= k < |rows| - 1 && |rows[1..][k].cells| < 2;
        None
      case Some(rest) => Some([rows[0].cells[1]] + rest)
  }

  /** `.map((mep) => mep.trim())`. */
  function TrimAll(xs: seq<string>): (r: seq<string>)
    ensures |r| == |xs|
    ensures forall k :: 0 <= k < |xs| ==> r[k] == Trim(xs[k])
  {
    seq(|xs|, k requires 0 <= k < |xs| => Trim(xs[k]))
  }

  /** Trimming a comma-free piece leaves it comma-free. */
  lemma TrimKeepsCommaFree(s: string)
    requires ',' !in s
    ensures ',' !in Trim(s) && IsTrimmed(Trim(s))
  {
    var r := Trim(s);
    var lo :| IsCoreAt(s, r, lo);
    assert forall k :: 0 <= k < |r| ==> r[k] == s[lo + k];
  }

  /** `.flatMap((persons) => persons.split(",")).map((mep) => mep.trim())`:
      the trimmed comma-separated pieces of every text, text by text. */
  function Pieces(texts: seq<string>): (r: seq<string>)
    ensures |r| >= |texts|
    ensures forall k :: 0 <= k < |r| ==> ',' !in r[k] && IsTrimmed(r[k])
  {
    if |texts| == 0 then []
    else
      var split := Split(texts[0], ',');
      var head := TrimAll(split);
      forall k | 0 <= k < |head|
        ensures ',' !in head[k] && IsTrimmed(head[k])
      {
        TrimKeepsCommaFree(split[k]);
      }
      head + Pieces(texts[1..])
  }

  /** Pieces keep the row order: the pieces of two runs of rows are the
      pieces of the first run followed by those of the second. */
  lemma {:induction false} PiecesAppend(a: seq<string>, b: seq<string>)
    ensures Pieces(a + b) == Pieces(a) + Pieces(b)
  {
    if |a| == 0 {
      assert a + b == b;
    } else {
      var ab := a + b;
      assert ab[0] == a[0] && ab[1..] == a[1..] + b;
      PiecesAppend(a[1..], b);
    }
  }

  /** A text without commas is one name, trimmed. */
  lemma PiecesOfOneName(text: string)
    requires ',' !in text
    ensures Pieces([text]) == [Trim(text)]
  {
    SplitNoSeparator(text, ',');
    assert [text][1..] == [];
  }

  /** A cell made of comma-free names joined by commas yields exactly those
      names, trimmed and in order; empty names between or around commas are
      kept as empty pieces. A cell with no names at all is empty and yields
      one empty piece. */
  lemma PiecesOfJoin(names: seq<string>)
    requires forall k :: 0 <= k < |names| ==> ',' !in names[k]
    ensures |names| >= 1 ==> Pieces([Join(names, ',')]) == TrimAll(names)
    ensures |names| == 0 ==> Pieces([Join(names, ',')]) == [""]
  {
    PiecesOfCell(Join(names, ','));
    if |names| >= 1 {
      SplitJoin(names, ',');
    } else {
      assert Trim("") == "";
    }
  }

  /** The pieces of one cell are the trimmed pieces of its split. */
  lemma PiecesOfCell(text: string)
    ensures Pieces([text]) == TrimAll(Split(text, ','))
  {
    assert [text][1..] == [];
  }

  /** `.filter((mep) => mep !== sentinel)`: every occurrence of the sentinel
      is removed and every other piece is kept, empty pieces included. */
  function Without(xs: seq<string>, sentinel: string): (r: seq<string>)
    ensures sentinel !in r
    ensures forall x :: multiset(r)[x] == if x == sentinel then 0 else multiset(xs)[x]
  {
    if |xs| == 0 then []
    else
      assert xs == [xs[0]] + xs[1..];
      var rest := Without(xs[1..], sentinel);
      if xs[0] == sentinel then rest else [xs[0]] + rest
  }

  /** Filtering keeps the order of what it keeps. */
  lemma {:induction false} WithoutAppend(a: seq<string>, b: seq<string>, sentinel: string)
    ensures Without(a + b, sentinel) == Without(a, sentinel) + Without(b, sentinel)
  {
    if |a| == 0 {
      assert a + b == b;
    } else {
      var ab := a + b;
      assert ab[0] == a[0] && ab[1..] == a[1..] + b;
      WithoutAppend(a[1..], b, sentinel);
      if a[0] != sentinel {
        calc {
          Without(ab, sentinel);
          [a[0]] + Without(a[1..] + b, sentinel);
          [a[0]] + (Without(a[1..], sentinel) + Without(b, sentinel));
          ([a[0]] + Without(a[1..], sentinel)) + Without(b, sentinel);
        }
      }
    }
  }

  /** Descendant table `k` is present and each of its rows has a second cell. */
  predicate Complete(tables: seq<Table>, k: nat) {
    k < |tables| && forall j :: 0 <= j < |tables[k].rows| ==> |tables[k].rows[j].cells| >= 2
  }

  /** The names of result table `k` (src/votes.ts:131-150). */
  function Column(tables: seq<Table>, k: nat, sentinel: string): (r: Result<seq<string>, ParseError>)
    ensures r.Success? <==> Complete(tables, k)
    ensures r.Failure? ==> r.error == (if k < |tables| then MissingCell(k) else MissingTable(k))
    ensures r.Success? ==> sentinel !in r.value
    ensures r.Success? ==> forall n :: 0 <= n < |r.value| ==> ',' !in r.value[n] && IsTrimmed(r.value[n])
  {
    if |tables| <= k then Failure(MissingTable(k))
    else
      match SecondCells(tables[k].rows)
      case None => Failure(MissingCell(k))
      case Some(texts) =>
        var r := Without(Pieces(texts), sentinel);
        forall n | 0 <= n < |r|
          ensures ',' !in r[n] && IsTrimmed(r[n])
        {
          assert r[n] in multiset(r);
          assert r[n] in multiset(Pieces(texts));
        }
        Success(r)
  }

  /** The names of a result table are the trimmed pieces of the rows' second
      cells with the sentinel removed; a row contributes its pieces in order,
      after those of the rows above it. */
  lemma ColumnRows(t: Table, k: nat, tables: seq<Table>, sentinel: string, a: seq<Row>, b: seq<Row>)
    requires k < |tables| && tables[k] == t && t.rows == a + b
    requires Complete(tables, k)
    ensures SecondCells(a).Some? && SecondCells(b).Some?
    ensures Column(tables, k, sentinel).value
      == Without(Pieces(SecondCells(a).value), sentinel) + Without(Pieces(SecondCells(b).value), sentinel)
  {
    var all := SecondCells(a + b).value;
    assert forall j :: 0 <= j < |a| ==> a[j] == (a + b)[j];
    assert forall j :: 0 <= j < |b| ==> b[j] == (a + b)[|a| + j];
    var sa, sb := SecondCells(a).value, SecondCells(b).value;
    assert all == sa + sb;
    PiecesAppend(sa, sb);
    WithoutAppend(Pieces(sa), Pieces(sb), sentinel);
  }

  /** What `parseHTMLVote` needs to succeed: four descendant tables, and a
      second cell in every row of the three result tables. */
  predicate WellFormed(box: TableElement) {
    |box.tables| >= 4 && Complete(box.tables, 1) && Complete(box.tables, 2) && Complete(box.tables, 3)
  }

  /** The identifier of a vote: the first anchor of the title table, or the
      identifier found in the title. */
  function VoteId(title: Table, titleText: string): (r: string)
    ensures |title.anchors| > 0 ==> r == title.anchors[0]
    ensures |title.anchors| == 0 && r == "" ==> forall j :: ProposalId.NoIdAt(titleText, j)
    ensures |title.anchors| == 0 && r != "" ==>
      exists i :: ProposalId.LeftmostIdAt(titleText, i, |r|) && r == titleText[i..i + |r|]
  {
    if |title.anchors| == 0 then ProposalId.IdFromTitle(titleText) else title.anchors[0]
  }

  /** The three name lists of a vote box (src/votes.ts:131-150), read in
      source order, so the error reports the first thing missing. */
  function Lists(tables: seq<Table>): (r: Result<(seq<string>, seq<string>, seq<string>), ParseError>)
    ensures r.Success? <==> Complete(tables, 1) && Complete(tables, 2) && Complete(tables, 3)
    ensures r.Failure? && r.error.MissingTable? ==>
      |tables| <= r.error.index && forall k :: 1 <= k < r.error.index ==> Complete(tables, k)
    ensures r.Failure? && r.error.MissingCell? ==>
      !Complete(tables, r.error.table) && r.error.table < |tables|
      && forall k :: 1 <= k < r.error.table ==> Complete(tables, k)
    ensures r.Success? ==>
      && Column(tables, 1, PositiveSentinel) == Success(r.value.0)
      && Column(tables, 2, NegativeSentinel) == Success(r.value.1)
      && Column(tables, 3, AbstentionSentinel) == Success(r.value.2)
  {
    match Column(tables, 1, PositiveSentinel)
    case Failure(e) => Failure(e)
    case Success(positive) =>
      match Column(tables, 2, NegativeSentinel)
      case Failure(e) => Failure(e)
      case Success(negative) =>
        match Column(tables, 3, AbstentionSentinel)
        case Failure(e) => Failure(e)
        case Success(abstention) => Success((positive, negative, abstention))
  }

  /** `parseHTMLVote` (src/votes.ts:118-161). */
  function ParseVote(box: TableElement): (r: Result<Vote, ParseError>)
    ensures r.Success? <==> WellFormed(box)
    ensures r.Failure? && r.error.MissingTable? ==>
      |box.tables| <= r.error.index && forall k :: 1 <= k < r.error.index ==> Complete(box.tables, k)
    ensures r.Failure? && r.error.MissingCell? ==>
      !Complete(box.tables, r.error.table) && r.error.table < |box.tables|
      && forall k :: 1 <= k < r.error.table ==> Complete(box.tables, k)
    ensures r.Success? ==> r.value.title == Concat(box.tables[0].spans)
    ensures r.Success? ==> r.value.proposalId == VoteId(box.tables[0], r.value.title)
    ensures r.Success? ==>
      && Column(box.tables, 1, PositiveSentinel) == Success(r.value.positive)
      && Column(box.tables, 2, NegativeSentinel) == Success(r.value.negative)
      && Column(box.tables, 3, AbstentionSentinel) == Success(r.value.abstention)
    ensures r.Success? ==>
      && PositiveSentinel !in r.value.positive
      && NegativeSentinel !in r.value.negative
      && AbstentionSentinel !in r.value.abstention
  {
    var tables := box.tables;
    if |tables| == 0 then Failure(MissingTable(0))
    else
      var title := Concat(tables[0].spans);
      match Lists(tables)
      case Failure(e) => Failure(e)
      case Success(lists) => Success(Vote(VoteId(tables[0], title), title, lists.0, lists.1, lists.2))
  }

  /** A box with exactly four tables, where each result table has one row naming
      one member, yields one name per list (with the sentinels, nothing). */
  lemma ParseVoteOneNameEach(title: Table, yes: string, no: string, abstain: string)
    requires ',' !in yes && ',' !in no && ',' !in abstain
    requires Trim(yes) != "+" && Trim(no) != "-" && Trim(abstain) != "0"
    ensures
      var t := [title, Table([], [], [Row(["", yes])]), Table([], [], [Row(["", no])]),
                Table([], [], [Row(["", abstain])])];
      var r := ParseVote(TableElement(Some(VoteBoxClass), t));
      r.Success? && r.value.positive == [Trim(yes)] && r.value.negative == [Trim(no)]
      && r.value.abstention == [Trim(abstain)]
  {
    var t := [title, Table([], [], [Row(["", yes])]), Table([], [], [Row(["", no])]),
              Table([], [], [Row(["", abstain])])];
    ColumnOneRow(t, 1, yes, PositiveSentinel);
    ColumnOneRow(t, 2, no, NegativeSentinel);
    ColumnOneRow(t, 3, abstain, AbstentionSentinel);
  }

  /** A result table with one row whose second cell names one member. */
  lemma ColumnOneRow(tables: seq<Table>, k: nat, cell: string, sentinel: string)
    requires k < |tables| && |tables[k].rows| == 1 && |tables[k].rows[0].cells| == 2
    requires tables[k].rows[0].cells[1] == cell
    requires ',' !in cell && Trim(cell) != sentinel
    ensures Column(tables, k, sentinel) == Success([Trim(cell)])
  {
    SecondCellsOne(tables[k].rows);
    PiecesOfOneName(cell);
    WithoutOne(Trim(cell), sentinel);
  }

  lemma SecondCellsOne(rows: seq<Row>)
    requires |rows| == 1 && |rows[0].cells| >= 2
    ensures SecondCells(rows) == Some([rows[0].cells[1]])
  {
    var rest := SecondCells(rows[1..]);
    assert rest.Some? && |rest.value| == 0;
    assert [rows[0].cells[1]] + rest.value == [rows[0].cells[1]];
  }

  lemma WithoutOne(x: string, sentinel: string)
    requires x != sentinel
    ensures Without([x], sentinel) == [x]
  {
    assert [x][1..] == [];
  }

  const DocumentsEndpoint := "https://data.europarl.europa.eu/api/v1/documents"
  const InvalidLimit := "Invalid limit"
  const InvalidId := "Invalid id"

  /** The endpoint does not end with a question mark, so one is appended. */
  lemma DocumentsEndpointMarked()
    ensures WithQueryMark(DocumentsEndpoint) == DocumentsEndpoint + "?"
  {
    assert DocumentsEndpoint == "https://data.europarl.europa.eu/api/v1/document" + ['s'];
    WithQueryMarkAppends("https://data.europarl.europa.eu/api/v1/document", 's');
  }

  /** `getProposalVoteList` up to the request (src/votes.ts:20-30): an
      undefined, null or negative limit is refused, any other gives the query
      for plenary roll-call documents from offset 0. */
  function ProposalListRequest(limit: Nullable<real>): (r: Result<Query, string>)
    ensures r.Failure? <==> limit.Undefined? || limit.Null? || (limit.Defined? && limit.value < 0.0)
    ensures r.Failure? ==> r.error == InvalidLimit
    ensures r.Success? ==> r.value.base == DocumentsEndpoint + "?"
    ensures r.Success? ==>
      r.value.entries == [("work-type", Text("PLENARY_RCV_EP")), ("offset", Num(0.0)), ("limit", Num(limit.value))]
  {
    if limit.Undefined? || limit.Null? || limit.value < 0.0 then Failure(InvalidLimit)
    else
      var params := [
        ("work-type", Defined(Text("PLENARY_RCV_EP"))),
        ("offset", Defined(Num(0.0))),
        ("limit", Defined(Num(limit.value)))];
      DocumentsEndpointMarked();
      var q := PrepareQuery(DocumentsEndpoint, params);
      assert q.Success? by {
        forall i | 0 <= i < |params|
          ensures IsAccepted(params[i].1)
        {
        }
      }
      q
  }

  /** src/votes.test.ts:80-84: -1, null and undefined are refused; 0 is a valid limit. */
  lemma ProposalListRequestExamples()
    ensures ProposalListRequest(Defined(-1.0)) == Failure(InvalidLimit)
    ensures ProposalListRequest(Null) == Failure(InvalidLimit)
    ensures ProposalListRequest(Undefined) == Failure(InvalidLimit)
    ensures ProposalListRequest(Defined(0.0)).Success?
  {
  }

  /** `getVotesFromRCV` up to the request (src/votes.ts:43-47): an undefined,
      null or empty id is refused, any other gives the document's page. */
  function RcvRequest(id: Nullable<string>): (r: Result<string, string>)
    ensures r.Failure? <==> id.Undefined? || id.Null? || (id.Defined? && id.value == "")
    ensures r.Failure? ==> r.error == InvalidId
    ensures r.Success? ==>
      |r.value| >= |Document.UrlPrefix| + |Document.UrlSuffix| && Document.IdOfUrl(r.value) == id.value
    ensures r.Success? ==>
      StartsWith(r.value, Document.UrlPrefix) && EndsWith(r.value, Document.UrlSuffix)
  {
    if id.Undefined? || id.Null? || id.value == "" then Failure(InvalidId)
    else
      Document.DocumentUrlRoundTrip(id.value);
      Success(Document.DocumentUrl(id.value))
  }

  /** src/votes.test.ts:102-106. */
  lemma RcvRequestExamples()
    ensures RcvRequest(Defined("")) == Failure(InvalidId)
    ensures RcvRequest(Undefined) == Failure(InvalidId)
    ensures RcvRequest(Null) == Failure(InvalidId)
    ensures RcvRequest(Defined("A-9-2023-0288")).Success?
  {
  }
}
