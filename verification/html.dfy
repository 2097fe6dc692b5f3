/** An abstract view of the roll-call-vote page. The model replaces the HTML
    parser by the information `getElementsByTagName` and `structuredText`
    deliver: every `<table>` of the page in document order, with its `class`
    attribute and, for the vote boxes, the tables below it. */
module Html {
  import opened Wrappers

  /** A `<tr>`: the structured text of each of its `<td>` descendants, in document order. */
  datatype Row = Row(cells: seq<string>)

  /** A `<table>` inside a vote box: the texts of its `<span>` and `<a>`
      descendants and its `<tr>` descendants, each in document order. */
  datatype Table = Table(spans: seq<string>, anchors: seq<string>, rows: seq<Row>)

  /** A `<table>` of the page: its `class` attribute (`className`, `None` when absent) and
      its `<table>` descendants in document order. */
  datatype TableElement = TableElement(className: Option<string>, tables: seq<Table>)

  /** All `<table>` elements of a page, in document order. */
  type Page = seq<TableElement>

  const VoteBoxClass := "doc_box_header"

  /** The attribute must equal the class name exactly: a table carrying a
      second class as well is not a vote box. */
  predicate IsVoteBox(e: TableElement): (r: bool)
    ensures r ==> e.className.Some? && ' ' !in e.className.value
  {
    e.className == Some(VoteBoxClass)
  }

  /** `parseStringToHTMLArray` (src/votes.ts:111-116): the vote boxes of the
      page, in document order. */
  function VoteBoxes(page: Page): (r: seq<TableElement>)
    ensures |r| <= |page|
    ensures forall k :: 0 <= k < |r| ==> IsVoteBox(r[k])
    ensures forall e :: multiset(r)[e] == if IsVoteBox(e) then multiset(page)[e] else 0
  {
    if |page| == 0 then []
    else
      var rest := VoteBoxes(page[1..]);
      assert page == [page[0]] + page[1..];
      if IsVoteBox(page[0]) then [page[0]] + rest else rest
  }

  /** Extraction keeps document order: the boxes of a concatenation are the
      boxes of the first part followed by those of the second. */
  lemma {:induction false} VoteBoxesAppend(a: Page, b: Page)
    ensures VoteBoxes(a + b) == VoteBoxes(a) + VoteBoxes(b)
  {
    if |a| == 0 {
      assert a + b == b;
    } else {
      var ab := a + b;
      assert ab[0] == a[0];
      assert ab[1..] == a[1..] + b;
      VoteBoxesAppend(a[1..], b);
      if IsVoteBox(a[0]) {
        calc {
          VoteBoxes(ab);
          [a[0]] + VoteBoxes(a[1..] + b);
          [a[0]] + (VoteBoxes(a[1..]) + VoteBoxes(b));
          ([a[0]] + VoteBoxes(a[1..])) + VoteBoxes(b);
        }
      }
    }
  }

  /** A page without vote boxes, the empty page included, yields no blocks
      (src/votes.test.ts:9-12). */
  lemma {:induction false} NoVoteBoxesNoBlocks(page: Page)
    requires forall k :: 0 <= k < |page| ==> !IsVoteBox(page[k])
    ensures VoteBoxes(page) == []
  {
    if |page| > 0 {
      NoVoteBoxesNoBlocks(page[1..]);
    }
  }

  /** Whether a single table is kept depends on the exact class string only. */
  lemma SingleTable(e: TableElement)
    ensures VoteBoxes([e]) == (if e.className == Some("doc_box_header") then [e] else [])
  {
    assert [e][1..] == [];
  }
}
