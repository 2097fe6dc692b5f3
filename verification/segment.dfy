/** `parseHTMLToProposalVoteArray` (src/votes.ts:60-109): the vote boxes of a
    page are parsed one by one, boxes that fail to parse are skipped, and the
    votes are grouped into proposals by the first-seen proposal identifier.

    The model keeps the code's behaviour exactly, including its final step
    (src/votes.ts:107): the proposal still open at the end is pushed without
    the votes collected for it, so the last proposal always has no votes and
    `finalVote` 0, and its votes appear nowhere in the output. */
module Segment {
  import opened Wrappers
  import opened Html
  import opened Votes

  /** src/votes.ts:13-18. */
  datatype Proposal = Proposal(id: string, title: string, votes: seq<Vote>, finalVote: int)

  /** The proposal the loop starts with (src/votes.ts:65-70). */
  const Placeholder := Proposal("", "", [], 0)

  /** The proposal a vote opens (src/votes.ts:81-86, 96-101). */
  function Opened(v: Vote): Proposal {
    Proposal(v.proposalId, v.title, [], 0)
  }

  /** The loop variables: `allVotes`, `seenVotes`, `votes` and `proposal`. */
  datatype State = State(done: seq<Proposal>, seen: seq<string>, pending: seq<Vote>, open: Proposal)

  const Initial := State([], [], [], Placeholder)

  /** One iteration for a vote that parsed (src/votes.ts:80-105). */
  function Step(st: State, v: Vote): State {
    var st1 :=
      if |st.seen| == 0 then st.(open := Opened(v), seen := [v.proposalId])
      else st;
    var st2 :=
      if v.proposalId !in st1.seen then
        State(
          st1.done + [st1.open.(votes := st1.pending, finalVote := |st1.pending| - 1)],
          st1.seen + [v.proposalId],
          [],
          Opened(v))
      else st1;
    st2.(pending := st2.pending + [v])
  }

  /** The state after the loop has seen the votes `vs`, in order. */
  function Fold(vs: seq<Vote>): State {
    if |vs| == 0 then Initial else Step(Fold(vs[..|vs| - 1]), vs[|vs| - 1])
  }

  /** The final push (src/votes.ts:107). */
  function Finish(st: State): seq<Proposal> {
    st.done + [st.open]
  }

  /** The votes that parse, in page order; the others are skipped (src/votes.ts:73-78). */
  function ParsedVotes(boxes: seq<TableElement>): seq<Vote> {
    if |boxes| == 0 then []
    else
      var init := ParsedVotes(boxes[..|boxes| - 1]);
      match ParseVote(boxes[|boxes| - 1])
      case Success(v) => init + [v]
      case Failure(_) => init
  }

  // The reference definition of the output.

  /** Index `i` holds the first vote with its identifier. */
  predicate Fresh(vs: seq<Vote>, i: int) {
    0 <= i < |vs| && forall j :: 0 <= j < i ==> vs[j].proposalId != vs[i].proposalId
  }

  /** Whether an index is fresh depends only on the votes up to it. */
  lemma FreshPrefix(vs: seq<Vote>, n: nat, i: int)
    requires n <= |vs| && i < n
    ensures Fresh(vs[..n], i) <==> Fresh(vs, i)
  {
  }

  /** The fresh indices of `vs`, in increasing order. */
  function FirstIndices(vs: seq<Vote>): (r: seq<nat>)
    ensures forall k :: 0 <= k < |r| ==> r[k] < |vs|
    ensures forall k, l :: 0 <= k < l < |r| ==> r[k] < r[l]
    ensures forall i :: i in r <==> Fresh(vs, i)
    ensures |vs| > 0 ==> |r| > 0 && r[0] == 0
  {
    if |vs| == 0 then []
    else
      var n := |vs| - 1;
      var r := FirstIndices(vs[..n]);
      forall i | 0 <= i < n
        ensures Fresh(vs[..n], i) <==> Fresh(vs, i)
      {
        FreshPrefix(vs, n, i);
      }
      if Fresh(vs, n) then r + [n] else r
  }

  /** The `k`-th proposal, for every proposal but the last: the votes from
      the `k`-th fresh index up to the next one. */
  predicate Closed(vs: seq<Vote>, f: seq<nat>, k: int, p: Proposal)
    requires 0 <= k < |f| - 1 && forall m :: 0 <= m < |f| ==> f[m] < |vs|
    requires f[k] < f[k + 1]
  {
    p == Proposal(vs[f[k]].proposalId, vs[f[k]].title, vs[f[k]..f[k + 1]], f[k + 1] - f[k] - 1)
  }

  /** What the code returns for the parsed votes `vs`: one proposal per
      distinct identifier in first-appearance order, each closed proposal
      holding the votes up to the next new identifier, and the last one
      without votes; a single placeholder when no vote parsed. */
  predicate Segmented(vs: seq<Vote>, out: seq<Proposal>) {
    var f := FirstIndices(vs);
    if |f| == 0 then out == [Placeholder]
    else
      && |out| == |f|
      && (forall k :: 0 <= k < |f| - 1 ==> Closed(vs, f, k, out[k]))
      && out[|f| - 1] == Opened(vs[f[|f| - 1]])
  }

  /** The loop invariant: after the votes `vs`, `allVotes` holds a closed
      proposal for every fresh index but the last, `seenVotes` the
      identifiers at the fresh indices, and `votes` everything from the last
      fresh index on. */
  predicate Inv(vs: seq<Vote>, st: State) {
    if |vs| == 0 then st == Initial else Parts(vs, st, FirstIndices(vs))
  }

  /** A non-empty increasing sequence of indices into `vs`. */
  predicate Indices(vs: seq<Vote>, f: seq<nat>) {
    && |f| > 0
    && (forall m :: 0 <= m < |f| ==> f[m] < |vs|)
    && (forall k, l :: 0 <= k < l < |f| ==> f[k] < f[l])
  }

  /** The invariant for a given sequence `f` of proposal starts. */
  predicate Parts(vs: seq<Vote>, st: State, f: seq<nat>)
    requires Indices(vs, f)
  {
    && |st.done| == |f| - 1
    && (forall k :: 0 <= k < |f| - 1 ==> Closed(vs, f, k, st.done[k]))
    && |st.seen| == |f|
    && (forall k :: 0 <= k < |f| ==> st.seen[k] == vs[f[k]].proposalId)
    && st.open == Opened(vs[f[|f| - 1]])
    && st.pending == vs[f[|f| - 1]..]
  }

  /** Every vote shares its identifier with the vote at some fresh index at or before it. */
  lemma {:induction false} HasFirst(vs: seq<Vote>, j: int)
    requires 0 <= j < |vs|
    ensures exists k ::
      (0 <= k < |FirstIndices(vs)| && FirstIndices(vs)[k] <= j
       && vs[FirstIndices(vs)[k]].proposalId == vs[j].proposalId)
    decreases j
  {
    var f := FirstIndices(vs);
    if Fresh(vs, j) {
      assert j in f;
      var k :| 0 <= k < |f| && f[k] == j;
    } else {
      var j' :| 0 <= j' < j && vs[j'].proposalId == vs[j].proposalId;
      HasFirst(vs, j');
    }
  }

  /** Under the invariant, a vote's identifier is in `seenVotes` exactly when
      the vote is not the first with that identifier. */
  lemma SeenIffNotFresh(vs: seq<Vote>, st: State, v: Vote)
    requires |vs| > 0 && Inv(vs, st)
    ensures v.proposalId in st.seen <==> !Fresh(vs + [v], |vs|)
  {
    var f := FirstIndices(vs);
    var ws := vs + [v];
    if v.proposalId in st.seen {
      var k :| 0 <= k < |st.seen| && st.seen[k] == v.proposalId;
      assert ws[f[k]] == vs[f[k]];
    } else {
      forall j | 0 <= j < |vs|
        ensures ws[j].proposalId != ws[|vs|].proposalId
      {
        HasFirst(vs, j);
        var k :| 0 <= k < |f| && f[k] <= j && vs[f[k]].proposalId == vs[j].proposalId;
        assert st.seen[k] == vs[j].proposalId;
      }
    }
  }

  /** The fresh indices after one more vote. */
  lemma FirstIndicesSnoc(vs: seq<Vote>, v: Vote)
    ensures FirstIndices(vs + [v])
      == FirstIndices(vs) + (if Fresh(vs + [v], |vs|) then [|vs|] else [])
  {
    assert (vs + [v])[..|vs|] == vs;
  }

  /** The first vote opens the first proposal. */
  lemma StepFirst(v: Vote)
    ensures Inv([v], Step(Initial, v))
  {
    assert Fresh([v], 0);
    FirstIndicesSnoc([], v);
    assert [] + [v] == [v];
    assert FirstIndices([v]) == [0];
  }

  /** A vote with an identifier already seen joins the open proposal. */
  lemma StepKnown(vs: seq<Vote>, st: State, v: Vote)
    requires |vs| > 0 && Inv(vs, st) && v.proposalId in st.seen
    ensures Inv(vs + [v], Step(st, v))
  {
    SeenIffNotFresh(vs, st, v);
    FirstIndicesSnoc(vs, v);
    StepKnownParts(vs, st, v, FirstIndices(vs));
  }

  lemma StepKnownParts(vs: seq<Vote>, st: State, v: Vote, f: seq<nat>)
    requires Indices(vs, f) && Parts(vs, st, f) && v.proposalId in st.seen
    ensures Indices(vs + [v], f) && Parts(vs + [v], Step(st, v), f)
  {
    var ws := vs + [v];
    assert Step(st, v) == st.(pending := st.pending + [v]);
    ClosedSnoc(vs, v, f, st.done);
    var last := f[|f| - 1];
    assert ws[last..] == vs[last..] + [v];
  }

  /** A vote with a new identifier closes the open proposal and opens its own. */
  lemma StepNew(vs: seq<Vote>, st: State, v: Vote)
    requires |vs| > 0 && Inv(vs, st) && v.proposalId !in st.seen
    ensures Inv(vs + [v], Step(st, v))
  {
    SeenIffNotFresh(vs, st, v);
    FirstIndicesSnoc(vs, v);
    StepNewParts(vs, st, v, FirstIndices(vs));
  }

  lemma StepNewParts(vs: seq<Vote>, st: State, v: Vote, f: seq<nat>)
    requires Indices(vs, f) && Parts(vs, st, f) && v.proposalId !in st.seen
    ensures Indices(vs + [v], f + [|vs|]) && Parts(vs + [v], Step(st, v), f + [|vs|])
  {
    var ws := vs + [v];
    var g := f + [|vs|];
    var closing := st.open.(votes := st.pending, finalVote := |st.pending| - 1);
    var st' := State(st.done + [closing], st.seen + [v.proposalId], [v], Opened(v));
    assert Step(st, v) == st';
    ClosedSnoc(vs, v, f, st.done);
    ClosedLast(vs, v, f, g, st.done, closing);
    SeenSnoc(vs, v, f, st.seen);
    assert ws[|vs|..] == [v];
  }

  /** The identifiers at the fresh indices, after a vote with a new identifier. */
  lemma SeenSnoc(vs: seq<Vote>, v: Vote, f: seq<nat>, seen: seq<string>)
    requires |seen| == |f| && forall m :: 0 <= m < |f| ==> f[m] < |vs|
    requires forall k :: 0 <= k < |f| ==> seen[k] == vs[f[k]].proposalId
    ensures forall k :: 0 <= k < |f| + 1 ==> (seen + [v.proposalId])[k] == (vs + [v])[(f + [|vs|])[k]].proposalId
  {
  }

  /** The closed proposals stay closed when a vote is appended. */
  lemma ClosedSnoc(vs: seq<Vote>, v: Vote, f: seq<nat>, done: seq<Proposal>)
    requires |done| == |f| - 1
    requires forall m :: 0 <= m < |f| ==> f[m] < |vs|
    requires forall k, l :: 0 <= k < l < |f| ==> f[k] < f[l]
    requires forall k :: 0 <= k < |f| - 1 ==> Closed(vs, f, k, done[k])
    ensures forall k :: 0 <= k < |f| - 1 ==> Closed(vs + [v], f, k, done[k])
  {
    forall k | 0 <= k < |f| - 1
      ensures Closed(vs + [v], f, k, done[k])
    {
      assert (vs + [v])[f[k]..f[k + 1]] == vs[f[k]..f[k + 1]];
    }
  }

  /** With a new fresh index at the end, the proposal that was open becomes
      the last closed one, and the earlier ones stay closed. */
  lemma ClosedLast(vs: seq<Vote>, v: Vote, f: seq<nat>, g: seq<nat>, done: seq<Proposal>, closing: Proposal)
    requires |f| > 0 && |done| == |f| - 1 && g == f + [|vs|]
    requires forall m :: 0 <= m < |f| ==> f[m] < |vs|
    requires forall k, l :: 0 <= k < l < |f| ==> f[k] < f[l]
    requires forall k :: 0 <= k < |f| - 1 ==> Closed(vs + [v], f, k, done[k])
    requires closing == Proposal(vs[f[|f| - 1]].proposalId, vs[f[|f| - 1]].title,
                                 vs[f[|f| - 1]..], |vs| - f[|f| - 1] - 1)
    ensures forall k :: 0 <= k < |g| - 1 ==> Closed(vs + [v], g, k, (done + [closing])[k])
  {
    var ws := vs + [v];
    var last := f[|f| - 1];
    forall k | 0 <= k < |g| - 1
      ensures Closed(ws, g, k, (done + [closing])[k])
    {
      if k < |f| - 1 {
        assert Closed(ws, f, k, done[k]);
      } else {
        assert ws[last..|vs|] == vs[last..];
      }
    }
  }

  lemma StepInv(vs: seq<Vote>, st: State, v: Vote)
    requires Inv(vs, st)
    ensures Inv(vs + [v], Step(st, v))
  {
    if |vs| == 0 {
      assert vs + [v] == [v];
      StepFirst(v);
    } else if v.proposalId in st.seen {
      StepKnown(vs, st, v);
    } else {
      StepNew(vs, st, v);
    }
  }

  /** The loop keeps its invariant. */
  lemma {:induction false} FoldInv(vs: seq<Vote>)
    ensures Inv(vs, Fold(vs))
  {
    if |vs| > 0 {
      var init := vs[..|vs| - 1];
      FoldInv(init);
      assert init + [vs[|vs| - 1]] == vs;
      StepInvAt(init, Fold(init), vs[|vs| - 1], vs);
    }
  }

  /** `StepInv` with the extended sequence given by name. */
  lemma StepInvAt(vs: seq<Vote>, st: State, v: Vote, ws: seq<Vote>)
    requires Inv(vs, st) && ws == vs + [v]
    ensures Inv(ws, Step(st, v))
  {
    StepInv(vs, st, v);
  }

  /** The segmenter computes the reference output. */
  lemma SegmenterCorrect(vs: seq<Vote>)
    ensures Segmented(vs, Finish(Fold(vs)))
  {
    FoldInv(vs);
  }

  /** The reference definition leaves no freedom: at most one output satisfies it. */
  lemma SegmentedUnique(vs: seq<Vote>, a: seq<Proposal>, b: seq<Proposal>)
    requires Segmented(vs, a) && Segmented(vs, b)
    ensures a == b
  {
    var f := FirstIndices(vs);
    if |f| > 0 {
      forall k | 0 <= k < |a|
        ensures a[k] == b[k]
      {
        if k < |f| - 1 {
          assert Closed(vs, f, k, a[k]) && Closed(vs, f, k, b[k]);
        }
      }
    }
  }

  /** `parseHTMLToProposalVoteArray` on a parsed page, written as the loop of
      src/votes.ts:72-107 with the same variables. */
  method ParseHtmlToProposalVoteArray(page: Page) returns (allVotes: seq<Proposal>)
    ensures Segmented(ParsedVotes(VoteBoxes(page)), allVotes)
  {
    var htmlVotes := VoteBoxes(page);
    allVotes := [];
    var seenVotes: seq<string> := [];
    var votes: seq<Vote> := [];
    var proposal := Placeholder;
    var i := 0;
    ghost var parsedSoFar: seq<Vote> := [];
    while i < |htmlVotes|
      invariant 0 <= i <= |htmlVotes|
      invariant parsedSoFar == ParsedVotes(htmlVotes[..i])
      invariant State(allVotes, seenVotes, votes, proposal) == Fold(parsedSoFar)
    {
      ParsedVotesNext(htmlVotes, i);
      var parsed := ParseVote(htmlVotes[i]);
      if parsed.Failure? {
        i := i + 1;
        continue;
      }
      var vote := parsed.value;
      allVotes, seenVotes, votes, proposal := AddVote(allVotes, seenVotes, votes, proposal, vote, parsedSoFar);
      parsedSoFar := parsedSoFar + [vote];
      i := i + 1;
    }
    assert htmlVotes[..i] == htmlVotes;
    allVotes := allVotes + [proposal];
    SegmenterCorrect(parsedSoFar);
  }

  /** One iteration of the loop for a vote that parsed (src/votes.ts:80-105),
      on the loop variables. When the variables are those reached after the
      votes `vs`, afterwards they are those reached after `vs + [vote]`, and
      they meet the invariant for `vs + [vote]`: closed proposals, first-seen
      identifiers, the open proposal and its collected votes all agree with
      the reference grouping of those votes. */
  method AddVote(allVotes: seq<Proposal>, seenVotes: seq<string>, votes: seq<Vote>, proposal: Proposal, vote: Vote,
                 ghost vs: seq<Vote>)
    returns (allVotes': seq<Proposal>, seenVotes': seq<string>, votes': seq<Vote>, proposal': Proposal)
    requires State(allVotes, seenVotes, votes, proposal) == Fold(vs)
    ensures Inv(vs + [vote], State(allVotes', seenVotes', votes', proposal'))
    ensures State(allVotes', seenVotes', votes', proposal') == Fold(vs + [vote])
  {
    allVotes', seenVotes', votes', proposal' := allVotes, seenVotes, votes, proposal;
    if |seenVotes'| == 0 {
      proposal' := Opened(vote);
      seenVotes' := seenVotes' + [vote.proposalId];
    }
    if vote.proposalId !in seenVotes' {
      proposal' := proposal'.(votes := votes', finalVote := |votes'| - 1);
      allVotes' := allVotes' + [proposal'];
      seenVotes' := seenVotes' + [vote.proposalId];
      proposal' := Opened(vote);
      votes' := [];
    }
    votes' := votes' + [vote];
    assert State(allVotes', seenVotes', votes', proposal') == Step(State(allVotes, seenVotes, votes, proposal), vote);
    StepFromFold(vs, vote);
  }

  /** A step from the fold of `vs` is the fold of `vs + [v]`, which meets the invariant. */
  lemma StepFromFold(vs: seq<Vote>, v: Vote)
    ensures Step(Fold(vs), v) == Fold(vs + [v])
    ensures Inv(vs + [v], Fold(vs + [v]))
  {
    FoldNext(vs, v);
    FoldInv(vs + [v]);
  }

  /** One more box: its vote is appended if it parses. */
  lemma ParsedVotesNext(boxes: seq<TableElement>, i: int)
    requires 0 <= i < |boxes|
    ensures ParsedVotes(boxes[..i + 1]) == ParsedVotes(boxes[..i])
      + (if ParseVote(boxes[i]).Success? then [ParseVote(boxes[i]).value] else [])
  {
    assert boxes[..i + 1][..i] == boxes[..i];
  }

  /** One more vote: one more step. */
  lemma FoldNext(vs: seq<Vote>, v: Vote)
    ensures Fold(vs + [v]) == Step(Fold(vs), v)
  {
    assert (vs + [v])[..|vs|] == vs;
  }

  // Consequences of the reference definition.

  /** The proposal identifiers are pairwise distinct. */
  lemma IdsDistinct(vs: seq<Vote>, out: seq<Proposal>, k: int, l: int)
    requires Segmented(vs, out) && 0 <= k < l < |out|
    ensures out[k].id != out[l].id
  {
    var f := FirstIndices(vs);
    assert f[l] in f;
    assert Fresh(vs, f[l]);
    if l == |f| - 1 {
      assert out[l].id == vs[f[l]].proposalId;
    } else {
      assert Closed(vs, f, l, out[l]);
    }
    assert Closed(vs, f, k, out[k]);
  }

  /** The identifiers are exactly those of the parsed votes. */
  lemma IdsAreVoteIds(vs: seq<Vote>, out: seq<Proposal>)
    requires Segmented(vs, out) && |vs| > 0
    ensures forall k :: 0 <= k < |out| ==> exists i :: 0 <= i < |vs| && out[k].id == vs[i].proposalId
    ensures forall i :: 0 <= i < |vs| ==> exists k :: 0 <= k < |out| && out[k].id == vs[i].proposalId
  {
    var f := FirstIndices(vs);
    forall k | 0 <= k < |out|
      ensures out[k].id == vs[f[k]].proposalId
    {
      if k < |f| - 1 {
        assert Closed(vs, f, k, out[k]);
      }
    }
    forall i | 0 <= i < |vs|
      ensures exists k :: 0 <= k < |out| && out[k].id == vs[i].proposalId
    {
      HasFirst(vs, i);
    }
  }

  /** Every proposal but the last holds at least one vote and points
      `finalVote` at its last vote; the last holds none and has `finalVote` 0. */
  lemma ProposalShapes(vs: seq<Vote>, out: seq<Proposal>)
    requires Segmented(vs, out)
    ensures |out| > 0
    ensures forall k :: 0 <= k < |out| - 1 ==>
      |out[k].votes| > 0 && out[k].finalVote == |out[k].votes| - 1
    ensures out[|out| - 1].votes == [] && out[|out| - 1].finalVote == 0
  {
    var f := FirstIndices(vs);
    forall k | 0 <= k < |out| - 1
      ensures |out[k].votes| > 0 && out[k].finalVote == |out[k].votes| - 1
    {
      assert Closed(vs, f, k, out[k]);
    }
  }

  /** `out[..k]`'s votes, concatenated. */
  function AllVotes(ps: seq<Proposal>): seq<Vote> {
    if |ps| == 0 then [] else AllVotes(ps[..|ps| - 1]) + ps[|ps| - 1].votes
  }

  /** Concatenating the votes of the output gives the parsed votes cut just
      before the first vote with the last new identifier: the last group's
      votes are lost. */
  lemma VotesKept(vs: seq<Vote>, out: seq<Proposal>)
    requires Segmented(vs, out) && |vs| > 0
    ensures AllVotes(out) == vs[..FirstIndices(vs)[|FirstIndices(vs)| - 1]]
  {
    var f := FirstIndices(vs);
    KeptUpTo(vs, out, |f| - 1);
    assert out[..|f|][..|f| - 1] == out[..|f| - 1];
    assert out[..|f|] == out;
  }

  lemma {:induction false} KeptUpTo(vs: seq<Vote>, out: seq<Proposal>, n: nat)
    requires Segmented(vs, out) && |vs| > 0 && n < |FirstIndices(vs)|
    ensures AllVotes(out[..n]) == vs[..FirstIndices(vs)[n]]
  {
    var f := FirstIndices(vs);
    if n == 0 {
      assert out[..0] == [];
    } else {
      KeptUpTo(vs, out, n - 1);
      AllVotesSnoc(out, n);
      assert out[n - 1].votes == vs[f[n - 1]..f[n]] by {
        assert Closed(vs, f, n - 1, out[n - 1]);
      }
      SliceJoin(vs, f[n - 1], f[n]);
    }
  }

  /** The votes of the first `n` proposals extend those of the first `n - 1`. */
  lemma AllVotesSnoc(ps: seq<Proposal>, n: nat)
    requires 0 < n <= |ps|
    ensures AllVotes(ps[..n]) == AllVotes(ps[..n - 1]) + ps[n - 1].votes
  {
    assert ps[..n][..n - 1] == ps[..n - 1];
  }

  lemma SliceJoin(vs: seq<Vote>, i: nat, j: nat)
    requires i <= j <= |vs|
    ensures vs[..i] + vs[i..j] == vs[..j]
  {
  }

  /** When no box parses (a page without vote boxes included), the output
      is the single placeholder. */
  lemma NothingParsed(boxes: seq<TableElement>, out: seq<Proposal>)
    requires forall k :: 0 <= k < |boxes| ==> ParseVote(boxes[k]).Failure?
    requires Segmented(ParsedVotes(boxes), out)
    ensures out == [Placeholder]
  {
    var vs := ParsedVotes(boxes);
    AllFailNoVotes(boxes);
    assert |FirstIndices(vs)| == 0;
  }

  lemma {:induction false} AllFailNoVotes(boxes: seq<TableElement>)
    requires forall k :: 0 <= k < |boxes| ==> ParseVote(boxes[k]).Failure?
    ensures ParsedVotes(boxes) == []
  {
    if |boxes| > 0 {
      AllFailNoVotes(boxes[..|boxes| - 1]);
    }
  }

  /** A box that fails to parse changes nothing. */
  lemma FailedBoxIgnored(boxes: seq<TableElement>, bad: TableElement)
    requires ParseVote(bad).Failure?
    ensures ParsedVotes(boxes + [bad]) == ParsedVotes(boxes)
  {
    assert (boxes + [bad])[..|boxes|] == boxes;
  }

  /** The three cases of one step. */
  lemma StepOnInitial(v: Vote)
    ensures Step(Initial, v) == State([], [v.proposalId], [v], Opened(v))
  {
  }

  lemma StepOnSeen(st: State, v: Vote)
    requires |st.seen| > 0 && v.proposalId in st.seen
    ensures Step(st, v) == st.(pending := st.pending + [v])
  {
  }

  lemma StepOnUnseen(st: State, v: Vote)
    requires |st.seen| > 0 && v.proposalId !in st.seen
    ensures Step(st, v) == State(
      st.done + [st.open.(votes := st.pending, finalVote := |st.pending| - 1)],
      st.seen + [v.proposalId], [v], Opened(v))
  {
  }

  /** Four votes folded one after the other. */
  lemma FoldFour(x1: Vote, x2: Vote, x3: Vote, x4: Vote)
    ensures Fold([x1, x2, x3, x4]) == Step(Step(Step(Step(Initial, x1), x2), x3), x4)
  {
    FoldThree(x1, x2, x3);
    FoldNext([x1, x2, x3], x4);
    assert [x1, x2, x3] + [x4] == [x1, x2, x3, x4];
  }

  lemma FoldThree(x1: Vote, x2: Vote, x3: Vote)
    ensures Fold([x1, x2, x3]) == Step(Step(Step(Initial, x1), x2), x3)
  {
    FoldTwo(x1, x2);
    FoldNext([x1, x2], x3);
    assert [x1, x2] + [x3] == [x1, x2, x3];
  }

  lemma FoldTwo(x1: Vote, x2: Vote)
    ensures Fold([x1, x2]) == Step(Step(Initial, x1), x2)
  {
    FoldNext([], x1);
    assert [] + [x1] == [x1];
    FoldNext([x1], x2);
    assert [x1] + [x2] == [x1, x2];
  }

  /** A vote that comes back to an earlier identifier is put into the open
      proposal, not into the one its identifier opened: for the identifiers
      A, B, A, C the second A vote is grouped under B, and the C vote is lost. */
  lemma RevisitJoinsOpenProposal(a1: Vote, b: Vote, a2: Vote, c: Vote)
    requires a1.proposalId == a2.proposalId
    requires a1.proposalId != b.proposalId && a1.proposalId != c.proposalId && b.proposalId != c.proposalId
    ensures Finish(Fold([a1, b, a2, c])) == [
      Proposal(a1.proposalId, a1.title, [a1], 0),
      Proposal(b.proposalId, b.title, [b, a2], 1),
      Opened(c)]
  {
    FoldFour(a1, b, a2, c);
    RevisitSteps(a1, b, a2, c);
  }

  lemma RevisitSteps(a1: Vote, b: Vote, a2: Vote, c: Vote)
    requires a1.proposalId == a2.proposalId
    requires a1.proposalId != b.proposalId && a1.proposalId != c.proposalId && b.proposalId != c.proposalId
    ensures Finish(Step(Step(Step(Step(Initial, a1), b), a2), c)) == [
      Proposal(a1.proposalId, a1.title, [a1], 0),
      Proposal(b.proposalId, b.title, [b, a2], 1),
      Opened(c)]
  {
    var a := a1.proposalId;
    StepOnInitial(a1);
    var s1 := State([], [a], [a1], Opened(a1));
    StepOnUnseen(s1, b);
    var s2 := State([Proposal(a, a1.title, [a1], 0)], [a, b.proposalId], [b], Opened(b));
    StepOnSeen(s2, a2);
    assert [b] + [a2] == [b, a2];
    var s3 := s2.(pending := [b, a2]);
    StepOnUnseen(s3, c);
  }

  /** Two votes on A then two on B: B's votes are not reported. */
  lemma TwoPairs(a1: Vote, a2: Vote, b1: Vote, b2: Vote)
    requires a1.proposalId == a2.proposalId && b1.proposalId == b2.proposalId
    requires a1.proposalId != b1.proposalId
    ensures Finish(Fold([a1, a2, b1, b2])) == [
      Proposal(a1.proposalId, a1.title, [a1, a2], 1),
      Opened(b1)]
  {
    FoldFour(a1, a2, b1, b2);
    TwoPairsSteps(a1, a2, b1, b2);
  }

  lemma TwoPairsSteps(a1: Vote, a2: Vote, b1: Vote, b2: Vote)
    requires a1.proposalId == a2.proposalId && b1.proposalId == b2.proposalId
    requires a1.proposalId != b1.proposalId
    ensures Finish(Step(Step(Step(Step(Initial, a1), a2), b1), b2)) == [
      Proposal(a1.proposalId, a1.title, [a1, a2], 1),
      Opened(b1)]
  {
    var a := a1.proposalId;
    StepOnInitial(a1);
    var s1 := State([], [a], [a1], Opened(a1));
    StepOnSeen(s1, a2);
    assert [a1] + [a2] == [a1, a2];
    var s2 := s1.(pending := [a1, a2]);
    StepOnUnseen(s2, b1);
    var s3 := State([Proposal(a, a1.title, [a1, a2], 1)], [a, b1.proposalId], [b1], Opened(b1));
    StepOnSeen(s3, b2);
  }
}
