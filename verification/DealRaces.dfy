/**
 * Several requests dealing the same student the same exam at once.
 *
 * Outside the exam machine, where a request is one step, a deal is a look at the student's rows, one
 * insert per problem and a final read, each committed by itself. Requests interleave statement by
 * statement; `draws` says what each one's shuffle picks. The rows start empty.
 */
module DealRaces {
  import opened Lists
  import opened ExamModel
  import ExamSafety

  type RequestId = int
  type Draws = RequestId -> seq<ProblemId>

  /** Dealing, with this many rows inserted; answered after dealing; or answered with rows it found. */
  datatype Stage = Dealing(inserted: nat) | Dealt(answer: set<ProblemId>) | Found(answer: set<ProblemId>)

  datatype Table = Table(rows: set<ProblemId>, requests: map<RequestId, Stage>)

  datatype Statement = Look(id: RequestId) | Insert(id: RequestId) | Settle(id: RequestId)

  const EMPTY := Table({}, map[])

  predicate IsDealing(s: Table, id: RequestId) {
    id in s.requests && s.requests[id].Dealing?
  }

  predicate HasDealt(s: Table, id: RequestId) {
    id in s.requests && !s.requests[id].Found?
  }

  predicate HasAnswered(s: Table, id: RequestId) {
    id in s.requests && !s.requests[id].Dealing?
  }

  predicate CanInsert(draws: Draws, s: Table, id: RequestId) {
    IsDealing(s, id) && s.requests[id].inserted < |draws(id)|
  }

  /** A row that is there already is left alone; a statement out of turn is none. */
  function Step(draws: Draws, s: Table, e: Statement): Table {
    match e
    case Look(id) =>
      if id in s.requests then s
      else s.(requests := s.requests[id := if s.rows != {} then Found(s.rows) else Dealing(0)])
    case Insert(id) =>
      if !CanInsert(draws, s, id) then s
      else
        var k := s.requests[id].inserted;
        Table(s.rows + {draws(id)[k]}, s.requests[id := Dealing(k + 1)])
    case Settle(id) =>
      if !IsDealing(s, id) || s.requests[id].inserted < |draws(id)| then s
      else s.(requests := s.requests[id := Dealt(s.rows)])
  }

  function Exec(draws: Draws, s: Table, run: seq<Statement>): Table {
    if run == [] then s else Step(draws, Exec(draws, s, run[..|run| - 1]), run[|run| - 1])
  }

  function After(draws: Draws, run: seq<Statement>, n: nat): Table
    requires n <= |run|
  {
    Exec(draws, EMPTY, run[..n])
  }

  lemma AfterSnoc(draws: Draws, run: seq<Statement>, n: nat)
    requires n < |run|
    ensures After(draws, run, n + 1) == Step(draws, After(draws, run, n), run[n])
  {
    assert run[..n + 1][..n] == run[..n];
  }

  lemma AfterAll(draws: Draws, run: seq<Statement>)
    ensures After(draws, run, |run|) == Exec(draws, EMPTY, run)
    ensures After(draws, run, 0) == EMPTY
  {
    assert run[..|run|] == run;
  }

  ghost predicate AllAnswered(s: Table) {
    forall id :: id in s.requests ==> HasAnswered(s, id)
  }

  // ---------------------------------------------------------------------------
  // The deal that is left
  // ---------------------------------------------------------------------------

  predicate Drew(draws: Draws, id: RequestId, p: ProblemId) {
    p in draws(id)
  }

  /** This request deals, and has come to insert this row. */
  predicate HasPut(draws: Draws, s: Table, id: RequestId, p: ProblemId) {
    HasDealt(s, id) && Drew(draws, id, p) &&
    (s.requests[id].Dealing? ==> s.requests[id].inserted <= |draws(id)| && p in draws(id)[..s.requests[id].inserted])
  }

  /** Every row was put there by a request that deals. */
  ghost predicate RowsDrawn(draws: Draws, s: Table) {
    forall p :: p in s.rows ==> exists id :: HasPut(draws, s, id, p)
  }

  /** What a request has inserted is there, and what it answered covers its own draw. */
  ghost predicate IsAccounted(draws: Draws, s: Table, id: RequestId) {
    id in s.requests ==>
      match s.requests[id]
      case Dealing(n) => n <= |draws(id)| && forall k :: 0 <= k < n ==> draws(id)[k] in s.rows
      case Dealt(answer) => answer <= s.rows && forall p :: Drew(draws, id, p) ==> p in answer
      case Found(answer) => answer <= s.rows
  }

  ghost predicate Accounted(draws: Draws, s: Table) {
    RowsDrawn(draws, s) && forall id :: IsAccounted(draws, s, id)
  }

  lemma StepRowsDrawn(draws: Draws, s: Table, e: Statement)
    requires RowsDrawn(draws, s)
    ensures RowsDrawn(draws, Step(draws, s, e))
  {
    var s' := Step(draws, s, e);
    forall p | p in s'.rows ensures exists id :: HasPut(draws, s', id, p) {
      if p in s.rows {
        var id :| HasPut(draws, s, id, p);
        StillPut(draws, s, e, id, p);
      } else {
        var k := s.requests[e.id].inserted;
        assert draws(e.id)[..k + 1][k] == p;
        assert HasPut(draws, s', e.id, p);
      }
    }
  }

  lemma StillPut(draws: Draws, s: Table, e: Statement, id: RequestId, p: ProblemId)
    requires HasPut(draws, s, id, p)
    ensures HasPut(draws, Step(draws, s, e), id, p)
  {
    if e == Insert(id) && CanInsert(draws, s, id) {
      var k := s.requests[id].inserted;
      assert draws(id)[..k + 1] == draws(id)[..k] + [draws(id)[k]];
    }
  }

  lemma StepIsAccounted(draws: Draws, s: Table, e: Statement, id: RequestId)
    requires IsAccounted(draws, s, id)
    ensures IsAccounted(draws, Step(draws, s, e), id)
  {
    if e == Settle(id) && IsDealing(s, id) && s.requests[id].inserted >= |draws(id)| {
      assert forall p :: Drew(draws, id, p) ==> exists k :: 0 <= k < |draws(id)| && draws(id)[k] == p;
    }
  }

  lemma StepAccounted(draws: Draws, s: Table, e: Statement)
    requires Accounted(draws, s)
    ensures Accounted(draws, Step(draws, s, e))
  {
    hide Step, RowsDrawn, IsAccounted;
    StepRowsDrawn(draws, s, e);
    forall id ensures IsAccounted(draws, Step(draws, s, e), id) {
      StepIsAccounted(draws, s, e, id);
    }
  }

  lemma {:induction false} RunAccounted(draws: Draws, run: seq<Statement>)
    ensures Accounted(draws, Exec(draws, EMPTY, run))
  {
    hide Step, Accounted;
    if run == [] {
      EmptyAccounted(draws);
    } else {
      RunAccounted(draws, run[..|run| - 1]);
      StepAccounted(draws, Exec(draws, EMPTY, run[..|run| - 1]), run[|run| - 1]);
    }
  }

  lemma EmptyAccounted(draws: Draws)
    ensures Accounted(draws, EMPTY)
  {
  }

  /** This statement is a request's look, and no row had been inserted before it. */
  ghost predicate LooksFirst(draws: Draws, run: seq<Statement>, i: nat, id: RequestId) {
    i < |run| && run[i] == Look(id) && id !in After(draws, run, i).requests &&
    forall j :: 0 <= j < i ==> !(run[j].Insert? && CanInsert(draws, After(draws, run, j), run[j].id))
  }

  ghost predicate LookedFirst(draws: Draws, run: seq<Statement>, id: RequestId) {
    exists i: nat :: LooksFirst(draws, run, i, id)
  }

  lemma {:induction false} NoRowsBeforeInserts(draws: Draws, run: seq<Statement>)
    ensures Exec(draws, EMPTY, run).rows == {} <==>
            forall j :: 0 <= j < |run| ==> !(run[j].Insert? && CanInsert(draws, After(draws, run, j), run[j].id))
  {
    if run == [] {
    } else {
      var front := run[..|run| - 1];
      NoRowsBeforeInserts(draws, front);
      assert forall j :: 0 <= j <= |front| ==> front[..j] == run[..j];
      assert forall j :: 0 <= j < |front| ==> front[j] == run[j];
    }
  }

  lemma LooksFirstSnoc(draws: Draws, front: seq<Statement>, last: Statement, id: RequestId)
    ensures LookedFirst(draws, front + [last], id) <==>
            LookedFirst(draws, front, id) ||
            (last == Look(id) && id !in Exec(draws, EMPTY, front).requests && Exec(draws, EMPTY, front).rows == {})
  {
    hide Exec, CanInsert;
    var run, n := front + [last], |front|;
    assert run[..n] == front && run[n] == last;
    assert forall j :: 0 <= j <= n ==> front[..j] == run[..j];
    NoRowsBeforeInserts(draws, front);
    if LookedFirst(draws, run, id) {
      var i: nat :| LooksFirst(draws, run, i, id);
      if i < n {
        assert LooksFirst(draws, front, i, id);
      }
    }
    if LookedFirst(draws, front, id) {
      var i: nat :| LooksFirst(draws, front, i, id);
      assert LooksFirst(draws, run, i, id);
    }
    if last == Look(id) && id !in Exec(draws, EMPTY, front).requests && Exec(draws, EMPTY, front).rows == {} {
      assert LooksFirst(draws, run, n, id);
    }
  }

  /** The requests that deal are those that looked before the first row was inserted. */
  lemma {:induction false} DealersLookedFirst(draws: Draws, run: seq<Statement>, id: RequestId)
    ensures HasDealt(Exec(draws, EMPTY, run), id) <==> LookedFirst(draws, run, id)
  {
    if run == [] {
    } else {
      hide LookedFirst;
      var front, last := run[..|run| - 1], run[|run| - 1];
      assert run == front + [last];
      DealersLookedFirst(draws, front, id);
      LooksFirstSnoc(draws, front, last, id);
    }
  }

  /**
   * Whatever the interleaving, once all requests have answered the deal is the union of what was
   * drawn by exactly those that looked before the first insert.
   */
  lemma FinalDeal(draws: Draws, run: seq<Statement>, p: ProblemId)
    requires AllAnswered(Exec(draws, EMPTY, run))
    ensures p in Exec(draws, EMPTY, run).rows <==>
            exists id :: LookedFirst(draws, run, id) && Drew(draws, id, p)
  {
    RunAccounted(draws, run);
    hide Exec, LookedFirst, Drew;
    var s := Exec(draws, EMPTY, run);
    if p in s.rows {
      var id :| HasPut(draws, s, id, p);
      DealersLookedFirst(draws, run, id);
    }
    if id :| LookedFirst(draws, run, id) && Drew(draws, id, p) {
      DealersLookedFirst(draws, run, id);
      assert HasAnswered(s, id) && IsAccounted(draws, s, id);
    }
  }

  // ---------------------------------------------------------------------------
  // When all requests answer the same
  // ---------------------------------------------------------------------------

  function AnswerOf(s: Table, id: RequestId): set<ProblemId>
    requires HasAnswered(s, id)
  {
    s.requests[id].answer
  }

  ghost predicate AllAgree(s: Table) {
    forall id, id' :: HasAnswered(s, id) && HasAnswered(s, id') ==> AnswerOf(s, id) == AnswerOf(s, id')
  }

  ghost predicate AddsRow(draws: Draws, run: seq<Statement>, i: nat) {
    i < |run| && After(draws, run, i + 1).rows != After(draws, run, i).rows
  }

  ghost predicate SomeoneAnswered(s: Table) {
    exists id :: HasAnswered(s, id)
  }

  /** A request that deals goes on doing so, and an answer once given stands. */
  lemma {:induction false} StandsAfter(draws: Draws, run: seq<Statement>, i: nat, n: nat, id: RequestId)
    requires i <= n <= |run|
    ensures HasDealt(After(draws, run, i), id) ==> HasDealt(After(draws, run, n), id)
    ensures id in After(draws, run, i).requests ==> id in After(draws, run, n).requests
    ensures HasAnswered(After(draws, run, i), id) ==>
              HasAnswered(After(draws, run, n), id) &&
              After(draws, run, n).requests[id] == After(draws, run, i).requests[id]
  {
    hide After;
    if i == n {
    } else {
      StandsAfter(draws, run, i, n - 1, id);
      AfterSnoc(draws, run, n - 1);
    }
  }

  /** While rows are added only before anyone has answered, answers and rows are the same. */
  lemma {:induction false} AnswersAreRows(draws: Draws, run: seq<Statement>, n: nat, id: RequestId)
    requires n <= |run| && HasAnswered(After(draws, run, n), id)
    requires forall i: nat :: i < |run| && AddsRow(draws, run, i) ==> !SomeoneAnswered(After(draws, run, i))
    ensures AnswerOf(After(draws, run, n), id) == After(draws, run, n).rows
  {
    hide After, AddsRow;
    if n == 0 {
      AfterAll(draws, run);
    } else {
      AfterSnoc(draws, run, n - 1);
      AddsRowAt(draws, run, n - 1);
      if HasAnswered(After(draws, run, n - 1), id) {
        AnswersAreRows(draws, run, n - 1, id);
      }
    }
  }

  lemma AddsRowAt(draws: Draws, run: seq<Statement>, i: nat)
    requires i < |run|
    ensures AddsRow(draws, run, i) <==> After(draws, run, i + 1).rows != After(draws, run, i).rows
  {
  }

  /** A row added after an answer was given is missing there and present in the dealer's own. */
  lemma LateRowDivides(draws: Draws, run: seq<Statement>, i: nat, id: RequestId)
    requires AllAnswered(Exec(draws, EMPTY, run))
    requires AddsRow(draws, run, i) && HasAnswered(After(draws, run, i), id)
    ensures !AllAgree(Exec(draws, EMPTY, run))
  {
    AfterSnoc(draws, run, i);
    AfterAll(draws, run);
    RunAccounted(draws, run);
    RunAccounted(draws, run[..i]);
    hide Exec;
    var s, final, dealer := After(draws, run, i), After(draws, run, |run|), run[i].id;
    assert CanInsert(draws, s, dealer);
    var p := draws(dealer)[s.requests[dealer].inserted];
    assert p !in s.rows && Drew(draws, dealer, p);
    StandsAfter(draws, run, i, |run|, dealer);
    StandsAfter(draws, run, i, |run|, id);
    hide After;
    assert IsAccounted(draws, s, id) && IsAccounted(draws, final, dealer);
    assert HasAnswered(final, dealer);
    assert p in AnswerOf(final, dealer) && p !in AnswerOf(final, id);
  }

  /** All requests answer the same problems exactly when no row is added once one has answered. */
  lemma AgreeExactlyWhen(draws: Draws, run: seq<Statement>)
    requires AllAnswered(Exec(draws, EMPTY, run))
    ensures AllAgree(Exec(draws, EMPTY, run)) <==>
            forall i: nat :: i < |run| && AddsRow(draws, run, i) ==> !SomeoneAnswered(After(draws, run, i))
  {
    AfterAll(draws, run);
    hide Exec, After, AddsRow;
    var final := Exec(draws, EMPTY, run);
    if forall i: nat :: i < |run| && AddsRow(draws, run, i) ==> !SomeoneAnswered(After(draws, run, i)) {
      forall id, id' | HasAnswered(final, id) && HasAnswered(final, id')
        ensures AnswerOf(final, id) == AnswerOf(final, id')
      {
        AnswersAreRows(draws, run, |run|, id);
        AnswersAreRows(draws, run, |run|, id');
      }
    } else {
      var i: nat :| i < |run| && AddsRow(draws, run, i) && SomeoneAnswered(After(draws, run, i));
      var id :| HasAnswered(After(draws, run, i), id);
      LateRowDivides(draws, run, i, id);
    }
  }

  // ---------------------------------------------------------------------------
  // When the first deal wins
  // ---------------------------------------------------------------------------

  function SetOf(ids: seq<ProblemId>): set<ProblemId> {
    set p | p in ids
  }

  /** Every request would draw `n` distinct problems of the paper. */
  ghost predicate GoodDraws(draws: Draws, paper: seq<ProblemId>, n: nat) {
    forall id :: |draws(id)| == n && Distinct(draws(id)) && SetOf(draws(id)) <= SetOf(paper)
  }

  /** Everyone who answers, answers what the first request drew. */
  ghost predicate FirstWins(draws: Draws, run: seq<Statement>, first: RequestId) {
    forall id :: HasAnswered(Exec(draws, EMPTY, run), id) ==>
      AnswerOf(Exec(draws, EMPTY, run), id) == SetOf(draws(first))
  }

  /** This statement is another request's look, with the first one's last insert still to come. */
  ghost predicate Interrupts(s: Table, e: Statement, first: RequestId, n: nat) {
    e.Look? && e.id !in s.requests && IsDealing(s, first) && s.requests[first].inserted < n
  }

  ghost predicate Overlaps(draws: Draws, run: seq<Statement>, first: RequestId, n: nat) {
    exists i: nat :: i < |run| && Interrupts(After(draws, run, i), run[i], first, n)
  }

  /** How far the requests have come depends on how many problems are drawn, not on which. */
  ghost predicate SameShape(s: Table, s': Table) {
    s.requests.Keys == s'.requests.Keys && (s.rows == {} <==> s'.rows == {}) &&
    forall id :: id in s.requests ==>
      (s.requests[id].Dealing? <==> s'.requests[id].Dealing?) &&
      (s.requests[id].Found? <==> s'.requests[id].Found?) &&
      (s.requests[id].Dealing? ==> s.requests[id].inserted == s'.requests[id].inserted)
  }

  lemma {:induction false} RunSameShape(draws: Draws, draws': Draws, run: seq<Statement>)
    requires forall id :: |draws(id)| == |draws'(id)|
    ensures SameShape(Exec(draws, EMPTY, run), Exec(draws', EMPTY, run))
  {
    hide SameShape, Step;
    if run == [] {
      EmptySameShape();
    } else {
      var front, last := run[..|run| - 1], run[|run| - 1];
      RunSameShape(draws, draws', front);
      StepSameShape(draws, draws', Exec(draws, EMPTY, front), Exec(draws', EMPTY, front), last);
    }
  }

  lemma EmptySameShape()
    ensures SameShape(EMPTY, EMPTY)
  {
  }

  lemma StepSameShape(draws: Draws, draws': Draws, s: Table, s': Table, e: Statement)
    requires |draws(e.id)| == |draws'(e.id)| && SameShape(s, s')
    ensures SameShape(Step(draws, s, e), Step(draws', s', e))
  {
  }

  lemma SameShapeOverlaps(draws: Draws, draws': Draws, run: seq<Statement>, first: RequestId, n: nat)
    requires forall id :: |draws(id)| == |draws'(id)|
    ensures Overlaps(draws, run, first, n) ==> Overlaps(draws', run, first, n)
    ensures AllAnswered(Exec(draws, EMPTY, run)) ==> AllAnswered(Exec(draws', EMPTY, run))
  {
    hide Exec;
    RunSameShape(draws, draws', run);
    if Overlaps(draws, run, first, n) {
      var i: nat :| i < |run| && Interrupts(After(draws, run, i), run[i], first, n);
      RunSameShape(draws, draws', run[..i]);
      assert Interrupts(After(draws', run, i), run[i], first, n);
    }
  }

  /** Nobody has come between: the first request deals alone, and afterwards everyone finds its deal. */
  ghost predicate FirstAlone(draws: Draws, s: Table, first: RequestId) {
    first in s.requests &&
    match s.requests[first]
    case Dealing(k) =>
      k <= |draws(first)| && s.rows == SetOf(draws(first)[..k]) &&
      forall id :: id in s.requests && id != first ==> k == |draws(first)| && s.requests[id] == Found(s.rows)
    case Dealt(answer) =>
      s.rows == answer == SetOf(draws(first)) &&
      forall id :: id in s.requests && id != first ==> s.requests[id] == Found(s.rows)
    case Found(_) => false
  }

  lemma StepFirstAlone(draws: Draws, s: Table, e: Statement, first: RequestId)
    requires FirstAlone(draws, s, first) && draws(first) != [] && !Interrupts(s, e, first, |draws(first)|)
    ensures FirstAlone(draws, Step(draws, s, e), first)
  {
    var x := draws(first);
    assert x[..|x|] == x && x[0] in SetOf(x);
    if e == Insert(first) && CanInsert(draws, s, first) {
      var k := s.requests[first].inserted;
      assert x[..k + 1] == x[..k] + [x[k]];
    }
  }

  lemma {:induction false} RunFirstAlone(draws: Draws, run: seq<Statement>, first: RequestId, n: nat)
    requires 0 < n <= |run| && run[0] == Look(first) && draws(first) != []
    requires forall i: nat :: i < |run| ==> !Interrupts(After(draws, run, i), run[i], first, |draws(first)|)
    ensures FirstAlone(draws, After(draws, run, n), first)
  {
    hide After, FirstAlone, Interrupts, Step;
    AfterSnoc(draws, run, n - 1);
    if n == 1 {
      AfterAll(draws, run);
      FirstLook(draws, first);
    } else {
      RunFirstAlone(draws, run, first, n - 1);
      StepFirstAlone(draws, After(draws, run, n - 1), run[n - 1], first);
    }
  }

  lemma FirstLook(draws: Draws, first: RequestId)
    ensures FirstAlone(draws, Step(draws, EMPTY, Look(first)), first)
    ensures Step(draws, EMPTY, Look(first)).requests == map[first := Dealing(0)]
  {
  }

  lemma WinsWithoutOverlap(draws: Draws, run: seq<Statement>, first: RequestId)
    requires run != [] && run[0] == Look(first) && draws(first) != []
    requires !Overlaps(draws, run, first, |draws(first)|) && AllAnswered(Exec(draws, EMPTY, run))
    ensures FirstWins(draws, run, first)
  {
    hide Exec, After;
    AfterAll(draws, run);
    RunFirstAlone(draws, run, first, |run|);
    assert HasAnswered(Exec(draws, EMPTY, run), first);
  }

  /** The first request draws the start of the paper, all others its end, which has one problem more. */
  function Parting(paper: seq<ProblemId>, n: nat, first: RequestId): Draws
    requires n < |paper|
  {
    id => if id == first then paper[..n] else paper[1..n + 1]
  }

  lemma PartingGood(paper: seq<ProblemId>, n: nat, first: RequestId)
    requires Distinct(paper) && n < |paper|
    ensures GoodDraws(Parting(paper, n, first), paper, n)
    ensures paper[n] !in paper[..n]
  {
    assert forall p :: p in paper[..n] || p in paper[1..n + 1] ==> p in paper;
  }

  /** When the first wins although all others would draw otherwise, no other deals. */
  lemma OthersDoNotDeal(paper: seq<ProblemId>, n: nat, run: seq<Statement>, first: RequestId, id: RequestId)
    requires Distinct(paper) && 1 <= n < |paper|
    requires var draws := Parting(paper, n, first);
             AllAnswered(Exec(draws, EMPTY, run)) && FirstWins(draws, run, first)
    requires id != first
    ensures !HasDealt(Exec(Parting(paper, n, first), EMPTY, run), id)
  {
    var draws := Parting(paper, n, first);
    PartingGood(paper, n, first);
    RunAccounted(draws, run);
    hide Exec;
    var final := Exec(draws, EMPTY, run);
    assert paper[1..n + 1][n - 1] == paper[n];
    assert Drew(draws, id, paper[n]);
    assert HasDealt(final, id) ==> IsAccounted(draws, final, id) && HasAnswered(final, id);
  }

  lemma LosesWithOverlap(paper: seq<ProblemId>, n: nat, run: seq<Statement>, first: RequestId)
    requires Distinct(paper) && 1 <= n < |paper|
    requires var draws := Parting(paper, n, first);
             Overlaps(draws, run, first, n) && AllAnswered(Exec(draws, EMPTY, run))
    ensures !FirstWins(Parting(paper, n, first), run, first)
  {
    hide Exec, After, Parting, AllAnswered, FirstWins, Step;
    var draws := Parting(paper, n, first);
    var i: nat :| i < |run| && Interrupts(After(draws, run, i), run[i], first, n);
    if FirstWins(draws, run, first) {
      var id := run[i].id;
      AfterSnoc(draws, run, i);
      AfterAll(draws, run);
      StandsAfter(draws, run, i + 1, |run|, id);
      OthersDoNotDeal(paper, n, run, first, id);
      FoundAt(draws, After(draws, run, i), run[i]);
      FirstWinsAt(draws, run, first, id);
      UnfinishedRows(paper, n, run, first, i);
    }
  }

  lemma FirstWinsAt(draws: Draws, run: seq<Statement>, first: RequestId, id: RequestId)
    requires FirstWins(draws, run, first) && HasAnswered(Exec(draws, EMPTY, run), id)
    ensures AnswerOf(Exec(draws, EMPTY, run), id) == SetOf(draws(first))
  {
  }

  lemma FoundAt(draws: Draws, s: Table, e: Statement)
    requires e.Look? && e.id !in s.requests && !HasDealt(Step(draws, s, e), e.id)
    ensures HasAnswered(Step(draws, s, e), e.id) && AnswerOf(Step(draws, s, e), e.id) == s.rows
  {
  }

  lemma NotInPrefix(paper: seq<ProblemId>, n: nat, k: nat)
    requires Distinct(paper) && k < n <= |paper|
    ensures paper[..n][k] !in paper[..n][..k]
  {
  }

  /** With nobody else dealing, the first request's next problem is not there yet. */
  lemma UnfinishedRows(paper: seq<ProblemId>, n: nat, run: seq<Statement>, first: RequestId, i: nat)
    requires Distinct(paper) && 1 <= n < |paper| && i < |run|
    requires var draws := Parting(paper, n, first);
             AllAnswered(Exec(draws, EMPTY, run)) && FirstWins(draws, run, first) &&
             IsDealing(After(draws, run, i), first) && After(draws, run, i).requests[first].inserted < n
    ensures After(Parting(paper, n, first), run, i).rows != SetOf(Parting(paper, n, first)(first))
  {
    var draws := Parting(paper, n, first);
    var s := After(draws, run, i);
    RunAccounted(draws, run[..i]);
    AfterAll(draws, run);
    var x, k := draws(first), s.requests[first].inserted;
    NotInPrefix(paper, n, k);
    if x[k] in s.rows {
      var id :| HasPut(draws, s, id, x[k]);
      if id != first {
        StandsAfter(draws, run, i, |run|, id);
        OthersDoNotDeal(paper, n, run, first, id);
      }
    }
    assert x[k] in SetOf(x);
  }

  /**
   * "The first deal wins": whatever is drawn, every request answers what the first one drew,
   * exactly when no other request looks between the first one's look and its last insert.
   */
  lemma FirstDealWinsExactlyWhen(draws0: Draws, run: seq<Statement>, first: RequestId, paper: seq<ProblemId>, n: nat)
    requires run != [] && run[0] == Look(first) && Distinct(paper) && 1 <= n < |paper|
    requires GoodDraws(draws0, paper, n) && AllAnswered(Exec(draws0, EMPTY, run))
    ensures (forall draws: Draws :: GoodDraws(draws, paper, n) ==> FirstWins(draws, run, first)) <==>
            !Overlaps(draws0, run, first, n)
  {
    hide Exec, FirstWins, Overlaps;
    if Overlaps(draws0, run, first, n) {
      var draws := Parting(paper, n, first);
      PartingGood(paper, n, first);
      SameShapeOverlaps(draws0, draws, run, first, n);
      LosesWithOverlap(paper, n, run, first);
    } else {
      forall draws: Draws | GoodDraws(draws, paper, n) ensures FirstWins(draws, run, first) {
        SameShapeOverlaps(draws0, draws, run, first, n);
        SameShapeOverlaps(draws, draws0, run, first, n);
        WinsWithoutOverlap(draws, run, first);
      }
    }
  }

  // ---------------------------------------------------------------------------
  // The failing runs, and the run that is one request of the exam machine
  // ---------------------------------------------------------------------------

  lemma ExecSnoc(draws: Draws, s: Table, run: seq<Statement>, e: Statement)
    ensures Exec(draws, s, run + [e]) == Step(draws, Exec(draws, s, run), e)
    ensures Exec(draws, s, []) == s
  {
    assert (run + [e])[..|run|] == run;
  }

  /** The first request draws only `a`, any other only `b`. */
  function Apart(a: ProblemId, b: ProblemId): Draws {
    id => if id == 1 then [a] else [b]
  }

  /** Every request draws both. */
  function Both(a: ProblemId, b: ProblemId): Draws {
    id => [a, b]
  }

  /** Two requests look before either inserts: the student is dealt both draws, twice the problems. */
  lemma TwoDealsUnite(a: ProblemId, b: ProblemId)
    requires a != b
    ensures var draws := Apart(a, b);
            var run := [Look(1), Look(2), Insert(1), Insert(2), Settle(1), Settle(2)];
            var s := Exec(draws, EMPTY, run);
            s.rows == {a, b} && s.requests == map[1 := Dealt({a, b}), 2 := Dealt({a, b})] &&
            AllAgree(s) && Overlaps(draws, run, 1, 1)
  {
    hide Exec;
    var draws := Apart(a, b);
    var l1, l2, i1, i2, s1, s2 := Look(1), Look(2), Insert(1), Insert(2), Settle(1), Settle(2);
    var run := [l1, l2, i1, i2, s1, s2];
    assert [] + [l1] == [l1] && [l1] + [l2] == [l1, l2] && [l1, l2] + [i1] == [l1, l2, i1];
    assert [l1, l2, i1] + [i2] == [l1, l2, i1, i2] && [l1, l2, i1, i2] + [s1] == [l1, l2, i1, i2, s1];
    assert [l1, l2, i1, i2, s1] + [s2] == run;
    ExecSnoc(draws, EMPTY, [], l1);
    ExecSnoc(draws, EMPTY, [l1], l2);
    ExecSnoc(draws, EMPTY, [l1, l2], i1);
    ExecSnoc(draws, EMPTY, [l1, l2, i1], i2);
    ExecSnoc(draws, EMPTY, [l1, l2, i1, i2], s1);
    ExecSnoc(draws, EMPTY, [l1, l2, i1, i2, s1], s2);
    assert run[..1] == [l1];
    assert Interrupts(After(draws, run, 1), run[1], 1, 1);
  }

  /** A request that looks between two inserts of another is settled on part of a deal. */
  lemma LookFindsPart(a: ProblemId, b: ProblemId)
    requires a != b
    ensures var draws := Both(a, b);
            var run := [Look(1), Insert(1), Look(2), Insert(1), Settle(1)];
            Exec(draws, EMPTY, run).requests == map[1 := Dealt({a, b}), 2 := Found({a})]
  {
    hide Exec;
    var draws := Both(a, b);
    var l1, i1, l2, s1 := Look(1), Insert(1), Look(2), Settle(1);
    assert [] + [l1] == [l1] && [l1] + [i1] == [l1, i1] && [l1, i1] + [l2] == [l1, i1, l2];
    assert [l1, i1, l2] + [i1] == [l1, i1, l2, i1] && [l1, i1, l2, i1] + [s1] == [l1, i1, l2, i1, s1];
    ExecSnoc(draws, EMPTY, [], l1);
    ExecSnoc(draws, EMPTY, [l1], i1);
    assert Exec(draws, EMPTY, [l1, i1]) == Table({a}, map[1 := Dealing(1)]);
    ExecSnoc(draws, EMPTY, [l1, i1], l2);
    ExecSnoc(draws, EMPTY, [l1, i1, l2], i1);
    assert {a} + {b} == {a, b};
    assert Exec(draws, EMPTY, [l1, i1, l2, i1]) == Table({a, b}, map[1 := Dealing(2), 2 := Found({a})]);
    ExecSnoc(draws, EMPTY, [l1, i1, l2, i1], s1);
  }

  /** The statements of a request that has inserted `k` rows. */
  function Script(id: RequestId, k: nat): seq<Statement> {
    if k == 0 then [Look(id)] else Script(id, k - 1) + [Insert(id)]
  }

  lemma {:induction false} AloneInserts(draws: Draws, rows: set<ProblemId>, id: RequestId, k: nat)
    requires k <= |draws(id)|
    ensures Exec(draws, Table(rows, map[]), Script(id, k)) ==
            if rows != {} then Table(rows, map[id := Found(rows)])
            else Table(SetOf(draws(id)[..k]), map[id := Dealing(k)])
  {
    hide Exec, Script;
    ScriptIs(id, k);
    if k == 0 {
      ExecSnoc(draws, Table(rows, map[]), [], Look(id));
      assert [] + [Look(id)] == [Look(id)];
      assert SetOf(draws(id)[..0]) == {};
    } else {
      AloneInserts(draws, rows, id, k - 1);
      ExecSnoc(draws, Table(rows, map[]), Script(id, k - 1), Insert(id));
      assert draws(id)[..k] == draws(id)[..k - 1] + [draws(id)[k - 1]];
    }
  }

  lemma ScriptIs(id: RequestId, k: nat)
    ensures Script(id, k) == if k == 0 then [Look(id)] else Script(id, k - 1) + [Insert(id)]
  {
  }

  /** A request that is not interrupted does what the exam machine takes it to do in one step. */
  lemma AloneIsAssign(s: State, e: ExamId, u: UserId, js: seq<nat>, draws: Draws, id: RequestId)
    requires e in s.plan.exams && Randomises(s.plan.exams[e])
    requires SetOf(draws(id)) == FreshDeal(s.plan.exams[e], js)
    ensures var final := Exec(draws, Table(DealOf(s, e, u), map[]), Script(id, |draws(id)|) + [Settle(id)]);
            var (s', dealt) := Assign(s, e, u, js);
            final.rows == DealOf(s', e, u) && HasAnswered(final, id) && AnswerOf(final, id) == dealt
  {
    hide Exec, Script, FreshDeal, Randomises;
    var rows, n := DealOf(s, e, u), |draws(id)|;
    AloneInserts(draws, rows, id, n);
    ExecSnoc(draws, Table(rows, map[]), Script(id, n), Settle(id));
    assert draws(id)[..n] == draws(id);
    if rows == {} {
      ExamSafety.DealRecorded(s, e, u, FreshDeal(s.plan.exams[e], js));
    }
  }
}
