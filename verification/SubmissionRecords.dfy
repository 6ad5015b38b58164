/**
 * What submitting and grading leave behind: the row of every accepted submission, the grading it shows,
 * the override of a mark, and the page that sums them up.
 */
module SubmissionRecords {
  import opened Options
  import opened Histories
  import opened ExamModel
  import opened ExamInvariants
  import opened ExamSafety
  import opened ExamSubmissions
  import opened ExamResults
  import opened ExamHistory
  import opened ExamRecords

  // ---------------------------------------------------------------------------
  // Accepted submissions are stored
  // ---------------------------------------------------------------------------

  /** Nothing has been graded on this row yet. */
  predicate IsUngraded(row: Submission) {
    row.status != Completed && row.passed == 0 && row.earnedWeight.None? && row.totalWeight.None?
  }

  /** The row a request put there: its own, new, not graded, marked failed if the queue refused it. */
  ghost predicate IsRowOf(row: Submission, s: State, op: Op)
    requires op.Submit?
  {
    row.id == s.work.nextSubmission && row.user == op.user && row.problem == op.problem &&
    row.exam == op.forExam && row.at == s.now && IsUngraded(row) &&
    (row.status == Queued <==> op.enqueued) && (row.status == Failed <==> !op.enqueued) &&
    op.problem in s.bank.problems && row.total == s.bank.problems[op.problem].cases
  }

  lemma InsertsRow(
    s: State, s0: State, op: Op, exam: Option<ExamId>, isLate: bool, penalty: int, enqueued: bool)
    requires op.Submit? && exam == op.forExam && enqueued == op.enqueued && op.problem in s.bank.problems
    requires s.bank == s0.bank && s.now == s0.now && s.work.nextSubmission == s0.work.nextSubmission
    ensures var (s', r) := Insert(s, op.user, op.problem, exam, isLate, penalty, enqueued);
            if s'.work.submissions == s.work.submissions then r == NoTestCases
            else |s'.work.submissions| == |s.work.submissions| + 1 &&
                 s'.work.submissions[..|s.work.submissions|] == s.work.submissions &&
                 IsRowOf(s'.work.submissions[|s.work.submissions|], s0, op) &&
                 (r == if op.enqueued then Accepted(s0.work.nextSubmission) else Unavailable)
  {
  }

  /**
   * A submission is stored exactly when it is accepted, or refused by the queue alone: one row more,
   * after all others, with the student, problem, exam and time of the request.
   */
  lemma SubmissionStored(s: State, op: Op)
    requires op.Submit?
    ensures var list, list', r := s.work.submissions, Step(s, op).0.work.submissions, Step(s, op).1;
            (r.Accepted? || r.Unavailable? <==> |list'| == |list| + 1) &&
            (|list'| == |list| + 1 ==>
              list'[..|list|] == list && IsRowOf(list'[|list|], s, op) &&
              (r == if op.enqueued then Accepted(s.work.nextSubmission) else Unavailable)) &&
            (|list'| != |list| + 1 ==> list' == list)
  {
    hide Assign, CanAccessProblem, CanAccessExam, WindowOf, OnPaper, Insert, IsArchived, IsRowOf;
    var u, p := op.user, op.problem;
    if CanAccessProblem(s, u, p) {
      AccessibleExists(s, u, p);
      if op.forExam.None? {
        InsertsRow(s, s, op, None, false, 0, op.enqueued);
      } else {
        var e := op.forExam.value;
        AssignEffect(s, e, u, op.draws);
        var s' := Assign(s, e, u, op.draws).0;
        InsertsRow(s', s, op, Some(e), false, 0, op.enqueued);
        if WindowOf(s, e, u).Late? {
          InsertsRow(s', s, op, Some(e), true, WindowOf(s, e, u).penalty, op.enqueued);
        }
      }
    }
  }

  // ---------------------------------------------------------------------------
  // Grading
  // ---------------------------------------------------------------------------

  /** The row shows this outcome: what passed, of how many, and the weights. */
  predicate ShowsOutcome(row: Submission, o: Outcome) {
    row.passed == o.passed && row.total == o.total && row.earnedWeight == o.earnedWeight &&
    row.totalWeight == o.totalWeight && (row.status == Failed <==> o.failed) && (row.status == Completed <==> !o.failed)
  }

  /** Grading rewrites the rows with its id, by its outcome, and no others. */
  lemma GradingExact(s: State, id: nat, o: Outcome)
    ensures var list, list' := s.work.submissions, Step(s, Grade(id, o)).0.work.submissions;
            |list'| == |list| &&
            forall i :: 0 <= i < |list| ==>
              if list[i].id == id then ShowsOutcome(list'[i], o) && Stamp(list'[i]) == Stamp(list[i])
              else list'[i] == list[i]
  {
  }

  /** Request `i` graded this submission, and none has since. */
  ghost predicate LastGraded(ops: seq<Op>, i: nat, row: Submission) {
    i < |ops| && ops[i].Grade? && ops[i].submission == row.id && ShowsOutcome(row, ops[i].outcome) &&
    forall j :: i < j < |ops| && ops[j].Grade? ==> ops[j].submission != row.id
  }

  /** Request `i` stored this submission, and none has graded it since. */
  ghost predicate NotGradedSince(s0: State, ops: seq<Op>, i: nat, row: Submission) {
    i < |ops| && ops[i].Submit? && IsRowOf(row, After(s0, ops, i), ops[i]) &&
    forall j :: i < j < |ops| && ops[j].Grade? ==> ops[j].submission != row.id
  }

  /** Where a row of the next state comes from. */
  lemma RowBefore(s: State, op: Op, row: Submission)
    requires row in Step(s, op).0.work.submissions
    ensures (op.Submit? && IsRowOf(row, s, op)) ||
            (op.Grade? && op.submission == row.id && ShowsOutcome(row, op.outcome)) ||
            (row in s.work.submissions && (op.Grade? ==> op.submission != row.id))
  {
    if op.Submit? {
      SubmissionStored(s, op);
      hide Step, IsRowOf;
    } else if op.Grade? {
      GradingExact(s, op.submission, op.outcome);
    } else {
      hide Step;
      OtherStepsAddNoRows(s, op, row);
    }
  }

  lemma SameGrading(s0: State, front: seq<Op>, last: Op, row: Submission)
    requires last.Grade? ==> last.submission != row.id
    ensures (exists i: nat :: LastGraded(front, i, row)) ==> exists i: nat :: LastGraded(front + [last], i, row)
    ensures (exists i: nat :: NotGradedSince(s0, front, i, row)) ==>
              exists i: nat :: NotGradedSince(s0, front + [last], i, row)
  {
    hide Exec, IsRowOf, ShowsOutcome;
    var ops := front + [last];
    assert forall k :: 0 <= k < |front| ==> ops[k] == front[k] && ops[..k] == front[..k];
    if exists i: nat :: LastGraded(front, i, row) {
      var i: nat :| LastGraded(front, i, row);
      assert LastGraded(ops, i, row);
    }
    if exists i: nat :: NotGradedSince(s0, front, i, row) {
      var i: nat :| NotGradedSince(s0, front, i, row);
      assert NotGradedSince(s0, ops, i, row);
    }
  }

  /** Every stored submission shows its last grading, or nothing if it has not been graded. */
  lemma {:induction false} ShowsLastGrading(s0: State, ops: seq<Op>, row: Submission)
    requires IsInitial(s0) && row in Exec(s0, ops).work.submissions
    ensures (exists i: nat :: LastGraded(ops, i, row)) || exists i: nat :: NotGradedSince(s0, ops, i, row)
  {
    hide Step, IsRowOf, ShowsOutcome;
    if ops == [] {
    } else {
      var front, last := ops[..|ops| - 1], ops[|ops| - 1];
      assert ops == front + [last];
      var s := Exec(s0, front);
      RowBefore(s, last, row);
      assert After(s0, ops, |front|) == s;
      if last.Submit? && IsRowOf(row, s, last) {
        assert NotGradedSince(s0, ops, |front|, row);
      } else if last.Grade? && last.submission == row.id && ShowsOutcome(row, last.outcome) {
        assert LastGraded(ops, |front|, row);
      } else {
        ShowsLastGrading(s0, front, row);
        SameGrading(s0, front, last, row);
      }
    }
  }

  // ---------------------------------------------------------------------------
  // Deleting a problem
  // ---------------------------------------------------------------------------

  lemma {:induction false} KeptInOrder(list: seq<Submission>, p: ProblemId)
    ensures var kept := KeepSubmissions(list, p);
            (forall row :: row in kept <==> row in list && row.problem != p) &&
            forall cell: Cell :: cell.problem != p ==> Attempts(kept, cell) == Attempts(list, cell)
  {
    forall row ensures row in KeepSubmissions(list, p) <==> row in list && row.problem != p {
      KeepSubmissionsExact(list, p, row);
    }
    forall cell: Cell | cell.problem != p ensures Attempts(KeepSubmissions(list, p), cell) == Attempts(list, cell) {
      AttemptsAfterDelete(list, p, cell);
    }
  }

  /** A deleted problem takes with it everything that names it, and nothing else. */
  lemma DeletionExact(s: State, u: UserId, p: ProblemId, q: ProblemId)
    requires IsTaken(s, DeleteProblem(u, p))
    ensures var s' := Step(s, DeleteProblem(u, p)).0;
            (q in s'.bank.problems <==> q in s.bank.problems && q != p) &&
            (forall e :: OnPaper(s', e, q) <==> OnPaper(s, e, q) && q != p) &&
            (forall e, v :: Cell(e, v, q) in s'.work.deals <==> Cell(e, v, q) in s.work.deals && q != p) &&
            (forall e, v :: Cell(e, v, q) in s'.grants.overrides <==> Cell(e, v, q) in s.grants.overrides && q != p) &&
            (forall row :: row in s'.work.submissions <==> row in s.work.submissions && row.problem != p) &&
            s'.grants.extra == s.grants.extra && s'.plan.roster == s.plan.roster && s'.school == s.school
  {
    AnswersExactly(s, DeleteProblem(u, p));
    hide IsTaken, WithoutProblem, KeepSubmissions, OwnsProblem;
    KeptInOrder(s.work.submissions, p);
    var s' := Step(s, DeleteProblem(u, p)).0;
    forall e ensures OnPaper(s', e, q) <==> OnPaper(s, e, q) && q != p {
      if e in s.plan.exams {
        WithoutProblemIds(s.plan.exams[e].paper, p);
      }
    }
  }

  // ---------------------------------------------------------------------------
  // Overrides and marks
  // ---------------------------------------------------------------------------

  /** What this request makes of the override of a mark, if anything. */
  ghost function OverrideBy(s: State, op: Op, cell: Cell): Option<Option<Override>> {
    if op.SetOverride? && op.cell == cell && IsTaken(s, op) then Some(Some(op.override))
    else if op.DropOverride? && op.cell == cell && IsTaken(s, op) then Some(None)
    else if op.DeleteProblem? && op.problem == cell.problem && IsTaken(s, op) then Some(None)
    else None
  }

  lemma StepOverride(s: State, op: Op, cell: Cell)
    ensures OverrideOf(Step(s, op).0, cell) ==
            if OverrideBy(s, op, cell).Some? then OverrideBy(s, op, cell).value else OverrideOf(s, cell)
  {
    if op.SetOverride? || op.DropOverride? || op.DeleteProblem? || op.GrantTime? {
      AnswersExactly(s, op);
      hide IsTaken, WithoutProblem, KeepSubmissions;
    } else {
      hide Step, IsTaken;
      GrantsFrame(s, op);
    }
  }

  ghost function OverrideAt(s0: State, ops: seq<Op>, k: nat, cell: Cell): Option<Option<Override>> {
    if k < |ops| then OverrideBy(After(s0, ops, k), ops[k], cell) else None
  }

  /** A mark is overridden as last set for that student, exam and problem, unless taken back since. */
  lemma OverrideAsLastSet(s0: State, ops: seq<Op>, cell: Cell)
    requires IsInitial(s0)
    ensures IsLatest((k: nat) => OverrideAt(s0, ops, k, cell), |ops|, None, OverrideOf(Exec(s0, ops), cell))
  {
    hide Exec, Step, OverrideBy, After;
    AfterNothing(s0, ops);
    var value, writes := (k: nat) => OverrideOf(After(s0, ops, k), cell), (k: nat) => OverrideAt(s0, ops, k, cell);
    forall i: nat | i < |ops|
      ensures value(i + 1) == if writes(i).Some? then writes(i).value else value(i)
    {
      AfterStep(s0, ops, i);
      StepOverride(After(s0, ops, i), ops[i], cell);
    }
    LastWrite(value, writes, |ops|);
  }

  lemma {:induction false} MostPassed(list: seq<Submission>)
    requires list != []
    ensures forall i :: 0 <= i < |list| ==> list[i].passed <= MaxPassed(list)
    ensures exists i :: 0 <= i < |list| && list[i].passed == MaxPassed(list)
  {
    if |list| > 1 {
      var front := list[..|list| - 1];
      MostPassed(front);
      var k :| 0 <= k < |front| && front[k].passed == MaxPassed(front);
      assert list[k] == front[k];
      assert forall i :: 0 <= i < |front| ==> list[i] == front[i];
      assert list[k].passed == MaxPassed(list) || list[|list| - 1].passed == MaxPassed(list);
    } else {
      assert list[0].passed == MaxPassed(list);
    }
  }

  lemma {:induction false} LargestTotal(list: seq<Submission>)
    requires list != []
    ensures forall i :: 0 <= i < |list| ==> list[i].total <= MaxTotal(list)
    ensures exists i :: 0 <= i < |list| && list[i].total == MaxTotal(list)
  {
    if |list| > 1 {
      var front := list[..|list| - 1];
      LargestTotal(front);
      var k :| 0 <= k < |front| && front[k].total == MaxTotal(front);
      assert list[k] == front[k];
      assert forall i :: 0 <= i < |front| ==> list[i] == front[i];
      assert list[k].total == MaxTotal(list) || list[|list| - 1].total == MaxTotal(list);
    } else {
      assert list[0].total == MaxTotal(list);
    }
  }

  /**
   * The mark of some attempts: the weights of the one no other beats, or for one without weights the
   * most cases passed of the most there were; its own penalty if it is late; and an override over all.
   */
  lemma MarkExact(attempts: seq<Submission>, i: nat, override: Option<Override>)
    requires IsFirstBest(attempts, i)
    ensures var best, mark := attempts[i], MarkOf(attempts, override);
            var weighted := best.totalWeight.Some? && best.totalWeight.value > 0;
            mark.isWeighted == weighted && mark.isLate == best.isLate &&
            mark.penalty == (if best.isLate then best.penalty else 0) &&
            (weighted ==> mark.autoMax == best.totalWeight.value &&
                          (best.earnedWeight.Some? ==> mark.autoScore == best.earnedWeight.value) &&
                          (best.earnedWeight.None? ==> mark.autoScore == 0)) &&
            (!weighted ==> mark.autoScore == best.passed &&
                           (forall a :: a in attempts ==> a.total <= mark.autoMax) &&
                           exists a :: a in attempts && a.total == mark.autoMax) &&
            (override.Some? ==> mark.finalScore == override.value.score && mark.finalMax == override.value.maxScore) &&
            (override.None? ==> mark.finalMax == mark.autoMax &&
                                mark.finalScore == Penalised(mark.autoScore, mark.penalty))
  {
    hide Best, MaxPassed, MaxTotal, Penalised;
    BestIsUnique(attempts, i);
    LargestTotal(attempts);
    var k :| 0 <= k < |attempts| && attempts[k].total == MaxTotal(attempts);
    assert attempts[k] in attempts;
  }

  // ---------------------------------------------------------------------------
  // The exam page
  // ---------------------------------------------------------------------------

  /** The student's submissions on this problem under this exam. */
  ghost predicate IsTry(row: Submission, u: UserId, e: ExamId, p: ProblemId) {
    row.user == u && row.exam == Some(e) && row.problem == p
  }

  lemma ProgressIs(list: seq<Submission>, u: UserId, e: ExamId, p: ProblemId)
    ensures p in ProgressOf(list, u, e) <==> exists row :: row in list && IsTry(row, u, e, p)
    ensures p in ProgressOf(list, u, e) ==>
              var best := ProgressOf(list, u, e)[p];
              (forall row :: row in list && IsTry(row, u, e, p) ==>
                row.passed <= best.bestPassed && row.total <= best.total) &&
              (exists row :: row in list && IsTry(row, u, e, p) && row.passed == best.bestPassed) &&
              (exists row :: row in list && IsTry(row, u, e, p) && row.total == best.total)
  {
    hide Attempts, MaxPassed, MaxTotal;
    if p in ProgressOf(list, u, e) {
      var cell := Cell(e, u, p);
      TriedHasAttempts(list, u, e, p);
      var attempts := Attempts(list, cell);
      MostPassed(attempts);
      LargestTotal(attempts);
      forall row ensures row in attempts <==> row in list && IsTry(row, u, e, p) {
        AttemptsAreRows(list, cell, row);
      }
      var i :| 0 <= i < |attempts| && attempts[i].passed == MaxPassed(attempts);
      var j :| 0 <= j < |attempts| && attempts[j].total == MaxTotal(attempts);
      assert attempts[i] in attempts && attempts[j] in attempts;
      forall row | row in list && IsTry(row, u, e, p)
        ensures row.passed <= MaxPassed(attempts) && row.total <= MaxTotal(attempts)
      {
        var k :| 0 <= k < |attempts| && attempts[k] == row;
      }
    }
  }

  /**
   * A student's page of a started exam: some rows of the paper, in its order and with its points, those
   * dealt to the student; for each problem tried the best so far; and the deadline up to which the
   * student is on time.
   */
  lemma PageExact(s: State, u: UserId, e: ExamId, js: seq<nat>)
    requires Inv(s) && IsStudent(s, u) && CanAccessExam(s, u, e) && HasStarted(s, e)
    ensures Step(s, OpenExam(u, e, js)).1.Shown?
    ensures var (s', page) := Step(s, OpenExam(u, e, js));
            IsPart(page.rows, s.plan.exams[e].paper) &&
            (forall p :: p in PaperIds(page.rows) <==> p in Assign(s, e, u, js).1) &&
            page.progress == ProgressOf(s.work.submissions, u, e) &&
            page.endsAt.Some? && (WindowOf(s, e, u) == OnTime <==> s.now <= page.endsAt.value)
  {
    hide Inv, Assign, RowsOf, CanAccessExam, OnPaper, ProgressOf;
    ShownIsPart(s.plan.exams[e].paper, Assign(s, e, u, js).1);
    forall p
      ensures p in PaperIds(Step(s, OpenExam(u, e, js)).1.rows) <==> p in Assign(s, e, u, js).1
    {
      ShownIsAssigned(s, u, e, js, p);
    }
  }

  /** What a student is dealt: the whole paper, or a set of the stated size, the same one ever after. */
  lemma AssignedExact(s: State, e: ExamId, u: UserId, js: seq<nat>)
    requires Inv(s) && e in s.plan.exams
    ensures var exam, dealt := s.plan.exams[e], Assign(s, e, u, js).1;
            (exam.perStudent.None? ==> dealt == IdSet(exam)) &&
            (Randomises(exam) && DealOf(s, e, u) == {} ==>
              dealt <= IdSet(exam) && |dealt| == DealSize(exam) && DealOf(Assign(s, e, u, js).0, e, u) == dealt) &&
            (Randomises(exam) && DealOf(s, e, u) != {} ==> dealt == DealOf(s, e, u) && Assign(s, e, u, js).0 == s)
  {
    var exam := s.plan.exams[e];
    assert ExamOk(s, exam);
    if Randomises(exam) {
      FreshDealSize(exam, js);
      hide Inv, FreshDeal, DealSize, Randomises;
      if DealOf(s, e, u) == {} {
        DealRecorded(s, e, u, FreshDeal(exam, js));
      }
    }
  }
}
