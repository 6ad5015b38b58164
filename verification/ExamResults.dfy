/** From attempts to a mark: the best attempt, its late penalty, and a teacher's override. */
module ExamResults {
  import opened Lists
  import opened Options
  import opened ExamModel
  import opened ExamInvariants
  import opened ExamSubmissions

  /** One line of the results table. */
  datatype Mark = Mark(
    autoScore: int, autoMax: int, isWeighted: bool, isLate: bool, penalty: int, finalScore: int, finalMax: int)

  /** The order of the aggregate: more cases passed first, then the earlier attempt. */
  predicate Beats(a: Submission, b: Submission) {
    a.passed > b.passed || (a.passed == b.passed && a.at < b.at)
  }

  function Best(list: seq<Submission>): Submission
    requires list != []
  {
    if |list| == 1 then list[0]
    else
      var best, last := Best(list[..|list| - 1]), list[|list| - 1];
      if Beats(last, best) then last else best
  }

  /** `auto` less `penalty` percent, rounded up. */
  function Penalised(auto: int, penalty: int): int {
    (auto * (100 - penalty) + 99) / 100
  }

  predicate IsWeighted(row: Submission) {
    row.totalWeight.Some? && row.totalWeight.value > 0
  }

  /** An absent weight counts as nothing, as `Number(null)` does. */
  function EarnedBy(row: Submission): nat {
    if row.earnedWeight.Some? then row.earnedWeight.value else 0
  }

  function MarkOf(attempts: seq<Submission>, override: Option<Override>): Mark
    requires attempts != []
  {
    var best := Best(attempts);
    var weighted := IsWeighted(best);
    var auto := if weighted then EarnedBy(best) else MaxPassed(attempts);
    var autoMax := if weighted then best.totalWeight.value else MaxTotal(attempts);
    var penalty := if best.isLate then best.penalty else 0;
    Mark(auto, autoMax, weighted, best.isLate, penalty,
         if override.Some? then override.value.score else Penalised(auto, penalty),
         if override.Some? then override.value.maxScore else autoMax)
  }

  function OverrideOf(s: State, cell: Cell): Option<Override> {
    if cell in s.grants.overrides then Some(s.grants.overrides[cell]) else None
  }

  /** The line of the results table for this student and problem, if they attempted it. */
  function ResultOf(s: State, cell: Cell): Option<Mark> {
    var attempts := Attempts(s.work.submissions, cell);
    if attempts == [] then None else Some(MarkOf(attempts, OverrideOf(s, cell)))
  }

  // ---------------------------------------------------------------------------
  // The best attempt
  // ---------------------------------------------------------------------------

  ghost predicate IsFirstBest(list: seq<Submission>, i: nat) {
    i < |list| && (forall j :: 0 <= j < |list| ==> !Beats(list[j], list[i])) &&
    forall j :: 0 <= j < i ==> Beats(list[i], list[j])
  }

  lemma {:induction false} BestIsFirstBest(list: seq<Submission>) returns (i: nat)
    requires list != []
    ensures IsFirstBest(list, i) && list[i] == Best(list)
    ensures MaxPassed(list) == Best(list).passed
  {
    if |list| == 1 {
      i := 0;
    } else {
      i := BestIsFirstBest(list[..|list| - 1]);
      if Beats(list[|list| - 1], list[i]) {
        i := |list| - 1;
      }
    }
  }

  /** The best attempt is the only one that nothing beats and that beats all before it. */
  lemma BestIsUnique(list: seq<Submission>, i: nat)
    requires IsFirstBest(list, i)
    ensures Best(list) == list[i] && MaxPassed(list) == list[i].passed
  {
    var k := BestIsFirstBest(list);
  }

  /** Nothing after index `i` of the second list beats it, and up to there the lists agree. */
  lemma BestSurvives(list: seq<Submission>, list': seq<Submission>, i: nat)
    requires IsFirstBest(list, i) && i < |list'| && list'[i] == list[i]
    requires forall j :: 0 <= j < |list'| && j != i ==> !Beats(list'[j], list[i])
    requires forall j :: 0 <= j < i ==> Beats(list[i], list'[j])
    ensures Best(list') == Best(list) && MaxPassed(list') == MaxPassed(list)
  {
    BestIsUnique(list, i);
    BestIsUnique(list', i);
  }

  /** The parts of a mark that a later attempt must not move. */
  ghost predicate SameGrade(a: Mark, b: Mark) {
    a.autoScore == b.autoScore && a.finalScore == b.finalScore && a.isLate == b.isLate && a.penalty == b.penalty
  }

  /** A further attempt, made no earlier, that passes no more cases than the best one changes no grade. */
  lemma {:induction false} LaterAttemptKeepsGrade(
    attempts: seq<Submission>, next: Submission, override: Option<Override>)
    requires attempts != [] && next.passed <= Best(attempts).passed && Best(attempts).at <= next.at
    ensures SameGrade(MarkOf(attempts + [next], override), MarkOf(attempts, override))
    ensures IsWeighted(Best(attempts)) || next.total <= MaxTotal(attempts) ==>
              MarkOf(attempts + [next], override) == MarkOf(attempts, override)
  {
    hide Best, MaxPassed, Penalised;
    var i := BestIsFirstBest(attempts);
    BestSurvives(attempts, attempts + [next], i);
    assert (attempts + [next])[..|attempts|] == attempts;
  }

  /** Nor does grading an attempt that is not the best one, when it comes out no better. */
  lemma GradingAnotherKeepsGrade(
    attempts: seq<Submission>, i: nat, j: nat, graded: Submission, override: Option<Override>)
    requires IsFirstBest(attempts, i) && j < |attempts| && j != i
    requires if j < i then Beats(attempts[i], graded) else !Beats(graded, attempts[i])
    ensures SameGrade(MarkOf(attempts[j := graded], override), MarkOf(attempts, override))
  {
    hide Best, MaxPassed, Penalised, MaxTotal;
    BestSurvives(attempts, attempts[j := graded], i);
  }

  /** What an attempt is worth by itself: the weight it earned, or the cases it passed. */
  function WorthOf(row: Submission): int {
    if IsWeighted(row) then EarnedBy(row) else row.passed
  }

  function PenaltyOf(row: Submission): int {
    if row.isLate then row.penalty else 0
  }

  /**
   * A later attempt lowers the grade exactly when it passes more cases than the best one and yet,
   * its own penalty taken from its own worth, comes to less. The comment beside the query says this
   * does not happen.
   */
  lemma WhenResubmissionDocks(attempts: seq<Submission>, next: Submission)
    requires attempts != [] && Best(attempts).at <= next.at
    ensures var best := Best(attempts);
            MarkOf(attempts + [next], None).finalScore < MarkOf(attempts, None).finalScore <==>
            next.passed > best.passed &&
            Penalised(WorthOf(next), PenaltyOf(next)) < Penalised(WorthOf(best), PenaltyOf(best))
  {
    hide Best, MaxPassed, MaxTotal, Penalised;
    var i := BestIsFirstBest(attempts);
    if next.passed <= Best(attempts).passed {
      LaterAttemptKeepsGrade(attempts, next, None);
    } else {
      var longer := attempts + [next];
      assert longer[|attempts|] == next;
      BestIsUnique(longer, |attempts|);
    }
  }

  /** Five of ten on time, then six of ten at half price: the grade falls from five to three. */
  lemma ResubmissionCanDock(onTime: Submission, late: Submission)
    requires onTime.passed == 5 && !onTime.isLate && onTime.totalWeight.None?
    requires late.passed == 6 && late.isLate && late.penalty == 50 && late.totalWeight.None?
    requires onTime.at <= late.at
    ensures MarkOf([onTime], None).finalScore == 5
    ensures MarkOf([onTime, late], None).finalScore == 3
  {
    assert [onTime, late][..1] == [onTime];
    assert Best([onTime]) == onTime && MaxPassed([onTime]) == 5;
    assert Best([onTime, late]) == late && MaxPassed([onTime, late]) == 6;
  }

  /** Attempts are compared by cases passed, not by weight: the better weight can lose. */
  lemma HeavierAttemptCanLose(many: Submission, heavy: Submission)
    requires many.passed == 3 && many.earnedWeight == Some(3) && many.totalWeight == Some(100) && !many.isLate
    requires heavy.passed == 2 && heavy.earnedWeight == Some(97) && heavy.totalWeight == Some(100)
    ensures MarkOf([heavy, many], None).finalScore == 3
  {
    assert [heavy, many][..1] == [heavy];
    assert Best([heavy]) == heavy;
    assert Best([heavy, many]) == many;
  }

  /** When more cases never mean less weight, the automatic score is the largest weight earned. */
  lemma BestWeightWins(attempts: seq<Submission>, k: nat)
    requires k < |attempts| && IsWeighted(Best(attempts))
    requires forall i, j :: 0 <= i < |attempts| && 0 <= j < |attempts| && attempts[i].passed <= attempts[j].passed ==>
               EarnedBy(attempts[i]) <= EarnedBy(attempts[j])
    ensures EarnedBy(attempts[k]) <= MarkOf(attempts, None).autoScore
  {
    hide Best, MaxPassed, Penalised, MaxTotal, EarnedBy;
    var i := BestIsFirstBest(attempts);
    assert !Beats(attempts[k], attempts[i]);
  }

  // ---------------------------------------------------------------------------
  // The penalty
  // ---------------------------------------------------------------------------

  lemma Products(a: int, x: int, y: int)
    requires a >= 0 && x <= y
    ensures a * x <= a * y
  {
  }

  /** The penalised score is the least whole number that loses no more than the stated percentage. */
  lemma NeverDocksMoreThanStated(auto: int, penalty: int, score: int)
    ensures score >= Penalised(auto, penalty) <==> 100 * (auto - score) <= auto * penalty
  {
    var kept := auto * (100 - penalty);
    assert kept == 100 * auto - auto * penalty;
    assert 100 * Penalised(auto, penalty) <= kept + 99 < 100 * Penalised(auto, penalty) + 100;
  }

  lemma PenalisedInRange(auto: int, penalty: int)
    requires auto >= 0 && 0 <= penalty <= 100
    ensures 0 <= Penalised(auto, penalty) <= auto
    ensures penalty == 0 ==> Penalised(auto, penalty) == auto
  {
    Products(auto, 0, penalty);
    Products(auto, penalty, 100);
    NeverDocksMoreThanStated(auto, penalty, auto);
    NeverDocksMoreThanStated(auto, penalty, -1);
    NeverDocksMoreThanStated(auto, penalty, auto - 1);
  }

  /** A better score or a smaller penalty never yields less. */
  lemma PenalisedMonotone(auto: int, auto': int, penalty: int, penalty': int)
    requires 0 <= auto <= auto' && 0 <= penalty' <= penalty <= 100
    ensures Penalised(auto, penalty) <= Penalised(auto', penalty')
  {
    var r := Penalised(auto', penalty');
    NeverDocksMoreThanStated(auto', penalty', r);
    NeverDocksMoreThanStated(auto, penalty, r);
    Products(auto, penalty', penalty);
    Products(100 - penalty', auto, auto');
    hide Penalised;
    assert 100 * (auto - r) <= auto * penalty by {
      assert auto' * penalty' == 100 * auto' - (100 - penalty') * auto';
      assert auto * penalty' == 100 * auto - (100 - penalty') * auto;
    }
  }

  // ---------------------------------------------------------------------------
  // Overrides, and what else can move a mark
  // ---------------------------------------------------------------------------

  lemma OverrideStep(s: State, u: UserId, cell: Cell, o: Override)
    ensures var (s', r) := StepSetOverride(s, u, cell, o);
            s'.work == s.work && s'.plan == s.plan && s'.people == s.people && s'.school == s.school &&
            (r == Done ==> s'.grants.overrides == s.grants.overrides[cell := o])
    ensures var (s', r) := StepDropOverride(s, u, cell);
            s'.work == s.work && (r == Done ==> s'.grants.overrides == s.grants.overrides - {cell})
  {
  }

  /**
   * An accepted override is the final score and touches nobody else's mark; removing it, by any
   * teacher of the course, brings back the mark there was without it.
   */
  lemma OverrideReplacesAndRestores(s: State, u: UserId, cell: Cell, o: Override, u2: UserId, other: Cell)
    requires Step(s, SetOverride(u, cell, o)).1 == Done
    ensures var s1 := Step(s, SetOverride(u, cell, o)).0;
            (ResultOf(s1, cell).Some? <==> ResultOf(s, cell).Some?) &&
            (ResultOf(s1, cell).Some? ==>
               ResultOf(s1, cell).value ==
               ResultOf(s, cell).value.(finalScore := o.score, finalMax := o.maxScore)) &&
            (other != cell ==> ResultOf(s1, other) == ResultOf(s, other)) &&
            (Step(s1, DropOverride(u2, cell)).1 == Done ==>
               ResultOf(Step(s1, DropOverride(u2, cell)).0, cell) ==
               (if Attempts(s.work.submissions, cell) == [] then None
                else Some(MarkOf(Attempts(s.work.submissions, cell), None))) &&
               (OverrideOf(s, cell).None? ==>
                  ResultOf(Step(s1, DropOverride(u2, cell)).0, cell) == ResultOf(s, cell)))
  {
    hide Attempts, Best, MaxPassed, MaxTotal, Penalised, StepSetOverride, StepDropOverride;
    OverrideStep(s, u, cell, o);
    OverrideStep(Step(s, SetOverride(u, cell, o)).0, u2, cell, o);
  }

  lemma {:induction false} AttemptsConcat(a: seq<Submission>, b: seq<Submission>, cell: Cell)
    ensures Attempts(a + b, cell) == Attempts(a, cell) + Attempts(b, cell)
  {
    if a == [] {
      assert a + b == b;
    } else {
      assert (a + b)[1..] == a[1..] + b;
      AttemptsConcat(a[1..], b, cell);
    }
  }

  lemma {:induction false} AttemptsAfterDelete(list: seq<Submission>, p: ProblemId, cell: Cell)
    requires cell.problem != p
    ensures Attempts(KeepSubmissions(list, p), cell) == Attempts(list, cell)
  {
    if list == [] {
    } else {
      AttemptsAfterDelete(list[1..], p, cell);
      var rest := KeepSubmissions(list[1..], p);
      assert ([list[0]] + rest)[1..] == rest;
    }
  }

  lemma {:induction false} AttemptsAfterGrade(list: seq<Submission>, id: nat, o: Outcome, cell: Cell)
    requires forall row :: row in list && row.id == id ==> !IsAttempt(row, cell)
    ensures Attempts(GradeRows(list, id, o), cell) == Attempts(list, cell)
  {
    if list == [] {
    } else {
      AttemptsAfterGrade(list[1..], id, o, cell);
      assert list[0] in list;
      assert GradeRows(list, id, o)[1..] == GradeRows(list[1..], id, o);
    }
  }

  /** The requests that may move this cell's mark. */
  ghost predicate MovesMark(s: State, op: Op, cell: Cell) {
    match op
    case Submit(u, p, exam, _, _) => u == cell.user && p == cell.problem && exam == Some(cell.exam)
    case Grade(id, _) => exists row :: row in s.work.submissions && row.id == id && IsAttempt(row, cell)
    case SetOverride(_, c, _) => c == cell
    case DropOverride(_, c) => c == cell
    case DeleteProblem(_, p) => p == cell.problem
    case _ => false
  }

  /** Requests other than a submission, a grading and a deletion leave every row of work alone. */
  lemma OtherStepsKeepRows(s: State, op: Op)
    requires !op.Submit? && !op.Grade? && !op.DeleteProblem?
    ensures Step(s, op).0.work.submissions == s.work.submissions
    ensures !IsCourseOp(op) ==> Step(s, op).0.grants.overrides == s.grants.overrides
  {
    if IsCourseOp(op) {
      hide StepCourse;
      CourseOpTables(s, op);
    } else {
      hide Assign, CanAccessExam, RowsOf, AllInCourse, AllEnrolledStudents, PassesEditSchema, OnPaper, Distinct;
      if op.OpenExam? {
        AssignEffect(s, op.exam, op.user, op.draws);
      }
    }
  }

  lemma CourseStepsKeepOverride(s: State, op: Op, cell: Cell)
    requires IsCourseOp(op) && !MovesMark(s, op, cell)
    ensures OverrideOf(Step(s, op).0, cell) == OverrideOf(s, cell)
  {
    hide CanAccessProblem, OwnsProblem, Distinctly, Newcomers, Unknowns, NoStudents, StudentsNamed,
         TeachesCourse, OwnsCourse, OwnsExam;
  }

  lemma SubmitKeepsOthers(s: State, op: Op, cell: Cell)
    requires op.Submit? && !MovesMark(s, op, cell)
    ensures Attempts(Step(s, op).0.work.submissions, cell) == Attempts(s.work.submissions, cell)
    ensures Step(s, op).0.grants == s.grants
  {
    hide StepSubmit, Attempts, Stamp;
    SubmitShape(s, op);
    var list, list' := s.work.submissions, Step(s, op).0.work.submissions;
    if op.user in s.people.users && |list'| == |list| + 1 {
      var row := list'[|list|];
      assert list' == list + [row];
      NewRowIsOp(s, op);
      AttemptsConcat(list, [row], cell);
      NoAttempt(row, cell);
    }
  }

  lemma NoAttempt(row: Submission, cell: Cell)
    requires !IsAttempt(row, cell)
    ensures Attempts([row], cell) == []
  {
  }

  /** The row a submission adds: its own student, problem and exam, the next id, the time, no case passed. */
  lemma NewRowIsOp(s: State, op: Op)
    requires op.Submit?
    ensures var list, list' := s.work.submissions,
                StepSubmit(s, op.user, op.problem, op.forExam, op.enqueued, op.draws).0.work.submissions;
            |list'| > |list| ==>
              var row := list'[|list|];
              row.user == op.user && row.problem == op.problem && row.exam == op.forExam &&
              row.id == s.work.nextSubmission && row.at == s.now
  {
    hide Assign, CanAccessProblem, CanAccessExam, WindowOf, OnPaper;
    if op.forExam.Some? {
      AssignEffect(s, op.forExam.value, op.user, op.draws);
    }
  }

  /**
   * A mark moves only by the student's own submission, the grading of one of their attempts, an
   * override, or the deletion of the problem. No later change of the exam, its roster, its
   * penalty, its times or anyone's allowance moves it.
   */
  lemma MarksStandStill(s: State, op: Op, cell: Cell)
    requires !MovesMark(s, op, cell)
    ensures ResultOf(Step(s, op).0, cell) == ResultOf(s, cell)
  {
    hide Step, MarkOf, Attempts, OverrideOf;
    if op.Submit? {
      SubmitKeepsOthers(s, op, cell);
      SameGrants(s, Step(s, op).0, cell);
    } else if op.Grade? {
      GradeKeepsOthers(s, op, cell);
    } else if op.DeleteProblem? {
      DeleteKeepsOthers(s, op, cell);
    } else {
      OtherStepsKeepRows(s, op);
      if IsCourseOp(op) {
        CourseStepsKeepOverride(s, op, cell);
      } else {
        SameGrants(s, Step(s, op).0, cell);
      }
    }
  }

  lemma SameGrants(s: State, s': State, cell: Cell)
    requires s'.grants.overrides == s.grants.overrides
    ensures OverrideOf(s', cell) == OverrideOf(s, cell)
  {
  }

  lemma GradeKeepsOthers(s: State, op: Op, cell: Cell)
    requires op.Grade? && !MovesMark(s, op, cell)
    ensures Attempts(Step(s, op).0.work.submissions, cell) == Attempts(s.work.submissions, cell)
    ensures OverrideOf(Step(s, op).0, cell) == OverrideOf(s, cell)
  {
    hide Attempts;
    AttemptsAfterGrade(s.work.submissions, op.submission, op.outcome, cell);
  }

  lemma DeleteKeepsOthers(s: State, op: Op, cell: Cell)
    requires op.DeleteProblem? && !MovesMark(s, op, cell)
    ensures Attempts(Step(s, op).0.work.submissions, cell) == Attempts(s.work.submissions, cell)
    ensures OverrideOf(Step(s, op).0, cell) == OverrideOf(s, cell)
  {
    hide Attempts, OwnsProblem, WithoutProblem;
    AttemptsAfterDelete(s.work.submissions, op.problem, cell);
  }

  // ---------------------------------------------------------------------------
  // A resubmission, from its acceptance to its grading
  // ---------------------------------------------------------------------------

  /** Grading the newest row leaves the others as they were. */
  lemma GradeNewest(s: State, row: Submission, o: Outcome)
    requires SubmissionsOk(s) && row.id == s.work.nextSubmission
    ensures GradeRows(s.work.submissions + [row], row.id, o) == s.work.submissions + [Graded(row, o)]
    ensures GradeRows(s.work.submissions, row.id, o) == s.work.submissions
  {
  }

  lemma BestNotInFuture(s: State, cell: Cell)
    requires SubmissionsOk(s) && Attempts(s.work.submissions, cell) != []
    ensures Best(Attempts(s.work.submissions, cell)).at <= s.now
  {
    hide Best, MaxPassed, Attempts;
    var attempts := Attempts(s.work.submissions, cell);
    var i := BestIsFirstBest(attempts);
    AttemptsAreRows(s.work.submissions, cell, attempts[i]);
  }

  lemma OneAttempt(row: Submission, cell: Cell)
    requires IsAttempt(row, cell)
    ensures Attempts([row], cell) == [row]
  {
  }

  /** The rows after a submission and the grading of what it stored, if it stored anything. */
  lemma SubmittedAndGraded(s: State, op: Op, o: Outcome, cell: Cell)
    requires SubmissionsOk(s) && op.Submit? && op.forExam == Some(cell.exam)
    requires cell == Cell(cell.exam, op.user, op.problem)
    ensures var list := s.work.submissions;
            var list' := GradeRows(Step(s, op).0.work.submissions, s.work.nextSubmission, o);
            Attempts(list', cell) == Attempts(list, cell) ||
            exists row: Submission :: row.at == s.now &&
              Attempts(list', cell) == Attempts(list, cell) + [Graded(row, o)]
  {
    hide StepSubmit, Attempts, SubmissionsOk;
    SubmitShape(s, op);
    NewRowIsOp(s, op);
    var list, more := s.work.submissions, Step(s, op).0.work.submissions;
    if |more| == |list| + 1 {
      var row := more[|list|];
      assert more == list + [row];
      GradeNewest(s, row, o);
      AttemptsConcat(list, [Graded(row, o)], cell);
      OneAttempt(Graded(row, o), cell);
    } else {
      GradeNewest(s, Submission(s.work.nextSubmission, 0, 0, None, false, 0, 0, Queued, 0, 0, None, None), o);
    }
  }

  lemma ResubmissionKeepsAttempts(s: State, op: Op, o: Outcome, cell: Cell, override: Option<Override>)
    requires SubmissionsOk(s) && op.Submit? && op.forExam == Some(cell.exam)
    requires cell == Cell(cell.exam, op.user, op.problem)
    requires Attempts(s.work.submissions, cell) != []
    requires o.passed <= Best(Attempts(s.work.submissions, cell)).passed
    ensures var list' := GradeRows(Step(s, op).0.work.submissions, s.work.nextSubmission, o);
            Attempts(list', cell) != [] &&
            SameGrade(MarkOf(Attempts(list', cell), override), MarkOf(Attempts(s.work.submissions, cell), override))
  {
    hide Attempts, Best, MarkOf, Step, SubmissionsOk, GradeRows, Graded;
    SubmittedAndGraded(s, op, o, cell);
    BestNotInFuture(s, cell);
    var attempts := Attempts(s.work.submissions, cell);
    var list' := GradeRows(Step(s, op).0.work.submissions, s.work.nextSubmission, o);
    if Attempts(list', cell) != attempts {
      var row: Submission :| row.at == s.now && Attempts(list', cell) == attempts + [Graded(row, o)];
      GradedShape(row, o);
      LaterAttemptKeepsGrade(attempts, Graded(row, o), override);
    }
  }

  /**
   * In every reachable state: a resubmission that turns out to pass no more cases than the best
   * attempt leaves the student's score, lateness and penalty as they were.
   */
  lemma ResubmissionKeepsGrade(s0: State, ops: seq<Op>, op: Op, o: Outcome, e: ExamId)
    requires IsInitial(s0) && op.Submit? && op.forExam == Some(e)
    requires var cell := Cell(e, op.user, op.problem);
             ResultOf(Exec(s0, ops), cell).Some? &&
             o.passed <= Best(Attempts(Exec(s0, ops).work.submissions, cell)).passed
    ensures var s, cell := Exec(s0, ops), Cell(e, op.user, op.problem);
            var s' := Step(Step(s, op).0, Grade(s.work.nextSubmission, o)).0;
            ResultOf(s', cell).Some? && SameGrade(ResultOf(s', cell).value, ResultOf(s, cell).value)
  {
    InitialInv(s0);
    RunInv(s0, ops);
    var s, cell := Exec(s0, ops), Cell(e, op.user, op.problem);
    hide Exec, Step, Attempts, Best, MarkOf, ResultOf, OverrideOf, SubmissionsOk, GradeRows;
    ResubmissionKeepsAttempts(s, op, o, cell, OverrideOf(s, cell));
    SubmitLeavesGrants(s, op);
    ResultIs(s, cell);
    GradedResult(Step(s, op).0, s.work.nextSubmission, o, cell);
    SameGrants(s, Step(s, op).0, cell);
  }

  lemma ResultIs(s: State, cell: Cell)
    ensures ResultOf(s, cell) ==
            if Attempts(s.work.submissions, cell) == [] then None
            else Some(MarkOf(Attempts(s.work.submissions, cell), OverrideOf(s, cell)))
  {
  }

  lemma GradedResult(s: State, id: nat, o: Outcome, cell: Cell)
    ensures var attempts := Attempts(GradeRows(s.work.submissions, id, o), cell);
            ResultOf(Step(s, Grade(id, o)).0, cell) ==
            if attempts == [] then None else Some(MarkOf(attempts, OverrideOf(s, cell)))
  {
    hide Attempts, GradeRows, MarkOf;
  }

  lemma GradedShape(row: Submission, o: Outcome)
    ensures Graded(row, o).at == row.at && Graded(row, o).passed == o.passed
  {
  }

  lemma SubmitLeavesGrants(s: State, op: Op)
    requires op.Submit?
    ensures Step(s, op).0.grants == s.grants
  {
    hide StepSubmit;
    SubmitShape(s, op);
  }

  // ---------------------------------------------------------------------------
  // In every run
  // ---------------------------------------------------------------------------

  lemma AcceptedPenalty(s: State, op: Op, row: Submission)
    requires Inv(s) && AcceptedBy(s, op, row)
    ensures 0 <= row.penalty <= 100 && (!row.isLate ==> row.penalty == 0)
  {
  }

  /** Every stored penalty is a percentage. */
  lemma PenaltyIsPercentage(s0: State, ops: seq<Op>, row: Submission)
    requires IsInitial(s0) && row in Exec(s0, ops).work.submissions
    ensures 0 <= row.penalty <= 100 && (!row.isLate ==> row.penalty == 0)
  {
    hide Step, AcceptedBy, Inv;
    EverySubmissionWasAccepted(s0, ops, row);
    var i: nat :| AcceptedAt(s0, ops, i, row);
    InitialInv(s0);
    RunInv(s0, ops[..i]);
    AcceptedPenalty(Exec(s0, ops[..i]), ops[i], row);
  }

  /** In every reachable state a mark without an override lies between nothing and the automatic score. */
  lemma MarksInRange(s0: State, ops: seq<Op>, cell: Cell)
    requires IsInitial(s0) && ResultOf(Exec(s0, ops), cell).Some? && OverrideOf(Exec(s0, ops), cell).None?
    ensures var mark := ResultOf(Exec(s0, ops), cell).value;
            0 <= mark.finalScore <= mark.autoScore &&
            100 * (mark.autoScore - mark.finalScore) <= mark.autoScore * mark.penalty &&
            (!mark.isLate ==> mark.finalScore == mark.autoScore)
  {
    hide Exec, Attempts, Best, MaxPassed, MaxTotal, Penalised;
    var attempts := Attempts(Exec(s0, ops).work.submissions, cell);
    var i := BestIsFirstBest(attempts);
    AttemptsAreRows(Exec(s0, ops).work.submissions, cell, attempts[i]);
    PenaltyIsPercentage(s0, ops, attempts[i]);
    var mark := MarkOf(attempts, None);
    PenalisedInRange(mark.autoScore, mark.penalty);
    NeverDocksMoreThanStated(mark.autoScore, mark.penalty, mark.finalScore);
  }
}
