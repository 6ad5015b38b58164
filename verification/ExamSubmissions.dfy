/** What a submission was accepted under, and how the exam page and the submit endpoint agree. */
module ExamSubmissions {
  import opened Lists
  import opened Options
  import opened ExamModel
  import opened ExamInvariants
  import opened ExamSafety

  // ---------------------------------------------------------------------------
  // The window
  // ---------------------------------------------------------------------------

  predicate IsOpen(w: Window) {
    w.OnTime? || w.Late?
  }

  /** Open exactly from the start to the end of the late window, and late exactly past the deadline. */
  lemma WindowExact(exam: Exam, extra: int, now: int)
    requires exam.lateWindow >= 0
    ensures IsOpen(WindowAt(exam, extra, now))
       <==> exam.start <= now <= exam.end + extra * MINUTE + exam.lateWindow * MINUTE
    ensures WindowAt(exam, extra, now).OnTime? <==> exam.start <= now <= exam.end + extra * MINUTE
    ensures WindowAt(exam, extra, now).Late? ==> WindowAt(exam, extra, now).penalty == exam.latePenalty
  {
  }

  /** More extra time never turns open into closed, nor on time into late. */
  lemma MoreTimeNeverHurts(exam: Exam, extra: int, more: int, now: int)
    requires extra <= more && exam.lateWindow >= 0
    ensures IsOpen(WindowAt(exam, extra, now)) ==> IsOpen(WindowAt(exam, more, now))
    ensures WindowAt(exam, extra, now).OnTime? ==> WindowAt(exam, more, now).OnTime?
  {
    assert extra * MINUTE <= more * MINUTE;
  }

  // ---------------------------------------------------------------------------
  // The exam page and the submit endpoint
  // ---------------------------------------------------------------------------

  lemma AssignedOnPaper(s: State, e: ExamId, u: UserId, js: seq<nat>, p: ProblemId)
    requires Inv(s) && p in Assign(s, e, u, js).1
    ensures OnPaper(s, e, p)
  {
  }

  /** What a student is shown on a started exam is what they were assigned. */
  lemma ShownIsAssigned(s: State, u: UserId, e: ExamId, js: seq<nat>, p: ProblemId)
    requires Inv(s) && IsStudent(s, u) && CanAccessExam(s, u, e) && HasStarted(s, e)
    ensures var (s', r) := Step(s, OpenExam(u, e, js));
            s' == Assign(s, e, u, js).0 && r.Shown? &&
            (p in PaperIds(r.rows) <==> p in Assign(s, e, u, js).1)
  {
    hide Inv, Assign, RowsOf, CanAccessExam, OnPaper;
    var dealt := Assign(s, e, u, js).1;
    RowsOfExact(s.plan.exams[e].paper, dealt, p);
    if p in dealt {
      AssignedOnPaper(s, e, u, js, p);
      OnPaperIds(s, e, p);
    }
  }

  lemma OnPaperIds(s: State, e: ExamId, p: ProblemId)
    requires OnPaper(s, e, p)
    ensures p in PaperIds(s.plan.exams[e].paper)
  {
  }

  /** The tables that decide who may see what are untouched by opening an exam. */
  lemma OpeningKeepsAccess(s: State, u: UserId, e: ExamId, js: seq<nat>, p: ProblemId)
    ensures var s' := Assign(s, e, u, js).0;
            (CanAccessProblem(s', u, p) <==> CanAccessProblem(s, u, p)) &&
            (CanAccessExam(s', u, e) <==> CanAccessExam(s, u, e)) && WindowOf(s', e, u) == WindowOf(s, e, u)
  {
    hide Assign;
    AssignEffect(s, e, u, js);
    var s' := Assign(s, e, u, js).0;
    assert s'.plan == s.plan && s'.school == s.school && s'.bank == s.bank && s'.grants == s.grants;
    assert forall f :: OnPaper(s', f, p) <==> OnPaper(s, f, p);
    assert forall f :: Sits(s', f, u) <==> Sits(s, f, u);
    assert forall f :: HasStarted(s', f) <==> HasStarted(s, f);
  }

  /**
   * All paths agree: once a student has opened a started exam, the problems on their page can all
   * be read, and submission answers "not part of your exam" for exactly the others.
   */
  lemma PathsAgree(s: State, u: UserId, e: ExamId, js: seq<nat>, p: ProblemId, enqueued: bool, ks: seq<nat>)
    requires Inv(s) && IsStudent(s, u) && CanAccessExam(s, u, e) && HasStarted(s, e)
    ensures Step(s, OpenExam(u, e, js)).1.Shown?
    ensures var (s', page) := Step(s, OpenExam(u, e, js));
            var answer := Step(s', Submit(u, p, Some(e), enqueued, ks)).1;
            var shown := p in PaperIds(page.rows);
            (shown ==> CanAccessProblem(s', u, p)) &&
            (shown ==> answer != NotPartOfExam && answer != ProblemNotFound) &&
            (CanAccessProblem(s', u, p) && !IsArchived(s', s'.bank.problems[p].course) && IsOpen(WindowOf(s', e, u)) ==>
              (answer == NotPartOfExam <==> !shown) &&
              (shown && s'.bank.problems[p].cases > 0 ==> answer.Accepted? || answer.Unavailable?))
  {
    ShownIsAssigned(s, u, e, js, p);
    OpeningKeepsAccess(s, u, e, js, p);
    AssignSettles(s, e, u, js, ks);
    var s' := Assign(s, e, u, js).0;
    if p in Assign(s, e, u, js).1 {
      AssignedOnPaper(s, e, u, js, p);
      StartedPaperAccessible(s, u, e, p);
    }
    AssignEffect(s, e, u, js);
    SubmitAnswer(s', u, p, e, enqueued, ks);
  }

  /** The submit endpoint's answer for an exam, as a table. */
  lemma {:induction false} SubmitAnswer(s: State, u: UserId, p: ProblemId, e: ExamId, enqueued: bool, ks: seq<nat>)
    requires u in s.people.users
    ensures var answer := Step(s, Submit(u, p, Some(e), enqueued, ks)).1;
            (answer == ProblemNotFound <==> !CanAccessProblem(s, u, p)) &&
            (answer == NotPartOfExam ==> p !in Assign(s, e, u, ks).1) &&
            (CanAccessProblem(s, u, p) && !IsArchived(s, s.bank.problems[p].course) &&
             CanAccessExam(s, u, e) && IsOpen(WindowOf(s, e, u)) ==>
               answer == (if p !in Assign(s, e, u, ks).1 then NotPartOfExam
                          else if s.bank.problems[p].cases == 0 then NoTestCases
                          else if enqueued then Accepted(s.work.nextSubmission) else Unavailable))
  {
    hide Assign, CanAccessProblem, CanAccessExam, OnPaper;
    if CanAccessProblem(s, u, p) {
      AccessibleExists(s, u, p);
      AssignEffect(s, e, u, ks);
    }
  }

  /** The agreement holds in every state any run can reach. */
  lemma PathsAgreeInEveryRun(
    s0: State, ops: seq<Op>, u: UserId, e: ExamId, js: seq<nat>, p: ProblemId, enqueued: bool, ks: seq<nat>)
    requires IsInitial(s0) && IsStudent(Exec(s0, ops), u)
    requires CanAccessExam(Exec(s0, ops), u, e) && HasStarted(Exec(s0, ops), e)
    ensures var (s', page) := Step(Exec(s0, ops), OpenExam(u, e, js));
            var answer := Step(s', Submit(u, p, Some(e), enqueued, ks)).1;
            page.Shown? &&
            (p in PaperIds(page.rows) ==> CanAccessProblem(s', u, p) && answer != NotPartOfExam) &&
            (p !in PaperIds(page.rows) && CanAccessProblem(s', u, p) &&
             !IsArchived(s', s'.bank.problems[p].course) && IsOpen(WindowOf(s', e, u)) ==>
               answer == NotPartOfExam)
  {
    InitialInv(s0);
    RunInv(s0, ops);
    var s := Exec(s0, ops);
    hide Exec, Step, Inv, CanAccessProblem, CanAccessExam;
    PathsAgree(s, u, e, js, p, enqueued, ks);
  }

  lemma StepTimeForward(s: State, op: Op)
    ensures s.now <= Step(s, op).0.now
  {
    if IsCourseOp(op) {
      hide StepCourse;
      CourseOpTables(s, op);
    } else if op.Submit? {
      hide StepSubmit;
      SubmitShape(s, op);
    } else {
      hide Assign, CanAccessExam, RowsOf, AllInCourse, AllEnrolledStudents, PassesEditSchema, OnPaper, Distinct;
      if op.OpenExam? {
        AssignEffect(s, op.exam, op.user, op.draws);
      }
    }
  }

  lemma {:induction false} RunTimeForward(s: State, ops: seq<Op>)
    ensures s.now <= Exec(s, ops).now
  {
    hide Step;
    if ops == [] {
    } else {
      RunTimeForward(s, ops[..|ops| - 1]);
      StepTimeForward(Exec(s, ops[..|ops| - 1]), ops[|ops| - 1]);
    }
  }

  /**
   * The agreement outlasts the page: over any run that leaves the exam, its roster and its problems
   * alone, submission still answers "not part of your exam" for exactly the problems that were not
   * shown, and whoever may still open the exam may still read those that were.
   */
  lemma PathsAgreeLater(
    s: State, u: UserId, e: ExamId, js: seq<nat>, ops: seq<Op>, p: ProblemId, enqueued: bool, ks: seq<nat>)
    requires Inv(s) && IsStudent(s, u) && CanAccessExam(s, u, e) && HasStarted(s, e) && NoneTouchDeals(ops, e)
    ensures Step(s, OpenExam(u, e, js)).1.Shown?
    ensures var (s', page) := Step(s, OpenExam(u, e, js));
            var later := Exec(s', ops);
            var answer := Step(later, Submit(u, p, Some(e), enqueued, ks)).1;
            var shown := p in PaperIds(page.rows);
            (shown && CanAccessExam(later, u, e) ==> CanAccessProblem(later, u, p)) &&
            (shown ==> answer != NotPartOfExam) &&
            (CanAccessProblem(later, u, p) && !IsArchived(later, later.bank.problems[p].course) &&
             CanAccessExam(later, u, e) && IsOpen(WindowOf(later, e, u)) ==>
               (answer == NotPartOfExam <==> !shown))
  {
    ShownIsAssigned(s, u, e, js, p);
    AssignInv(s, e, u, js);
    var s' := Assign(s, e, u, js).0;
    AssignEffect(s, e, u, js);
    var later := Exec(s', ops);
    RunInv(s', ops);
    RunKeepsPeople(s', ops);
    RunTimeForward(s', ops);
    RunKeepsDeal(s', ops, e, u);
    DealIsStable(s, e, u, js, ops, ks);
    hide Inv, Exec, Assign, Step, DealOf, IsDealt, CanAccessProblem, CanAccessExam, OnPaper;
    if p in Assign(s, e, u, js).1 {
      AssignedOnPaper(later, e, u, ks, p);
      if CanAccessExam(later, u, e) {
        StartedPaperAccessible(later, u, e, p);
      }
    }
    SubmitAnswer(later, u, p, e, enqueued, ks);
  }

  // ---------------------------------------------------------------------------
  // Where a submission comes from
  // ---------------------------------------------------------------------------

  /** The part of a row that is written when it is accepted. */
  function Stamp(row: Submission): Submission {
    row.(status := Queued, passed := 0, total := 0, earnedWeight := None, totalWeight := None)
  }

  ghost predicate HasStamp(list: seq<Submission>, row: Submission) {
    exists i :: 0 <= i < |list| && Stamp(list[i]) == Stamp(row)
  }

  /** The lateness and penalty an exam's row has to carry, by the rules in force at `s.now`. */
  ghost predicate StampedByRules(s: State, u: UserId, e: ExamId, row: Submission) {
    e in s.plan.exams &&
    var exam := s.plan.exams[e];
    var deadline := exam.end + ExtraMinutes(s, e, u) * MINUTE;
    exam.start <= s.now <= deadline + exam.lateWindow * MINUTE &&
    (row.isLate <==> s.now > deadline) &&
    row.penalty == if row.isLate then exam.latePenalty else 0
  }

  /** In state `s`, request `op` was this row's submission, and every rule allowed it. */
  ghost predicate AcceptedBy(s: State, op: Op, row: Submission) {
    op.Submit? && op.user == row.user && op.problem == row.problem && op.forExam == row.exam &&
    row.at == s.now && CanAccessProblem(s, row.user, row.problem) &&
    !IsArchived(s, s.bank.problems[row.problem].course) &&
    match row.exam
    case None => !row.isLate && row.penalty == 0
    case Some(e) =>
      CanAccessExam(s, row.user, e) && StampedByRules(s, row.user, e, row) &&
      row.problem in Assign(s, e, row.user, op.draws).1
  }

  lemma InsertProvenance(
    s: State, u: UserId, p: ProblemId, exam: Option<ExamId>, isLate: bool, penalty: int, enqueued: bool,
    row: Submission)
    requires p in s.bank.problems
    requires row in Insert(s, u, p, exam, isLate, penalty, enqueued).0.work.submissions
    ensures row in s.work.submissions ||
            (row.user == u && row.problem == p && row.exam == exam && row.isLate == isLate &&
             row.penalty == penalty && row.at == s.now)
  {
  }

  lemma SubmitProvenance(s: State, op: Op, row: Submission)
    requires Inv(s) && op.Submit?
    requires row in StepSubmit(s, op.user, op.problem, op.forExam, op.enqueued, op.draws).0.work.submissions
    ensures row in s.work.submissions || AcceptedBy(s, op, row)
  {
    var u, p := op.user, op.problem;
    if CanAccessProblem(s, u, p) && !IsArchived(s, s.bank.problems[p].course) && row !in s.work.submissions {
      hide Assign, CanAccessProblem, Inv, OnPaper, Insert;
      if op.forExam.None? {
        InsertProvenance(s, u, p, None, false, 0, op.enqueued, row);
      } else {
        var e := op.forExam.value;
        AssignEffect(s, e, u, op.draws);
        var s' := Assign(s, e, u, op.draws).0;
        var w := WindowOf(s, e, u);
        assert CanAccessExam(s, u, e) && IsOpen(w) && p in Assign(s, e, u, op.draws).1;
        InsertProvenance(s', u, p, Some(e), w.Late?, if w.Late? then w.penalty else 0, op.enqueued, row);
        WindowStamps(s, u, e, row);
      }
    }
  }

  lemma WindowStamps(s: State, u: UserId, e: ExamId, row: Submission)
    requires Inv(s) && IsOpen(WindowOf(s, e, u))
    requires row.isLate == WindowOf(s, e, u).Late?
    requires row.penalty == if row.isLate then WindowOf(s, e, u).penalty else 0
    ensures StampedByRules(s, u, e, row)
  {
  }

  lemma GradeKeepsStamp(list: seq<Submission>, id: nat, o: Outcome, row: Submission)
    ensures row in GradeRows(list, id, o) ==> HasStamp(list, row)
    ensures row in list ==> HasStamp(GradeRows(list, id, o), row)
  {
  }

  lemma InListHasStamp(list: seq<Submission>, row: Submission)
    requires row in list
    ensures HasStamp(list, row)
  {
  }

  /** A submission adds at most one row and leaves everything but deals and rows alone. */
  lemma SubmitShape(s: State, op: Op)
    requires op.Submit?
    ensures var s' := StepSubmit(s, op.user, op.problem, op.forExam, op.enqueued, op.draws).0;
            s' == s.(work := s'.work) &&
            (s'.work.submissions == s.work.submissions ||
             (|s'.work.submissions| == |s.work.submissions| + 1 &&
              s'.work.submissions[..|s.work.submissions|] == s.work.submissions))
  {
    hide Assign, CanAccessProblem, CanAccessExam, WindowOf, OnPaper;
    if op.forExam.Some? {
      AssignEffect(s, op.forExam.value, op.user, op.draws);
    }
  }

  /** Requests other than a submission and a grading never add a row. */
  lemma OtherStepsAddNoRows(s: State, op: Op, row: Submission)
    requires !op.Submit? && !op.Grade? && row in Step(s, op).0.work.submissions
    ensures row in s.work.submissions
  {
    if IsCourseOp(op) {
      hide StepCourse;
      CourseOpTables(s, op);
    } else {
      hide Assign, CanAccessExam, RowsOf, AllInCourse, AllEnrolledStudents, PassesEditSchema, OnPaper;
      if op.OpenExam? {
        AssignEffect(s, op.exam, op.user, op.draws);
      } else if op.DeleteProblem? {
        KeepSubmissionsExact(s.work.submissions, op.problem, row);
      }
    }
  }

  /** Only the deletion of its problem removes a row. */
  lemma OtherStepsDropNoRows(s: State, op: Op, row: Submission)
    requires row in s.work.submissions && !op.Grade?
    ensures row in Step(s, op).0.work.submissions ||
            (op.DeleteProblem? && op.problem == row.problem && OwnsProblem(s, op.user, row.problem))
  {
    if IsCourseOp(op) {
      hide StepCourse;
      CourseOpTables(s, op);
    } else if op.Submit? {
      hide StepSubmit;
      SubmitShape(s, op);
    } else {
      hide Assign, CanAccessExam, RowsOf, AllInCourse, AllEnrolledStudents, PassesEditSchema, OnPaper;
      if op.OpenExam? {
        AssignEffect(s, op.exam, op.user, op.draws);
      } else if op.DeleteProblem? {
        KeepSubmissionsExact(s.work.submissions, op.problem, row);
      }
    }
  }

  /**
   * What was stamped on a row when it was accepted never changes: after any request the row is
   * still there with the same student, problem, exam, time, lateness and penalty, unless the
   * request was its teacher deleting the problem.
   */
  lemma StampNeverChanges(s: State, op: Op, row: Submission)
    requires row in s.work.submissions
    ensures HasStamp(Step(s, op).0.work.submissions, row) ||
            (op.DeleteProblem? && op.problem == row.problem && OwnsProblem(s, op.user, row.problem))
  {
    if op.Grade? {
      GradeKeepsStamp(s.work.submissions, op.submission, op.outcome, row);
    } else {
      OtherStepsDropNoRows(s, op, row);
      hide Step, OwnsProblem;
      if row in Step(s, op).0.work.submissions {
        InListHasStamp(Step(s, op).0.work.submissions, row);
      }
    }
  }

  lemma StepProvenance(s: State, op: Op, row: Submission)
    requires Inv(s) && row in Step(s, op).0.work.submissions
    ensures HasStamp(s.work.submissions, row) || AcceptedBy(s, op, row)
  {
    hide Inv, AcceptedBy;
    if op.Grade? {
      GradeKeepsStamp(s.work.submissions, op.submission, op.outcome, row);
    } else if op.Submit? {
      hide HasStamp, StepSubmit;
      if op.user in s.people.users {
        SubmitProvenance(s, op, row);
      }
      if row in s.work.submissions {
        InListHasStamp(s.work.submissions, row);
      }
    } else {
      OtherStepsAddNoRows(s, op, row);
      InListHasStamp(s.work.submissions, row);
    }
  }

  ghost predicate AcceptedAt(s0: State, ops: seq<Op>, i: nat, row: Submission) {
    i < |ops| && AcceptedBy(Exec(s0, ops[..i]), ops[i], row)
  }

  lemma AcceptedByStamp(s: State, op: Op, row: Submission, row': Submission)
    requires AcceptedBy(s, op, row) && Stamp(row) == Stamp(row')
    ensures AcceptedBy(s, op, row')
  {
  }

  /**
   * Every stored submission, over any run, was accepted by one request of the run: at that moment
   * the student could read the problem, its course was open, and for an exam the student was
   * enrolled and sitting it, the problem was among those dealt to them, and the time was within
   * the window, late exactly past their deadline and with the penalty then in force.
   */
  lemma {:induction false} EverySubmissionWasAccepted(s0: State, ops: seq<Op>, row: Submission)
    requires IsInitial(s0) && row in Exec(s0, ops).work.submissions
    ensures exists i: nat :: AcceptedAt(s0, ops, i, row)
  {
    hide Step, AcceptedBy, Stamp, Inv;
    if ops == [] {
    } else {
      var front, last := ops[..|ops| - 1], ops[|ops| - 1];
      var s := Exec(s0, front);
      InitialInv(s0);
      RunInv(s0, front);
      StepProvenance(s, last, row);
      if HasStamp(s.work.submissions, row) {
        var i :| 0 <= i < |s.work.submissions| && Stamp(s.work.submissions[i]) == Stamp(row);
        var row' := s.work.submissions[i];
        EverySubmissionWasAccepted(s0, front, row');
        var j: nat :| AcceptedAt(s0, front, j, row');
        assert ops[..j] == front[..j] && ops[j] == front[j];
        AcceptedByStamp(Exec(s0, ops[..j]), ops[j], row', row);
        assert AcceptedAt(s0, ops, j, row);
      } else {
        assert AcceptedAt(s0, ops, |ops| - 1, row);
      }
    }
  }

  /** In particular for a student's row on an exam. */
  lemma StudentExamSubmission(s0: State, ops: seq<Op>, row: Submission, e: ExamId)
    requires IsInitial(s0) && row in Exec(s0, ops).work.submissions
    requires row.exam == Some(e) && IsStudent(s0, row.user)
    ensures exists i: nat :: i < |ops| && StudentAccepted(Exec(s0, ops[..i]), ops[i], row, e)
  {
    EverySubmissionWasAccepted(s0, ops, row);
    var i: nat :| AcceptedAt(s0, ops, i, row);
    RunKeepsPeople(s0, ops[..i]);
    InitialInv(s0);
    RunInv(s0, ops[..i]);
    AcceptedStudent(Exec(s0, ops[..i]), ops[i], row, e);
  }

  /** Enrolled, sitting, on a problem of the paper dealt to them, in an open course, in the window. */
  ghost predicate StudentAccepted(s: State, op: Op, row: Submission, e: ExamId) {
    op.Submit? && op == Submit(row.user, row.problem, Some(e), op.enqueued, op.draws) && row.at == s.now &&
    e in s.plan.exams && Member(s.plan.exams[e].course, row.user) in s.school.enrolled && Sits(s, e, row.user) &&
    OnPaper(s, e, row.problem) && row.problem in Assign(s, e, row.user, op.draws).1 &&
    !IsArchived(s, s.plan.exams[e].course) && StampedByRules(s, row.user, e, row)
  }

  lemma AcceptedStudent(s: State, op: Op, row: Submission, e: ExamId)
    requires Inv(s) && AcceptedBy(s, op, row) && row.exam == Some(e) && IsStudent(s, row.user)
    ensures StudentAccepted(s, op, row, e)
  {
    hide Inv, Assign;
    AssignedOnPaper(s, e, row.user, op.draws, row.problem);
    OnPaperInCourse(s, e, row.problem);
  }

  lemma {:induction false} RunKeepsPeople(s: State, ops: seq<Op>)
    ensures Exec(s, ops).people == s.people
  {
    hide Step;
    if ops == [] {
    } else {
      RunKeepsPeople(s, ops[..|ops| - 1]);
      StepKeepsPeople(Exec(s, ops[..|ops| - 1]), ops[|ops| - 1]);
    }
  }

  lemma StepKeepsPeople(s: State, op: Op)
    ensures Step(s, op).0.people == s.people
  {
    if IsCourseOp(op) {
      hide StepCourse;
      CourseOpTables(s, op);
    } else if op.Submit? {
      hide StepSubmit;
      SubmitShape(s, op);
    } else {
      hide Assign, CanAccessExam, RowsOf, AllInCourse, AllEnrolledStudents, PassesEditSchema, OnPaper, Distinct;
      if op.OpenExam? {
        AssignEffect(s, op.exam, op.user, op.draws);
      }
    }
  }

  // ---------------------------------------------------------------------------
  // The paper's marks
  // ---------------------------------------------------------------------------

  function SumPoints(paper: seq<PaperRow>): int {
    if paper == [] then 0 else SumPoints(paper[..|paper| - 1]) + paper[|paper| - 1].points
  }

  lemma {:induction false} SumOfEven(paper: seq<PaperRow>, base: int, extra: nat, k: nat)
    requires k <= |paper|
    requires forall i :: 0 <= i < |paper| ==> paper[i].points == base + if i < extra then 1 else 0
    ensures SumPoints(paper[..k]) == k * base + if k <= extra then k else extra
  {
    if k == 0 {
    } else {
      SumOfEven(paper, base, extra, k - 1);
      assert paper[..k][..k - 1] == paper[..k - 1];
      assert k * base == (k - 1) * base + base;
    }
  }

  /** An evenly divided paper is worth exactly 100, no problem more than a point above another. */
  lemma EvenPaperIsWorth100(d: Draft)
    requires d.points.None? && d.problems != []
    ensures SumPoints(PaperFor(d)) == 100
    ensures forall i, j :: 0 <= i < j < |d.problems| ==>
              PaperFor(d)[j].points <= PaperFor(d)[i].points <= PaperFor(d)[j].points + 1
  {
    var n, paper := |d.problems|, PaperFor(d);
    var base := 100 / n;
    var extra := 100 - base * n;
    assert 0 <= extra < n;
    SumOfEven(paper, base, extra, n);
    assert paper[..n] == paper;
  }
}
