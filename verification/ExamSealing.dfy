/** What a student can learn about the problems of an exam, over whole runs. */
module ExamSealing {
  import opened Lists
  import opened Options
  import opened ExamModel
  import opened ExamInvariants
  import opened ExamSafety
  import opened ExamSubmissions

  /** The problems whose existence an answer gives away. */
  function Reveals(op: Op, r: Response): set<ProblemId> {
    match op
    case ListProblems(_) => if r.Listing? then r.problems else {}
    case ReadProblem(_, p) => if r == ProblemNotFound then {} else {p}
    case OpenExam(_, _, _) => if r.Shown? then (set p | p in PaperIds(r.rows)) + r.progress.Keys else {}
    case Submit(_, p, _, _, _) => if r == ProblemNotFound then {} else {p}
    case _ => {}
  }

  /** The answer is an exam page, and the student has submitted on this problem under that exam. */
  predicate IsOwnProgress(s: State, op: Op, p: ProblemId) {
    op.OpenExam? && p in Tried(s.work.submissions, op.user, op.exam)
  }

  /** What an exam page names: the problems dealt, once it has started, and those already tried. */
  lemma PageReveals(s: State, u: UserId, e: ExamId, js: seq<nat>, p: ProblemId)
    requires Inv(s) && IsStudent(s, u) && CanAccessExam(s, u, e)
    ensures var op := OpenExam(u, e, js);
            p in Reveals(op, Step(s, op).1) <==>
            (HasStarted(s, e) && p in Assign(s, e, u, js).1) || IsOwnProgress(s, op, p)
  {
    assert e in s.plan.exams;
    hide Inv, Assign, CanAccessExam, Tried, RowsOf, EndsAt, HasStarted, OnPaper;
    var dealt := Assign(s, e, u, js).1;
    RowsOfExact(s.plan.exams[e].paper, dealt, p);
    if p in dealt {
      AssignedOnPaper(s, e, u, js, p);
      OnPaperIds(s, e, p);
    }
  }

  /**
   * Whatever a student is given, by any request, is a problem of their course that is not sealed,
   * or one that they have already submitted under the exam they open.
   */
  lemma RevealsOnlyAccessible(s: State, op: Op, u: UserId, p: ProblemId)
    requires Inv(s) && ActorOf(op) == Some(u) && IsStudent(s, u)
    requires p in Reveals(op, Step(s, op).1)
    ensures CanAccessProblem(s, u, p) || IsOwnProgress(s, op, p)
  {
    if op.OpenExam? {
      hide Inv, Assign, CanAccessProblem, CanAccessExam, ProgressOf, Tried, RowsOf, EndsAt, OnPaper, HasStarted;
      var e, js := op.exam, op.draws;
      if CanAccessExam(s, u, e) {
        PageReveals(s, u, e, js, p);
        if HasStarted(s, e) && p in Assign(s, e, u, js).1 {
          AssignedOnPaper(s, e, u, js, p);
          StartedPaperAccessible(s, u, e, p);
        }
      }
    } else {
      hide Inv, Assign, CanAccessProblem, CanAccessExam, SubmitToExam, Insert;
    }
  }

  // ---------------------------------------------------------------------------
  // Over whole runs
  // ---------------------------------------------------------------------------

  lemma TriedRow(list: seq<Submission>, u: UserId, e: ExamId, p: ProblemId)
    ensures p in Tried(list, u, e) <==>
            exists i :: 0 <= i < |list| && list[i].user == u && list[i].exam == Some(e) && list[i].problem == p
  {
  }

  /** The student could read the problem when a request of theirs submitted it under this exam. */
  ghost predicate WasAccessible(s0: State, ops: seq<Op>, i: nat, u: UserId, e: ExamId, p: ProblemId) {
    i < |ops| && ops[i].Submit? && ops[i].user == u && ops[i].problem == p && ops[i].forExam == Some(e) &&
    CanAccessProblem(Exec(s0, ops[..i]), u, p)
  }

  lemma TriedWasAccessible(s0: State, ops: seq<Op>, u: UserId, e: ExamId, p: ProblemId) returns (i: nat)
    requires IsInitial(s0) && p in Tried(Exec(s0, ops).work.submissions, u, e)
    ensures WasAccessible(s0, ops, i, u, e, p)
  {
    hide Exec, Tried, CanAccessProblem;
    var list := Exec(s0, ops).work.submissions;
    TriedRow(list, u, e, p);
    var k :| 0 <= k < |list| && list[k].user == u && list[k].exam == Some(e) && list[k].problem == p;
    EverySubmissionWasAccepted(s0, ops, list[k]);
    i :| AcceptedAt(s0, ops, i, list[k]);
  }

  /**
   * Sealing over whole runs: at any point of any run, a student is given a problem that is on some
   * paper only if an exam holding it has started whose roster is empty or names them; or if it is
   * one they submitted under the exam they open, at a moment of the run when they could read it.
   */
  lemma SealedOverRuns(s0: State, ops: seq<Op>, op: Op, u: UserId, p: ProblemId)
    requires IsInitial(s0) && ActorOf(op) == Some(u) && IsStudent(Exec(s0, ops), u)
    requires p in Reveals(op, Step(Exec(s0, ops), op).1)
    ensures var s := Exec(s0, ops);
            (p in s.bank.problems && Member(s.bank.problems[p].course, u) in s.school.enrolled &&
             (OnAnyPaper(s, p) ==> Unsealed(s, u, p))) ||
            (op.OpenExam? && exists i: nat :: WasAccessible(s0, ops, i, u, op.exam, p))
  {
    InitialInv(s0);
    RunInv(s0, ops);
    var s := Exec(s0, ops);
    hide Inv, Exec, Step, Reveals, OnAnyPaper, Unsealed, Tried, WasAccessible;
    RevealsOnlyAccessible(s, op, u, p);
    if !CanAccessProblem(s, u, p) {
      var i := TriedWasAccessible(s0, ops, u, op.exam, p);
    }
  }

  /** The problem is on a paper, and every exam holding it has a roster that leaves this student out. */
  ghost predicate SitsNone(s: State, u: UserId, p: ProblemId) {
    OnAnyPaper(s, p) && forall e :: OnPaper(s, e, p) ==> !Sits(s, e, u)
  }

  lemma SitsNoneStays(s: State, s': State, u: UserId, p: ProblemId)
    requires Calm(s, s') && SitsNone(s, u, p)
    ensures !PassesGate(s', u, p)
  {
    assert OnAnyPaper(s', p) by {
      var e :| e in s.plan.exams && OnPaper(s, e, p);
      assert OnPaper(s', e, p);
    }
    forall e | e in s'.plan.exams && OnPaper(s', e, p) ensures !Sits(s', e, u) {
      assert OnPaper(s, e, p);
    }
  }

  lemma GateShut(s: State, s': State, u: UserId, p: ProblemId)
    requires IsStudent(s, u) && Calm(s, s') && SitsNone(s, u, p)
    ensures IsStudent(s', u) && !CanAccessProblem(s', u, p)
  {
    hide SitsNone, PassesGate;
    SitsNoneStays(s, s', u, p);
  }

  /** A problem the student cannot read is not newly tried. */
  lemma NotNewlyTried(s: State, op: Op, u: UserId, e: ExamId, p: ProblemId)
    requires Inv(s) && !CanAccessProblem(s, u, p) && p in Tried(Step(s, op).0.work.submissions, u, e)
    ensures p in Tried(s.work.submissions, u, e)
  {
    hide Inv, Step, CanAccessProblem, Tried, CanAccessExam, Assign, StampedByRules, IsArchived;
    var list, list' := s.work.submissions, Step(s, op).0.work.submissions;
    TriedRow(list', u, e, p);
    var k :| 0 <= k < |list'| && list'[k].user == u && list'[k].exam == Some(e) && list'[k].problem == p;
    StepProvenance(s, op, list'[k]);
    assert HasStamp(list, list'[k]);
    var i :| 0 <= i < |list| && Stamp(list[i]) == Stamp(list'[k]);
    SameStampSameCell(list[i], list'[k]);
    TriedRow(list, u, e, p);
  }

  lemma SameStampSameCell(a: Submission, b: Submission)
    requires Stamp(a) == Stamp(b)
    ensures a.user == b.user && a.exam == b.exam && a.problem == b.problem
  {
    assert Stamp(a).user == a.user && Stamp(b).user == b.user;
  }

  lemma {:induction false} CalmRunTriesNoMore(s: State, ops: seq<Op>, u: UserId, e: ExamId, p: ProblemId)
    requires Inv(s) && IsStudent(s, u) && SitsNone(s, u, p) && CalmRun(s, ops)
    requires p in Tried(Exec(s, ops).work.submissions, u, e)
    ensures p in Tried(s.work.submissions, u, e)
  {
    hide Inv, Step, SitsNone, Tried, CanAccessProblem, Calm;
    if ops == [] {
    } else {
      var front := ops[..|ops| - 1];
      CalmRunIsCalm(s, front);
      GateShut(s, Exec(s, front), u, p);
      RunInv(s, front);
      NotNewlyTried(Exec(s, front), ops[|ops| - 1], u, e, p);
      CalmRunTriesNoMore(s, front, u, e, p);
    }
  }

  /**
   * No passage of time, and nothing anyone but a teacher does, reveals such a problem to the
   * student, unless they had already submitted it under the exam they open.
   */
  lemma NoTimeReveals(s: State, ops: seq<Op>, op: Op, u: UserId, p: ProblemId)
    requires Inv(s) && IsStudent(s, u) && SitsNone(s, u, p)
    requires CalmRun(s, ops) && ActorOf(op) == Some(u)
    ensures p in Reveals(op, Step(Exec(s, ops), op).1) ==> IsOwnProgress(s, op, p)
  {
    CalmRunIsCalm(s, ops);
    RunInv(s, ops);
    var s' := Exec(s, ops);
    hide Inv, Exec, Step, Reveals, SitsNone, CanAccessProblem, Calm, CalmRun, Tried;
    if p in Reveals(op, Step(s', op).1) {
      GateShut(s, s', u, p);
      RevealsOnlyAccessible(s', op, u, p);
      CalmRunTriesNoMore(s, ops, u, op.exam, p);
    }
  }

  // ---------------------------------------------------------------------------
  // Moving a started exam into the future
  // ---------------------------------------------------------------------------

  /** The exam after an accepted edit; nobody's submissions, roster or enrolment change with it. */
  lemma EditedExam(s: State, t: UserId, e: ExamId, d: Draft)
    requires StepEditExam(s, t, e, d).1 == Done
    ensures var s' := StepEditExam(s, t, e, d).0;
            s'.people == s.people && s'.school == s.school && s'.bank == s.bank && s'.now == s.now &&
            s'.plan.roster == s.plan.roster && s'.work.submissions == s.work.submissions &&
            s'.plan.exams.Keys == s.plan.exams.Keys &&
            (forall f :: f in s.plan.exams && f != e ==> s'.plan.exams[f] == s.plan.exams[f]) &&
            e in s.plan.exams && s'.plan.exams[e].course == s.plan.exams[e].course &&
            s'.plan.exams[e].start == d.start &&
            PaperIds(s'.plan.exams[e].paper) == d.problems
  {
    hide AllInCourse, PassesEditSchema, Distinct;
  }

  /**
   * An exam whose start is moved into the future seals its problems again, and its page still
   * names those a student had submitted.
   */
  lemma MovedExamStillNames(s: State, t: UserId, u: UserId, e: ExamId, d: Draft, js: seq<nat>, p: ProblemId)
    requires Inv(s) && IsStudent(s, u) && CanAccessExam(s, u, e) && p in Tried(s.work.submissions, u, e)
    requires StepEditExam(s, t, e, d).1 == Done && s.now < d.start && p in d.problems
    requires forall f :: OnPaper(s, f, p) && f != e ==> !HasStarted(s, f)
    ensures var s' := StepEditExam(s, t, e, d).0;
            !CanAccessProblem(s', u, p) &&
            p in Reveals(OpenExam(u, e, js), Step(s', OpenExam(u, e, js)).1)
  {
    EditedExam(s, t, e, d);
    EditExamInv(s, t, e, d);
    var s' := StepEditExam(s, t, e, d).0;
    hide StepEditExam, Inv, Step, Reveals, Tried;
    assert CanAccessExam(s', u, e);
    assert OnPaper(s', e, p);
    forall f | f in s'.plan.exams && OnPaper(s', f, p) ensures !HasStarted(s', f) {
      assert f != e ==> OnPaper(s, f, p);
    }
    PageReveals(s', u, e, js, p);
  }
}
