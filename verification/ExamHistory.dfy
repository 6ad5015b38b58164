/**
 * The tables of the exam machine in terms of what was requested: which requests are accepted, and what
 * the accepted ones of a run leave in each table.
 */
module ExamHistory {
  import opened Lists
  import opened Options
  import opened ExamModel
  import opened ExamInvariants
  import opened ExamSafety
  import opened ExamSubmissions
  import opened ExamResults

  // ---------------------------------------------------------------------------
  // Which requests are accepted
  // ---------------------------------------------------------------------------

  /** A teacher who made the course. */
  ghost predicate Owns(s: State, u: UserId, c: CourseId) {
    IsTeacher(s, u) && c in s.school.courses && s.school.courses[c].owner == u
  }

  /** A teacher who made the course or was appointed to it. */
  ghost predicate Teaches(s: State, u: UserId, c: CourseId) {
    IsTeacher(s, u) && c in s.school.courses && u in {s.school.courses[c].owner} + s.school.courses[c].staff
  }

  ghost predicate TeachesProblem(s: State, u: UserId, p: ProblemId) {
    p in s.bank.problems && Teaches(s, u, s.bank.problems[p].course)
  }

  ghost predicate TeachesExam(s: State, u: UserId, e: ExamId) {
    e in s.plan.exams && Teaches(s, u, s.plan.exams[e].course)
  }

  /** The course exists and is not archived. */
  ghost predicate IsLive(s: State, c: CourseId) {
    c in s.school.courses && !s.school.courses[c].archived
  }

  /** A paper of the course's own problems, each once and with its points if any are given, and times in order. */
  ghost predicate IsSound(s: State, c: CourseId, d: Draft) {
    d.start < d.end && 0 <= d.lateWindow <= 1440 && 0 <= d.latePenalty <= 100 &&
    d.problems != [] && Distinct(d.problems) && (d.points.Some? ==> |d.points.value| == |d.problems|) &&
    forall p :: p in d.problems ==> p in s.bank.problems && s.bank.problems[p].course == c
  }

  /** What an edit, unlike a creation, has to satisfy as well. */
  ghost predicate FitsSchema(d: Draft) {
    (d.perStudent.Some? ==> d.perStudent.value > 0) &&
    (d.points.Some? ==> forall x :: x in d.points.value ==> 0 <= x <= 1000)
  }

  ghost predicate AreSitters(s: State, c: CourseId, list: seq<UserId>) {
    forall v :: v in list ==> Member(c, v) in s.school.enrolled && IsStudent(s, v)
  }

  /** The requests that administer, and joining. */
  predicate IsChange(op: Op) {
    IsAdministrative(op) || op.Join?
  }

  ghost predicate IsTaken(s: State, op: Op)
    requires IsChange(op)
  {
    op.user in s.people.users &&
    match op
    case CreateCourse(u) => IsTeacher(s, u)
    case SetArchived(u, c, _) => Owns(s, u, c)
    case AddStaff(u, c, email) =>
      Owns(s, u, c) && email in s.people.emails &&
      var v := s.people.emails[email];
      IsTeacher(s, v) && v != u && Member(c, v) !in s.school.enrolled
    case RemoveStaff(u, c, _) => Owns(s, u, c)
    case Join(u, code) => code.Some? && IsLive(s, code.value) && s.school.courses[code.value].owner != u
    case Import(u, c, _) => Teaches(s, u, c) && IsLive(s, c)
    case Unenrol(u, c, v) => Teaches(s, u, c) && Member(c, v) in s.school.enrolled
    case CreateProblem(u, c, cases) => Teaches(s, u, c) && IsLive(s, c) && cases > 0
    case UpdateProblem(u, p) => TeachesProblem(s, u, p)
    case DeleteProblem(u, p) => TeachesProblem(s, u, p)
    case AddTestCase(u, p) => TeachesProblem(s, u, p)
    case DeleteTestCase(u, p) => TeachesProblem(s, u, p)
    case CreateExam(u, c, d, sitters) =>
      Teaches(s, u, c) && IsLive(s, c) && IsSound(s, c, d) && (sitters.Some? ==> AreSitters(s, c, sitters.value))
    case EditExam(u, e, d) => TeachesExam(s, u, e) && IsSound(s, s.plan.exams[e].course, d) && FitsSchema(d)
    case SetRoster(u, e, sitters) => TeachesExam(s, u, e) && AreSitters(s, s.plan.exams[e].course, sitters)
    case GrantTime(u, e, v, minutes) =>
      TeachesExam(s, u, e) && 0 <= minutes <= 1440 && (minutes > 0 ==> v in s.people.users)
    case SetOverride(u, cell, o) =>
      TeachesExam(s, u, cell.exam) && 0 <= o.score <= o.maxScore && o.maxScore > 0 &&
      cell.user in s.people.users && cell.problem in s.bank.problems
    case DropOverride(u, cell) => TeachesExam(s, u, cell.exam)
    case _ => false
  }

  predicate IsYes(r: Response) {
    r.Done? || r.Created? || r.Imported?
  }

  lemma AllInCourseExact(s: State, ids: seq<ProblemId>, c: CourseId)
    ensures AllInCourse(s, ids, c) <==>
            forall p :: p in ids ==> p in s.bank.problems && s.bank.problems[p].course == c
  {
    if AllInCourse(s, ids, c) {
      forall p | p in ids ensures p in s.bank.problems && s.bank.problems[p].course == c {
        var i :| 0 <= i < |ids| && ids[i] == p;
      }
    }
    if forall p :: p in ids ==> p in s.bank.problems && s.bank.problems[p].course == c {
      forall i | 0 <= i < |ids| ensures ids[i] in s.bank.problems && s.bank.problems[ids[i]].course == c {
        assert ids[i] in ids;
      }
    }
  }

  lemma SittersExact(s: State, list: seq<UserId>, c: CourseId)
    ensures AllEnrolledStudents(s, list, c) <==> AreSitters(s, c, list)
  {
    if AllEnrolledStudents(s, list, c) {
      forall v | v in list ensures Member(c, v) in s.school.enrolled && IsStudent(s, v) {
        var i :| 0 <= i < |list| && list[i] == v;
      }
    }
    assert forall i :: 0 <= i < |list| ==> list[i] in list;
  }

  lemma SchemaExact(d: Draft)
    ensures d.problems != [] && d.start < d.end ==>
              (PassesEditSchema(d) <==> WithinConstraints(d) && FitsSchema(d))
  {
    if d.points.Some? {
      assert forall i :: 0 <= i < |d.points.value| ==> d.points.value[i] in d.points.value;
    }
  }

  lemma CreateExamTaken(s: State, u: UserId, c: CourseId, d: Draft, sitters: Option<seq<UserId>>)
    requires u in s.people.users
    ensures IsYes(StepCreateExam(s, u, c, d, sitters).1) <==> IsTaken(s, CreateExam(u, c, d, sitters))
    ensures !IsTaken(s, CreateExam(u, c, d, sitters)) ==> StepCreateExam(s, u, c, d, sitters).0 == s
  {
    hide AllInCourse, AllEnrolledStudents, AreSitters, Distinct, ExamFor;
    AllInCourseExact(s, d.problems, c);
    if sitters.Some? {
      SittersExact(s, sitters.value, c);
    }
  }

  lemma EditExamTaken(s: State, u: UserId, e: ExamId, d: Draft)
    requires u in s.people.users
    ensures IsYes(StepEditExam(s, u, e, d).1) <==> IsTaken(s, EditExam(u, e, d))
    ensures !IsTaken(s, EditExam(u, e, d)) ==> StepEditExam(s, u, e, d).0 == s
  {
    hide AllInCourse, Distinct, ExamFor, FitsSchema;
    SchemaExact(d);
    if e in s.plan.exams {
      AllInCourseExact(s, d.problems, s.plan.exams[e].course);
    }
  }

  lemma SetRosterTaken(s: State, u: UserId, e: ExamId, sitters: seq<UserId>)
    requires u in s.people.users
    ensures IsYes(StepSetRoster(s, u, e, sitters).1) <==> IsTaken(s, SetRoster(u, e, sitters))
    ensures !IsTaken(s, SetRoster(u, e, sitters)) ==> StepSetRoster(s, u, e, sitters).0 == s
  {
    hide AllEnrolledStudents, AreSitters;
    if e in s.plan.exams {
      SittersExact(s, sitters, s.plan.exams[e].course);
    }
  }

  lemma SchoolTaken(s: State, op: Op)
    requires op.CreateCourse? || op.SetArchived? || op.AddStaff? || op.RemoveStaff? || op.Join? ||
             op.Import? || op.Unenrol?
    requires op.user in s.people.users
    ensures IsYes(StepCourse(s, op).1) <==> IsTaken(s, op)
    ensures !IsTaken(s, op) ==> StepCourse(s, op).0 == s
  {
    hide Distinctly, Newcomers, Unknowns, NoStudents, StudentsNamed;
  }

  lemma AllowanceTaken(s: State, op: Op)
    requires op.UpdateProblem? || op.GrantTime? || op.SetOverride? || op.DropOverride?
    requires op.user in s.people.users
    ensures IsYes(StepCourse(s, op).1) <==> IsTaken(s, op)
    ensures !IsTaken(s, op) ==> StepCourse(s, op).0 == s
  {
  }

  lemma ProblemTaken(s: State, op: Op)
    requires op.CreateProblem? || op.DeleteProblem? || op.AddTestCase? || op.DeleteTestCase?
    requires op.user in s.people.users
    ensures IsYes(StepExam(s, op).1) <==> IsTaken(s, op)
    ensures !IsTaken(s, op) ==> StepExam(s, op).0 == s
  {
    hide WithoutProblem, KeepSubmissions;
  }

  lemma CourseOpTaken(s: State, op: Op)
    requires IsChange(op) && IsCourseOp(op) && op.user in s.people.users
    ensures IsYes(StepCourse(s, op).1) <==> IsTaken(s, op)
    ensures !IsTaken(s, op) ==> StepCourse(s, op).0 == s
  {
    hide StepCourse, IsTaken;
    if op.UpdateProblem? || op.GrantTime? || op.SetOverride? || op.DropOverride? {
      AllowanceTaken(s, op);
    } else {
      SchoolTaken(s, op);
    }
  }

  lemma ExamOpTaken(s: State, op: Op)
    requires IsChange(op) && !IsCourseOp(op) && op.user in s.people.users
    ensures IsYes(StepExam(s, op).1) <==> IsTaken(s, op)
    ensures !IsTaken(s, op) ==> StepExam(s, op).0 == s
  {
    hide StepCreateExam, StepEditExam, StepSetRoster, StepCreateProblem, StepDeleteProblem,
         StepAddTestCase, StepDeleteTestCase, IsTaken;
    match op
    case CreateExam(u, c, d, sitters) => CreateExamTaken(s, u, c, d, sitters);
    case EditExam(u, e, d) => EditExamTaken(s, u, e, d);
    case SetRoster(u, e, sitters) => SetRosterTaken(s, u, e, sitters);
    case _ => ProblemTaken(s, op);
  }

  lemma OnlyUsersAreTaken(s: State, op: Op)
    requires IsChange(op) && IsTaken(s, op)
    ensures op.user in s.people.users
  {
  }

  /**
   * Every request that changes courses, problems, exams, rosters or allowances is accepted exactly
   * under its rule: who teaches what, what is archived, what a draft or a roster has to be. A request
   * that is not accepted changes nothing.
   */
  lemma AnswersExactly(s: State, op: Op)
    requires IsChange(op)
    ensures IsYes(Step(s, op).1) <==> IsTaken(s, op)
    ensures !IsTaken(s, op) ==> Step(s, op).0 == s
  {
    hide StepCourse, StepExam, IsTaken;
    if IsTaken(s, op) {
      OnlyUsersAreTaken(s, op);
    }
    if op.user in s.people.users {
      if IsCourseOp(op) {
        CourseOpTaken(s, op);
      } else {
        ExamOpTaken(s, op);
      }
    }
  }

  // ---------------------------------------------------------------------------
  // The state before each request of a run
  // ---------------------------------------------------------------------------

  /** The state once the first `k` requests have been made. */
  function After(s0: State, ops: seq<Op>, k: nat): State {
    Exec(s0, if k <= |ops| then ops[..k] else ops)
  }

  lemma AfterStep(s0: State, ops: seq<Op>, k: nat)
    requires k < |ops|
    ensures After(s0, ops, k + 1) == Step(After(s0, ops, k), ops[k]).0
    ensures After(s0, ops, 0) == s0 && After(s0, ops, |ops|) == Exec(s0, ops)
  {
    hide Step;
    assert ops[..k + 1][..k] == ops[..k];
    assert ops[..|ops|] == ops;
  }

  lemma AfterNothing(s0: State, ops: seq<Op>)
    ensures After(s0, ops, 0) == s0 && After(s0, ops, |ops|) == Exec(s0, ops)
  {
    assert ops[..|ops|] == ops;
  }

  lemma AfterInv(s0: State, ops: seq<Op>, k: nat)
    requires IsInitial(s0)
    ensures Inv(After(s0, ops, k))
  {
    hide Inv, IsInitial;
    InitialInv(s0);
    RunInv(s0, if k <= |ops| then ops[..k] else ops);
  }

  /** Request `k` of the run is this kind of change and is accepted. */
  ghost predicate TakenAt(s0: State, ops: seq<Op>, k: nat) {
    k < |ops| && IsChange(ops[k]) && IsTaken(After(s0, ops, k), ops[k])
  }

  // ---------------------------------------------------------------------------
  // What each table is untouched by
  // ---------------------------------------------------------------------------

  lemma SchoolFrame(s: State, op: Op)
    requires !(op.CreateCourse? || op.SetArchived? || op.AddStaff? || op.RemoveStaff? || op.Join? ||
               op.Import? || op.Unenrol?)
    ensures Step(s, op).0.school == s.school
  {
    hide CanAccessProblem, OwnsProblem, OwnsExam, TeachesCourse, StepSubmit, Assign, CanAccessExam, RowsOf,
         WithoutProblem, KeepSubmissions, GradeRows, ExamFor, AllInCourse, AllEnrolledStudents, Distinct, ProgressOf;
    if op.Submit? {
      SubmitShape(s, op);
    } else if op.OpenExam? {
      AssignEffect(s, op.exam, op.user, op.draws);
    }
  }

  lemma PlanFrame(s: State, op: Op)
    requires !(op.CreateExam? || op.EditExam? || op.SetRoster? || op.DeleteProblem?)
    ensures Step(s, op).0.plan == s.plan
  {
    hide OwnsProblem, TeachesCourse, StepCourse, StepSubmit, Assign, CanAccessExam, RowsOf, GradeRows, ProgressOf;
    if IsCourseOp(op) {
      CourseOpTables(s, op);
    } else if op.Submit? {
      SubmitShape(s, op);
    } else if op.OpenExam? {
      AssignEffect(s, op.exam, op.user, op.draws);
    }
  }

  lemma BankFrame(s: State, op: Op)
    requires !(op.CreateProblem? || op.DeleteProblem? || op.AddTestCase? || op.DeleteTestCase?)
    ensures Step(s, op).0.bank == s.bank
  {
    hide TeachesCourse, OwnsExam, StepCourse, StepSubmit, Assign, CanAccessExam, RowsOf, GradeRows, ProgressOf,
         ExamFor, AllInCourse, AllEnrolledStudents, Distinct;
    if IsCourseOp(op) {
      CourseOpTables(s, op);
    } else if op.Submit? {
      SubmitShape(s, op);
    } else if op.OpenExam? {
      AssignEffect(s, op.exam, op.user, op.draws);
    }
  }

  lemma GrantsFrame(s: State, op: Op)
    requires !(op.GrantTime? || op.SetOverride? || op.DropOverride? || op.DeleteProblem?)
    ensures Step(s, op).0.grants == s.grants
  {
    hide CanAccessProblem, OwnsProblem, OwnsExam, TeachesCourse, StepSubmit, Assign, CanAccessExam, RowsOf,
         GradeRows, ExamFor, AllInCourse, AllEnrolledStudents, Distinct, ProgressOf,
         Distinctly, Newcomers, Unknowns, NoStudents, StudentsNamed;
    if op.Submit? {
      SubmitShape(s, op);
    } else if op.OpenExam? {
      AssignEffect(s, op.exam, op.user, op.draws);
    }
  }
}
