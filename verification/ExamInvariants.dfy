/** What every request keeps, and what only a teacher's request can change. */
module ExamInvariants {
  import opened Lists
  import opened Options
  import opened ExamModel

  // ---------------------------------------------------------------------------
  // The invariant
  // ---------------------------------------------------------------------------

  /** A well-formed exam: its paper has no repeats and lies within the exam's own course. */
  ghost predicate ExamOk(s: State, exam: Exam) {
    exam.course in s.school.courses && exam.start < exam.end &&
    0 <= exam.lateWindow <= MAX_LATE_WINDOW && 0 <= exam.latePenalty <= 100 &&
    Distinct(PaperIds(exam.paper)) && AllInCourse(s, PaperIds(exam.paper), exam.course)
  }

  ghost predicate ExamsOk(s: State) {
    forall e :: e in s.plan.exams ==> ExamOk(s, s.plan.exams[e])
  }

  /** A stored deal names only problems on the paper. */
  ghost predicate DealsOk(s: State) {
    forall cell :: cell in s.work.deals ==> OnPaper(s, cell.exam, cell.problem)
  }

  ghost predicate ProblemsOk(s: State) {
    (forall p :: p in s.bank.problems ==> p < s.bank.nextProblem && s.bank.problems[p].course in s.school.courses) &&
    (forall c :: c in s.school.courses ==> c < s.school.nextCourse) &&
    (forall e :: e in s.plan.exams ==> e < s.plan.nextExam) &&
    (forall seat :: seat in s.plan.roster ==> seat.exam in s.plan.exams)
  }

  /** In order of id and of time, below the next id and not in the future. */
  ghost predicate Chronological(list: seq<Submission>, next: nat, now: int) {
    (forall i :: 0 <= i < |list| ==> list[i].id < next && list[i].at <= now) &&
    (forall i, j :: 0 <= i < j < |list| ==> list[i].id < list[j].id && list[i].at <= list[j].at)
  }

  ghost predicate SubmissionsOk(s: State) {
    Chronological(s.work.submissions, s.work.nextSubmission, s.now)
  }

  ghost predicate AccountsOk(s: State) {
    (forall a :: a in s.people.emails ==> s.people.emails[a] in s.people.users) &&
    (forall a, b :: a in s.people.emails && b in s.people.emails && s.people.emails[a] == s.people.emails[b] ==> a == b)
  }

  ghost predicate Inv(s: State) {
    ExamsOk(s) && DealsOk(s) && ProblemsOk(s) && SubmissionsOk(s) && AccountsOk(s)
  }

  lemma InitialInv(s: State)
    requires IsInitial(s)
    ensures Inv(s)
  {
  }

  // ---------------------------------------------------------------------------
  // Steps that touch one table each
  // ---------------------------------------------------------------------------

  /** The tables of the exam itself are as they were. */
  ghost predicate SameExamTables(s: State, s': State) {
    s'.people == s.people && s'.bank == s.bank && s'.plan == s.plan && s'.work == s.work
  }

  /** ... and courses are only ever added, in order. */
  ghost predicate CoursesGrow(s: State, s': State) {
    s.now <= s'.now && s.school.courses.Keys <= s'.school.courses.Keys && s.school.nextCourse <= s'.school.nextCourse &&
    forall c :: c in s'.school.courses && c !in s.school.courses ==> c < s'.school.nextCourse
  }

  ghost predicate LeavesExams(s: State, s': State) {
    SameExamTables(s, s') && CoursesGrow(s, s')
  }

  lemma ExamTablesKeepInv(s: State, s': State)
    requires Inv(s) && LeavesExams(s, s')
    ensures Inv(s')
  {
  }

  lemma SetArchivedTables(s: State, u: UserId, c: CourseId, archived: Option<bool>)
    ensures LeavesExams(s, StepSetArchived(s, u, c, archived).0)
  {
  }

  lemma AddStaffTables(s: State, u: UserId, c: CourseId, email: string)
    ensures LeavesExams(s, StepAddStaff(s, u, c, email).0)
  {
  }

  lemma RemoveStaffTables(s: State, u: UserId, c: CourseId, target: UserId)
    ensures LeavesExams(s, StepRemoveStaff(s, u, c, target).0)
  {
  }

  lemma JoinTables(s: State, u: UserId, code: Option<CourseId>)
    ensures LeavesExams(s, StepJoin(s, u, code).0)
  {
  }

  lemma ImportTables(s: State, u: UserId, c: CourseId, addresses: seq<string>)
    ensures LeavesExams(s, StepImport(s, u, c, addresses).0)
  {
  }

  lemma UnenrolTables(s: State, u: UserId, c: CourseId, target: UserId)
    ensures LeavesExams(s, StepUnenrol(s, u, c, target).0)
  {
  }

  lemma GrantTimeTables(s: State, u: UserId, e: ExamId, target: UserId, minutes: int)
    ensures LeavesExams(s, StepGrantTime(s, u, e, target, minutes).0)
  {
  }

  lemma OverrideTables(s: State, u: UserId, cell: Cell, o: Override)
    ensures LeavesExams(s, StepSetOverride(s, u, cell, o).0)
    ensures LeavesExams(s, StepDropOverride(s, u, cell).0)
  {
  }

  lemma CourseOpTables(s: State, op: Op)
    requires IsCourseOp(op)
    ensures LeavesExams(s, StepCourse(s, op).0)
  {
    hide StepSetArchived, StepAddStaff, StepRemoveStaff, StepJoin, StepImport, StepUnenrol, StepGrantTime,
         StepSetOverride, StepDropOverride, CanAccessProblem, OwnsProblem;
    match op
    case SetArchived(u, c, archived) => SetArchivedTables(s, u, c, archived);
    case AddStaff(u, c, email) => AddStaffTables(s, u, c, email);
    case RemoveStaff(u, c, target) => RemoveStaffTables(s, u, c, target);
    case Join(u, code) => JoinTables(s, u, code);
    case Import(u, c, addresses) => ImportTables(s, u, c, addresses);
    case Unenrol(u, c, target) => UnenrolTables(s, u, c, target);
    case GrantTime(u, e, target, minutes) => GrantTimeTables(s, u, e, target, minutes);
    case SetOverride(u, cell, o) => OverrideTables(s, u, cell, o);
    case DropOverride(u, cell) => OverrideTables(s, u, cell, Override(0, 0));
    case _ =>
  }

  // ---------------------------------------------------------------------------
  // Problems and exams
  // ---------------------------------------------------------------------------

  lemma CreateProblemInv(s: State, u: UserId, c: CourseId, cases: nat)
    requires Inv(s)
    ensures Inv(StepCreateProblem(s, u, c, cases).0)
  {
    var s' := StepCreateProblem(s, u, c, cases).0;
    forall e | e in s'.plan.exams ensures ExamOk(s', s'.plan.exams[e]) {
      assert ExamOk(s, s.plan.exams[e]);
    }
    forall cell | cell in s'.work.deals ensures OnPaper(s', cell.exam, cell.problem) {
      assert OnPaper(s, cell.exam, cell.problem);
    }
  }

  lemma CasesInv(s: State, p: ProblemId, cases: nat)
    requires Inv(s) && p in s.bank.problems
    ensures Inv(WithCases(s, p, cases))
  {
  }

  lemma PaperIdsCons(row: PaperRow, rest: seq<PaperRow>)
    ensures PaperIds([row] + rest) == [row.problem] + PaperIds(rest)
  {
  }

  lemma {:induction false} WithoutProblemIds(paper: seq<PaperRow>, p: ProblemId)
    ensures forall q :: q in PaperIds(WithoutProblem(paper, p)) <==> q in PaperIds(paper) && q != p
    ensures Distinct(PaperIds(paper)) ==> Distinct(PaperIds(WithoutProblem(paper, p)))
  {
    hide PaperIds;
    if paper == [] {
      assert PaperIds([]) == [];
    } else {
      var tail := paper[1..];
      WithoutProblemIds(tail, p);
      assert paper == [paper[0]] + tail;
      PaperIdsCons(paper[0], tail);
      PaperIdsCons(paper[0], WithoutProblem(tail, p));
      DistinctCons(paper[0].problem, PaperIds(tail));
      DistinctCons(paper[0].problem, PaperIds(WithoutProblem(tail, p)));
    }
  }

  lemma DistinctCons(x: int, s: seq<int>)
    ensures Distinct([x] + s) <==> Distinct(s) && x !in s
  {
    var t := [x] + s;
    if Distinct(s) && x !in s {
      forall i, j | 0 <= i < j < |t| ensures t[i] != t[j] {
        assert t[j] == s[j - 1];
      }
    }
    if Distinct(t) {
      forall i | 0 <= i < |s| ensures s[i] != x {
        assert t[i + 1] == s[i] && t[0] == x;
      }
      forall i, j | 0 <= i < j < |s| ensures s[i] != s[j] {
        assert t[i + 1] == s[i] && t[j + 1] == s[j];
      }
    }
  }

  lemma {:induction false} KeepSubmissionsExact(list: seq<Submission>, p: ProblemId, row: Submission)
    ensures row in KeepSubmissions(list, p) <==> row in list && row.problem != p
  {
    if list == [] {
    } else {
      KeepSubmissionsExact(list[1..], p, row);
      assert list == [list[0]] + list[1..];
    }
  }

  lemma ChronologicalCons(row: Submission, list: seq<Submission>, next: nat, now: int)
    ensures Chronological([row] + list, next, now) <==>
            Chronological(list, next, now) && row.id < next && row.at <= now &&
            forall r :: r in list ==> row.id < r.id && row.at <= r.at
  {
    var t := [row] + list;
    if Chronological(t, next, now) {
      forall i | 0 <= i < |list|
        ensures list[i].id < next && list[i].at <= now && row.id < list[i].id && row.at <= list[i].at
      {
        assert t[0] == row && t[i + 1] == list[i];
      }
      forall i, j | 0 <= i < j < |list| ensures list[i].id < list[j].id && list[i].at <= list[j].at {
        assert t[i + 1] == list[i] && t[j + 1] == list[j];
      }
    }
    if Chronological(list, next, now) && row.id < next && row.at <= now &&
       forall r :: r in list ==> row.id < r.id && row.at <= r.at {
      forall i, j | 0 <= i < j < |t| ensures t[i].id < t[j].id && t[i].at <= t[j].at {
        assert t[j] == list[j - 1];
        assert i > 0 ==> t[i] == list[i - 1];
      }
    }
  }

  lemma {:induction false} KeepSubmissionsOk(list: seq<Submission>, p: ProblemId, next: nat, now: int)
    requires Chronological(list, next, now)
    ensures Chronological(KeepSubmissions(list, p), next, now)
  {
    if list == [] {
    } else {
      hide Chronological;
      var rest := KeepSubmissions(list[1..], p);
      assert list == [list[0]] + list[1..];
      ChronologicalCons(list[0], list[1..], next, now);
      ChronologicalCons(list[0], rest, next, now);
      KeepSubmissionsOk(list[1..], p, next, now);
      forall r | r in rest ensures r in list[1..] {
        KeepSubmissionsExact(list[1..], p, r);
      }
    }
  }

  lemma DeleteProblemInv(s: State, u: UserId, p: ProblemId)
    requires Inv(s)
    ensures Inv(StepDeleteProblem(s, u, p).0)
  {
    if IsTeacher(s, u) && OwnsProblem(s, u, p) {
      var s' := StepDeleteProblem(s, u, p).0;
      forall e | e in s'.plan.exams ensures ExamOk(s', s'.plan.exams[e]) {
        assert ExamOk(s, s.plan.exams[e]);
        PaperWithoutProblem(s, s', s.plan.exams[e], p);
      }
      forall cell | cell in s'.work.deals ensures OnPaper(s', cell.exam, cell.problem) {
        assert OnPaper(s, cell.exam, cell.problem);
        WithoutProblemIds(s.plan.exams[cell.exam].paper, p);
      }
      KeepSubmissionsOk(s.work.submissions, p, s.work.nextSubmission, s.now);
    }
  }

  lemma PaperWithoutProblem(s: State, s': State, exam: Exam, p: ProblemId)
    requires ExamOk(s, exam) && s'.bank.problems == s.bank.problems - {p} && s'.school.courses == s.school.courses
    ensures ExamOk(s', exam.(paper := WithoutProblem(exam.paper, p)))
  {
    WithoutProblemIds(exam.paper, p);
    var ids, rest := PaperIds(exam.paper), PaperIds(WithoutProblem(exam.paper, p));
    forall i | 0 <= i < |rest| ensures rest[i] in s'.bank.problems && s'.bank.problems[rest[i]].course == exam.course {
      assert rest[i] in rest;
      assert rest[i] in ids;
    }
  }

  /** Replacing or adding one well-formed exam, with deals that stay on the papers. */
  lemma PutExamInv(s: State, s': State, e: ExamId, exam: Exam)
    requires Inv(s) && ExamOk(s, exam) && e < s'.plan.nextExam && s.plan.nextExam <= s'.plan.nextExam
    requires s' == s.(plan := Plan(s.plan.exams[e := exam], s'.plan.roster, s'.plan.nextExam),
                      work := s.work.(deals := s'.work.deals))
    requires s'.work.deals <= s.work.deals
    requires forall cell :: cell in s'.work.deals && cell.exam == e ==> cell.problem in PaperIds(exam.paper)
    requires forall seat :: seat in s'.plan.roster && seat !in s.plan.roster ==> seat.exam == e
    ensures Inv(s')
  {
    forall f | f in s'.plan.exams ensures ExamOk(s', s'.plan.exams[f]) {
      assert f != e ==> ExamOk(s, s.plan.exams[f]);
    }
    forall cell | cell in s'.work.deals ensures OnPaper(s', cell.exam, cell.problem) {
      assert OnPaper(s, cell.exam, cell.problem);
    }
  }

  lemma CreateExamInv(s: State, u: UserId, c: CourseId, d: Draft, sitters: Option<seq<UserId>>)
    requires Inv(s)
    ensures Inv(StepCreateExam(s, u, c, d, sitters).0)
  {
    hide Inv;
    var (s', r) := StepCreateExam(s, u, c, d, sitters);
    if r.Created? {
      FreshExamUndealt(s);
      PutExamInv(s, s', s.plan.nextExam, ExamFor(c, d));
    }
  }

  lemma FreshExamUndealt(s: State)
    requires Inv(s)
    ensures forall cell :: cell in s.work.deals ==> cell.exam != s.plan.nextExam
  {
  }

  lemma EditExamInv(s: State, u: UserId, e: ExamId, d: Draft)
    requires Inv(s)
    ensures Inv(StepEditExam(s, u, e, d).0)
  {
    var (s', r) := StepEditExam(s, u, e, d);
    if r.Done? {
      assert ExamOk(s, s.plan.exams[e]);
      assert e < s.plan.nextExam;
      hide Inv;
      PutExamInv(s, s', e, ExamFor(s.plan.exams[e].course, d));
    }
  }

  lemma SetRosterInv(s: State, u: UserId, e: ExamId, sitters: seq<UserId>)
    requires Inv(s)
    ensures Inv(StepSetRoster(s, u, e, sitters).0)
  {
    var (s', r) := StepSetRoster(s, u, e, sitters);
    if r.Done? {
      forall f | f in s'.plan.exams ensures ExamOk(s', s'.plan.exams[f]) {
        assert ExamOk(s, s.plan.exams[f]);
      }
      forall cell | cell in s'.work.deals ensures OnPaper(s', cell.exam, cell.problem) {
        assert OnPaper(s, cell.exam, cell.problem);
      }
    }
  }

  // ---------------------------------------------------------------------------
  // Sitting and grading
  // ---------------------------------------------------------------------------

  /** Nothing but deals, the submissions and their counter. */
  ghost predicate OnlySessionTables(s: State, s': State) {
    s' == s.(work := s'.work)
  }

  /** What an assignment leaves: perhaps a new deal, of problems on the paper, for this student. */
  lemma AssignEffect(s: State, e: ExamId, u: UserId, js: seq<nat>)
    ensures var (s', dealt) := Assign(s, e, u, js);
            s' == s.(work := s.work.(deals := s'.work.deals)) && s.work.deals <= s'.work.deals &&
            (forall cell :: cell in s'.work.deals && cell !in s.work.deals ==>
              cell.exam == e && cell.user == u && OnPaper(s, e, cell.problem))
  {
  }

  lemma SessionInv(s: State, s': State)
    requires Inv(s) && OnlySessionTables(s, s')
    requires forall cell :: cell in s'.work.deals && cell !in s.work.deals ==> OnPaper(s, cell.exam, cell.problem)
    requires SubmissionsOk(s')
    ensures Inv(s')
  {
  }

  lemma OpenExamInv(s: State, u: UserId, e: ExamId, js: seq<nat>)
    requires Inv(s)
    ensures Inv(StepOpenExam(s, u, e, js).0)
  {
    hide Assign, CanAccessExam, RowsOf, HasStarted, OnPaper;
    var s' := StepOpenExam(s, u, e, js).0;
    AssignEffect(s, e, u, js);
    SessionInv(s, s');
  }

  lemma InsertInv(s: State, u: UserId, p: ProblemId, exam: Option<ExamId>, isLate: bool, penalty: int, enqueued: bool)
    requires Inv(s) && p in s.bank.problems
    ensures Inv(Insert(s, u, p, exam, isLate, penalty, enqueued).0)
  {
    var s' := Insert(s, u, p, exam, isLate, penalty, enqueued).0;
    assert SubmissionsOk(s');
    SessionInv(s, s');
  }

  lemma AssignInv(s: State, e: ExamId, u: UserId, js: seq<nat>)
    requires Inv(s)
    ensures Inv(Assign(s, e, u, js).0) && Assign(s, e, u, js).0.bank == s.bank
  {
    hide Assign, OnPaper;
    AssignEffect(s, e, u, js);
    SessionInv(s, Assign(s, e, u, js).0);
  }

  lemma SubmitDealtInv(
    s: State, u: UserId, p: ProblemId, e: ExamId, isLate: bool, penalty: int, enqueued: bool, js: seq<nat>)
    requires Inv(s) && p in s.bank.problems
    ensures Inv(SubmitDealt(s, u, p, e, isLate, penalty, enqueued, js).0)
  {
    hide Inv, Assign, Insert;
    AssignInv(s, e, u, js);
    InsertInv(Assign(s, e, u, js).0, u, p, Some(e), isLate, penalty, enqueued);
  }

  lemma AccessibleExists(s: State, u: UserId, p: ProblemId)
    requires CanAccessProblem(s, u, p)
    ensures p in s.bank.problems
  {
  }

  lemma SubmitInv(s: State, u: UserId, p: ProblemId, exam: Option<ExamId>, enqueued: bool, js: seq<nat>)
    requires Inv(s)
    ensures Inv(StepSubmit(s, u, p, exam, enqueued, js).0)
  {
    hide Inv, SubmitDealt, Insert, WindowOf, CanAccessExam, CanAccessProblem, IsArchived;
    if CanAccessProblem(s, u, p) {
      AccessibleExists(s, u, p);
      if exam.None? {
        InsertInv(s, u, p, None, false, 0, enqueued);
      } else {
        var e := exam.value;
        SubmitDealtInv(s, u, p, e, false, 0, enqueued, js);
        if WindowOf(s, e, u).Late? {
          SubmitDealtInv(s, u, p, e, true, WindowOf(s, e, u).penalty, enqueued, js);
        }
      }
    }
  }

  lemma GradeInv(s: State, id: nat, o: Outcome)
    requires Inv(s)
    ensures Inv(s.(work := s.work.(submissions := GradeRows(s.work.submissions, id, o))))
  {
    var s' := s.(work := s.work.(submissions := GradeRows(s.work.submissions, id, o)));
    assert SubmissionsOk(s');
    SessionInv(s, s');
  }

  // ---------------------------------------------------------------------------
  // Every request, every run
  // ---------------------------------------------------------------------------

  lemma TestCaseInv(s: State, u: UserId, p: ProblemId)
    requires Inv(s)
    ensures Inv(StepAddTestCase(s, u, p).0) && Inv(StepDeleteTestCase(s, u, p).0)
  {
    hide Inv;
    if OwnsProblem(s, u, p) {
      var cases := s.bank.problems[p].cases;
      CasesInv(s, p, cases + 1);
      CasesInv(s, p, if cases == 0 then 0 else cases - 1);
    }
  }

  lemma StepExamInv(s: State, op: Op)
    requires Inv(s) && !IsCourseOp(op)
    ensures Inv(StepExam(s, op).0)
  {
    hide Inv, StepCreateProblem, StepDeleteProblem, StepAddTestCase, StepDeleteTestCase, StepCreateExam,
         StepEditExam, StepSetRoster, StepOpenExam, StepSubmit, GradeRows;
    match op
    case CreateProblem(u, c, cases) => CreateProblemInv(s, u, c, cases);
    case DeleteProblem(u, p) => DeleteProblemInv(s, u, p);
    case AddTestCase(u, p) => TestCaseInv(s, u, p);
    case DeleteTestCase(u, p) => TestCaseInv(s, u, p);
    case CreateExam(u, c, draft, sitters) => CreateExamInv(s, u, c, draft, sitters);
    case EditExam(u, e, draft) => EditExamInv(s, u, e, draft);
    case SetRoster(u, e, sitters) => SetRosterInv(s, u, e, sitters);
    case OpenExam(u, e, js) => OpenExamInv(s, u, e, js);
    case Submit(u, p, exam, enqueued, js) => SubmitInv(s, u, p, exam, enqueued, js);
    case Grade(id, outcome) => GradeInv(s, id, outcome);
  }

  lemma StepInv(s: State, op: Op)
    requires Inv(s)
    ensures Inv(Step(s, op).0)
  {
    hide Inv, StepCourse, StepExam, LeavesExams;
    if IsCourseOp(op) {
      CourseOpTables(s, op);
      ExamTablesKeepInv(s, StepCourse(s, op).0);
    } else {
      StepExamInv(s, op);
    }
  }

  /** The invariant holds in every state of every run. */
  lemma {:induction false} RunInv(s: State, ops: seq<Op>)
    requires Inv(s)
    ensures Inv(Exec(s, ops))
  {
    hide Inv, Step;
    if ops == [] {
    } else {
      RunInv(s, ops[..|ops| - 1]);
      StepInv(Exec(s, ops[..|ops| - 1]), ops[|ops| - 1]);
    }
  }
}
