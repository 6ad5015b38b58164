/** What holds over whole runs of the exam machine. */
module ExamSafety {
  import opened Lists
  import opened Options
  import opened ExamModel
  import opened ExamInvariants
  import Dealing

  // ---------------------------------------------------------------------------
  // Requests that only a teacher can make
  // ---------------------------------------------------------------------------

  predicate IsAdministrative(op: Op) {
    op.CreateCourse? || op.SetArchived? || op.AddStaff? || op.RemoveStaff? || op.Import? || op.Unenrol? ||
    op.CreateProblem? || op.UpdateProblem? || op.DeleteProblem? || op.AddTestCase? || op.DeleteTestCase? ||
    op.CreateExam? || op.EditExam? || op.SetRoster? || op.GrantTime? || op.SetOverride? || op.DropOverride?
  }

  predicate IsTeacherStep(s: State, op: Op) {
    IsAdministrative(op) && IsTeacher(s, op.user)
  }

  /** Anyone else is refused, and nothing happens. */
  lemma OnlyTeachersAdminister(s: State, op: Op)
    requires IsAdministrative(op) && !IsTeacher(s, op.user)
    ensures Step(s, op) == (s, WrongRole)
  {
  }

  /** No teacher has acted: the courses and papers stand, people may have joined, time may have passed. */
  ghost predicate Calm(s: State, s': State) {
    s'.people == s.people && s'.bank == s.bank && s'.plan == s.plan && s'.grants == s.grants &&
    s'.school.courses == s.school.courses && s.school.enrolled <= s'.school.enrolled && s.now <= s'.now &&
    s.work.deals <= s'.work.deals
  }

  lemma CalmSubmit(s: State, u: UserId, p: ProblemId, exam: Option<ExamId>, enqueued: bool, js: seq<nat>)
    ensures Calm(s, StepSubmit(s, u, p, exam, enqueued, js).0)
  {
    hide Assign, CanAccessProblem, CanAccessExam, WindowOf, OnPaper;
    if exam.Some? {
      AssignEffect(s, exam.value, u, js);
    }
  }

  lemma CalmStep(s: State, op: Op)
    requires !IsTeacherStep(s, op)
    ensures Calm(s, Step(s, op).0)
  {
    if IsAdministrative(op) {
      OnlyTeachersAdminister(s, op);
    } else {
      hide Assign, StepSubmit, CanAccessProblem, CanAccessExam, OnPaper, GradeRows, RowsOf;
      match op
      case Submit(u, p, exam, enqueued, js) => CalmSubmit(s, u, p, exam, enqueued, js);
      case OpenExam(u, e, js) => AssignEffect(s, e, u, js);
      case _ =>
    }
  }

  ghost predicate CalmRun(s: State, ops: seq<Op>) {
    ops == [] ||
    (CalmRun(s, ops[..|ops| - 1]) && !IsTeacherStep(Exec(s, ops[..|ops| - 1]), ops[|ops| - 1]))
  }

  lemma {:induction false} CalmRunIsCalm(s: State, ops: seq<Op>)
    requires CalmRun(s, ops)
    ensures Calm(s, Exec(s, ops))
  {
    hide Step;
    if ops == [] {
    } else {
      CalmRunIsCalm(s, ops[..|ops| - 1]);
      CalmStep(Exec(s, ops[..|ops| - 1]), ops[|ops| - 1]);
    }
  }

  // ---------------------------------------------------------------------------
  // Sealing
  // ---------------------------------------------------------------------------

  lemma {:induction false} RowsOfExact(paper: seq<PaperRow>, dealt: set<ProblemId>, p: ProblemId)
    ensures p in PaperIds(RowsOf(paper, dealt)) <==> p in PaperIds(paper) && p in dealt
  {
    hide PaperIds;
    if paper == [] {
      assert PaperIds([]) == [];
    } else {
      assert paper == [paper[0]] + paper[1..];
      PaperIdsCons(paper[0], paper[1..]);
      PaperIdsCons(paper[0], RowsOf(paper[1..], dealt));
      RowsOfExact(paper[1..], dealt, p);
    }
  }

  lemma OnPaperInCourse(s: State, e: ExamId, p: ProblemId)
    requires Inv(s) && OnPaper(s, e, p)
    ensures p in s.bank.problems && s.bank.problems[p].course == s.plan.exams[e].course
  {
  }

  /** A started exam the student sits opens every problem on its paper. */
  lemma StartedPaperAccessible(s: State, u: UserId, e: ExamId, p: ProblemId)
    requires Inv(s) && IsStudent(s, u)
    requires CanAccessExam(s, u, e) && HasStarted(s, e) && OnPaper(s, e, p)
    ensures CanAccessProblem(s, u, p)
  {
  }

  /** Without a teacher step, what a student could read they can still read. */
  lemma AccessPersists(s: State, ops: seq<Op>, u: UserId, p: ProblemId)
    requires CalmRun(s, ops) && IsStudent(s, u) && CanAccessProblem(s, u, p)
    ensures CanAccessProblem(Exec(s, ops), u, p)
  {
    CalmRunIsCalm(s, ops);
    var s' := Exec(s, ops);
    hide Exec;
    if OnAnyPaper(s', p) {
      var f :| f in s'.plan.exams && OnPaper(s', f, p);
      assert OnPaper(s, f, p);
      var e :| e in s.plan.exams && OnPaper(s, e, p) && HasStarted(s, e) && Sits(s, e, u);
      assert OnPaper(s', e, p) && HasStarted(s', e) && Sits(s', e, u);
    }
  }

  // ---------------------------------------------------------------------------
  // Deals
  // ---------------------------------------------------------------------------

  lemma {:induction false} SetOfDistinct(s: seq<int>, t: set<int>)
    requires Distinct(s) && t == set x | x in s
    ensures |t| == |s|
  {
    if s == [] {
    } else {
      assert s == [s[0]] + s[1..];
      DistinctCons(s[0], s[1..]);
      assert t - {s[0]} == set x | x in s[1..];
      SetOfDistinct(s[1..], t - {s[0]});
    }
  }

  /** How many problems a fresh deal gives. */
  function DealSize(exam: Exam): nat
    requires Randomises(exam)
  {
    var n := exam.perStudent.value;
    if n > 0 then n else if |exam.paper| + n < 0 then 0 else |exam.paper| + n
  }

  /**
   * A fresh deal is that many distinct problems of the paper. For a positive number per student it
   * is that number; a negative one, which creating an exam lets through, leaves that many off.
   */
  lemma FreshDealSize(exam: Exam, js: seq<nat>)
    requires Randomises(exam) && Distinct(PaperIds(exam.paper))
    ensures |FreshDeal(exam, js)| == DealSize(exam)
    ensures FreshDeal(exam, js) <= IdSet(exam)
  {
    var ids := PaperIds(exam.paper);
    var items := AsInts(ids);
    assert items == ids;
    var ks := AsChoice(js, |ids|);
    var chosen := Dealing.Deal(items, exam.perStudent.value, ks);
    Dealing.DealShape(items, exam.perStudent.value, ks);
    assert Distinct(chosen);
    assert FreshDeal(exam, js) == set x | x in chosen;
    SetOfDistinct(chosen, FreshDeal(exam, js));
  }

  /** A fresh deal is the shuffle's choice among the problems of the paper. */
  lemma FreshIsDealt(exam: Exam, js: seq<nat>)
    requires Randomises(exam)
    ensures FreshDeal(exam, js) ==
            Dealing.Dealt(PaperIds(exam.paper), exam.perStudent.value, AsChoice(js, |exam.paper|))
  {
    var ids, ks := PaperIds(exam.paper), AsChoice(js, |exam.paper|);
    assert AsInts(ids) == ids && |ids| == |exam.paper|;
    Dealing.DealWithinItems(ids, exam.perStudent.value, ks);
    hide Dealing.Deal, AsChoice, AsInts, PaperIds;
    var chosen := Dealing.Deal(ids, exam.perStudent.value, ks);
    forall p ensures p in FreshDeal(exam, js) <==> p in Dealing.Dealt(ids, exam.perStudent.value, ks) {
      assert p in FreshDeal(exam, js) <==> p in ids && p in chosen;
      assert p in Dealing.Elements(chosen) <==> p in chosen;
    }
  }

  /** Which choice vectors deal this subset of the paper. */
  ghost function VectorsFor(exam: Exam, subset: set<ProblemId>): set<seq<nat>>
    requires Randomises(exam)
  {
    set js | js in Dealing.ChoiceVectors(|exam.paper|) && FreshDeal(exam, js) == subset
  }

  lemma VectorsForExact(exam: Exam, subset: set<ProblemId>)
    requires Randomises(exam)
    ensures VectorsFor(exam, subset) ==
            Dealing.VectorsDealing(PaperIds(exam.paper), exam.perStudent.value, subset)
  {
    hide FreshDeal, Dealing.Dealt, Dealing.ChoiceVectors, Dealing.IsChoice;
    var ids := PaperIds(exam.paper);
    forall js | js in Dealing.ChoiceVectors(|exam.paper|)
      ensures Dealing.IsChoice(js, |ids|) && FreshDeal(exam, js) == Dealing.Dealt(ids, exam.perStudent.value, js)
    {
      Dealing.ChoiceVectorsExact(|exam.paper|, js);
      FreshIsDealt(exam, js);
    }
  }

  /**
   * The fairness of a fresh deal: every set of that many problems of the paper can be dealt, and any
   * two of them are dealt by equally many choice vectors.
   */
  lemma FreshDealIsFair(exam: Exam, s: set<ProblemId>, t: set<ProblemId>)
    requires Randomises(exam) && Distinct(PaperIds(exam.paper))
    requires s <= IdSet(exam) && t <= IdSet(exam) && |s| == |t| == DealSize(exam)
    ensures exists js :: FreshDeal(exam, js) == s
    ensures |VectorsFor(exam, s)| == |VectorsFor(exam, t)| > 0
  {
    hide FreshDeal, DealSize, Dealing.Dealt, Dealing.ChoiceVectors;
    var ids := PaperIds(exam.paper);
    assert IdSet(exam) == Dealing.Elements(ids);
    CutSize(exam);
    var js := Dealing.DealsSubset(ids, exam.perStudent.value, s);
    FreshIsDealt(exam, js);
    Dealing.ChoiceVectorsExact(|ids|, js);
    assert js in VectorsFor(exam, s);
    VectorsForExact(exam, s);
    VectorsForExact(exam, t);
    Dealing.SubsetsEquallyLikely(ids, exam.perStudent.value, s, t);
  }

  lemma CutSize(exam: Exam)
    requires Randomises(exam)
    ensures |Dealing.SliceTo(PaperIds(exam.paper), exam.perStudent.value)| == DealSize(exam)
  {
  }

  /** Creating an exam stores a negative number per student, and so shrinks everybody's deal by it. */
  lemma NegativePerStudentIsStored(s: State, t: UserId, c: CourseId, ids: seq<ProblemId>, n: int)
    requires TeachesCourse(s, t, c) && !IsArchived(s, c) && ids != [] && Distinct(ids) && AllInCourse(s, ids, c)
    requires n > 0
    ensures var d := Draft(0, 1, 0, 0, Some(-n), ids, None);
            var (s', r) := StepCreateExam(s, t, c, d, None);
            r == Created(s.plan.nextExam) && s.plan.nextExam in s'.plan.exams &&
            var exam := s'.plan.exams[s.plan.nextExam];
            exam.perStudent == Some(-n) && Randomises(exam) &&
            DealSize(exam) == if n < |ids| then |ids| - n else 0
  {
    hide Distinct, AllInCourse;
  }

  /** From nothing, three requests get there: an exam on one problem that deals its students none. */
  lemma EmptyDealIsReachable(s0: State, t: UserId)
    requires IsInitial(s0) && IsTeacher(s0, t)
    ensures var c, p, e := s0.school.nextCourse, s0.bank.nextProblem, s0.plan.nextExam;
            var ops := [CreateCourse(t), CreateProblem(t, c, 1),
                        CreateExam(t, c, Draft(0, 1, 0, 0, Some(-1), [p], None), None)];
            e in Exec(s0, ops).plan.exams && Randomises(Exec(s0, ops).plan.exams[e]) &&
            PaperIds(Exec(s0, ops).plan.exams[e].paper) == [p] && DealSize(Exec(s0, ops).plan.exams[e]) == 0
  {
    hide StepCreateExam, DealSize, Randomises, IsInitial;
    var c, p := s0.school.nextCourse, s0.bank.nextProblem;
    var d := Draft(0, 1, 0, 0, Some(-1), [p], None);
    var a, b, last := CreateCourse(t), CreateProblem(t, c, 1), CreateExam(t, c, d, None);
    assert [a, b, last][..2] == [a, b] && [a, b][..1] == [a] && [a][..0] == [];
    FirstCourse(s0, t);
    var s1 := Step(s0, a).0;
    assert Exec(s0, [a]) == s1 by {
      assert Exec(s0, []) == s0;
    }
    FirstProblem(s1, t, c);
    var s2 := Step(s1, b).0;
    assert Exec(s0, [a, b]) == s2;
    assert Exec(s0, [a, b, last]) == Step(s2, last).0;
    NegativePerStudentIsStored(s2, t, c, [p], 1);
    StoredPaper(s2, t, c, d);
  }

  lemma FirstCourse(s: State, t: UserId)
    requires IsTeacher(s, t)
    ensures var s', c := Step(s, CreateCourse(t)).0, s.school.nextCourse;
            TeachesCourse(s', t, c) && !IsArchived(s', c) &&
            s'.people == s.people && s'.bank == s.bank && s'.plan == s.plan
  {
  }

  lemma FirstProblem(s: State, t: UserId, c: CourseId)
    requires TeachesCourse(s, t, c) && !IsArchived(s, c)
    ensures var s', p := Step(s, CreateProblem(t, c, 1)).0, s.bank.nextProblem;
            TeachesCourse(s', t, c) && !IsArchived(s', c) && s'.people == s.people && s'.plan == s.plan &&
            AllInCourse(s', [p], c)
  {
  }

  lemma StoredPaper(s: State, t: UserId, c: CourseId, d: Draft)
    requires t in s.people.users && StepCreateExam(s, t, c, d, None).1 == Created(s.plan.nextExam)
    ensures Step(s, CreateExam(t, c, d, None)).0 == StepCreateExam(s, t, c, d, None).0
    ensures PaperIds(Step(s, CreateExam(t, c, d, None)).0.plan.exams[s.plan.nextExam].paper) == d.problems
  {
    hide Distinct, AllInCourse;
  }

  /** Asking again, with whatever draws, gives the same problems and changes nothing more. */
  lemma AssignSettles(s: State, e: ExamId, u: UserId, js: seq<nat>, ks: seq<nat>)
    requires Inv(s)
    ensures Assign(Assign(s, e, u, js).0, e, u, ks) == Assign(s, e, u, js)
  {
    if e in s.plan.exams && Randomises(s.plan.exams[e]) && DealOf(s, e, u) == {} {
      assert ExamOk(s, s.plan.exams[e]);
      FreshDealSize(s.plan.exams[e], js);
      FreshDealSize(s.plan.exams[e], ks);
      hide Inv, Randomises, FreshDeal;
      var s', chosen := Assign(s, e, u, js).0, Assign(s, e, u, js).1;
      DealRecorded(s, e, u, chosen);
      if chosen == {} {
        assert s' == s;
        assert |FreshDeal(s.plan.exams[e], ks)| == 0;
      }
    }
  }

  lemma DealRecorded(s: State, e: ExamId, u: UserId, chosen: set<ProblemId>)
    requires DealOf(s, e, u) == {}
    ensures DealOf(s.(work := s.work.(deals := s.work.deals + set p | p in chosen :: Cell(e, u, p))), e, u) == chosen
  {
    var s' := s.(work := s.work.(deals := s.work.deals + set p | p in chosen :: Cell(e, u, p)));
    forall p ensures p in DealOf(s', e, u) <==> p in chosen {
      if p in chosen {
        assert Cell(e, u, p) in s'.work.deals;
      }
      if p in DealOf(s', e, u) {
        var cell :| cell in s'.work.deals && cell.exam == e && cell.user == u && cell.problem == p;
        if cell in s.work.deals {
          assert p in DealOf(s, e, u);
        }
      }
    }
  }

  /** An edit keeps of every stored deal the part still on the paper, whatever its size. */
  lemma EditKeepsDealOnPaper(s: State, u: UserId, e: ExamId, d: Draft, student: UserId, f: ExamId)
    requires StepEditExam(s, u, e, d).1 == Done
    ensures DealOf(StepEditExam(s, u, e, d).0, f, student)
         == if f == e then DealOf(s, f, student) * (set p | p in d.problems) else DealOf(s, f, student)
  {
    var s' := StepEditExam(s, u, e, d).0;
    var expected := if f == e then DealOf(s, f, student) * (set p | p in d.problems) else DealOf(s, f, student);
    forall p ensures p in DealOf(s', f, student) <==> p in expected {
      CellInDeal(s, f, student, p);
      CellInDeal(s', f, student, p);
    }
  }

  lemma CellInDeal(s: State, e: ExamId, u: UserId, p: ProblemId)
    ensures p in DealOf(s, e, u) <==> Cell(e, u, p) in s.work.deals
  {
  }

  /**
   * A roster change erases exactly the deals of the students not named, so the empty roster, which
   * hands the exam to the whole course, erases all of them. Granted extra time stays as it was.
   */
  lemma RosterErasesOthersDeals(s: State, u: UserId, e: ExamId, sitters: seq<UserId>, student: UserId, f: ExamId)
    requires StepSetRoster(s, u, e, sitters).1 == Done
    ensures DealOf(StepSetRoster(s, u, e, sitters).0, f, student)
         == if f == e && student !in sitters then {} else DealOf(s, f, student)
    ensures StepSetRoster(s, u, e, sitters).0.grants == s.grants
  {
    var s' := StepSetRoster(s, u, e, sitters).0;
    forall p ensures p in DealOf(s', f, student)
                <==> p in DealOf(s, f, student) && !(f == e && student !in sitters) {
      CellInDeal(s, f, student, p);
      CellInDeal(s', f, student, p);
    }
  }

  /** The only requests that can change a deal already made. */
  predicate TouchesDeals(op: Op, e: ExamId) {
    op.DeleteProblem? || (op.EditExam? && op.exam == e) || (op.SetRoster? && op.exam == e)
  }

  /** The deal is made, or there is nothing to deal. */
  ghost predicate IsDealt(s: State, e: ExamId, u: UserId)
    requires e in s.plan.exams
  {
    DealOf(s, e, u) != {} || (Randomises(s.plan.exams[e]) && DealSize(s.plan.exams[e]) == 0)
  }

  /** The exam stands, and this student's deal, once made, stands with it. */
  ghost predicate SameDeal(s: State, s': State, e: ExamId, u: UserId) {
    e in s.plan.exams && e in s'.plan.exams && s'.plan.exams[e] == s.plan.exams[e] &&
    (IsDealt(s, e, u) ==> DealOf(s', e, u) == DealOf(s, e, u))
  }

  lemma AssignKeepsDeals(s: State, e: ExamId, u: UserId, f: ExamId, v: UserId, js: seq<nat>)
    requires Inv(s) && e in s.plan.exams
    ensures SameDeal(s, Assign(s, f, v, js).0, e, u)
  {
    assert ExamOk(s, s.plan.exams[e]);
    if Randomises(s.plan.exams[e]) {
      FreshDealSize(s.plan.exams[e], js);
    }
    hide Inv, ExamOk, Randomises, FreshDeal, DealSize;
    var s' := Assign(s, f, v, js).0;
    AssignEffect(s, f, v, js);
    if IsDealt(s, e, u) {
      assert DealOf(s, e, u) == {} && (f, v) == (e, u) ==> s'.work.deals == s.work.deals;
      forall p ensures p in DealOf(s', e, u) <==> p in DealOf(s, e, u) {
        CellInDeal(s, e, u, p);
        CellInDeal(s', e, u, p);
      }
    }
  }

  lemma SubmitKeepsDeals(s: State, e: ExamId, u: UserId, op: Op)
    requires Inv(s) && op.Submit? && e in s.plan.exams
    ensures SameDeal(s, StepSubmit(s, op.user, op.problem, op.forExam, op.enqueued, op.draws).0, e, u)
  {
    hide Inv, Assign, CanAccessProblem, CanAccessExam, WindowOf;
    if op.forExam.Some? {
      AssignKeepsDeals(s, e, u, op.forExam.value, op.user, op.draws);
    }
  }

  lemma EditKeepsOtherDeals(s: State, op: Op, e: ExamId, u: UserId)
    requires op.EditExam? && op.exam != e && e in s.plan.exams
    ensures SameDeal(s, StepEditExam(s, op.user, op.exam, op.draft).0, e, u)
  {
    hide AllInCourse, PassesEditSchema, ExamFor, Distinct, DealOf;
    if StepEditExam(s, op.user, op.exam, op.draft).1 == Done {
      EditKeepsDealOnPaper(s, op.user, op.exam, op.draft, u, e);
    }
  }

  lemma RosterKeepsOtherDeals(s: State, op: Op, e: ExamId, u: UserId)
    requires op.SetRoster? && op.exam != e && e in s.plan.exams
    ensures SameDeal(s, StepSetRoster(s, op.user, op.exam, op.sitters).0, e, u)
  {
    hide AllEnrolledStudents, DealOf;
    if StepSetRoster(s, op.user, op.exam, op.sitters).1 == Done {
      RosterErasesOthersDeals(s, op.user, op.exam, op.sitters, u, e);
    }
  }

  lemma CreationKeepsDeals(s: State, op: Op, e: ExamId, u: UserId)
    requires Inv(s) && op.CreateExam? && e in s.plan.exams
    ensures SameDeal(s, StepCreateExam(s, op.user, op.course, op.draft, op.firstSitters).0, e, u)
  {
    assert e < s.plan.nextExam;
    hide Inv, AllEnrolledStudents, AllInCourse, Distinct, ExamFor, DealOf;
  }

  lemma OpeningKeepsDeals(s: State, op: Op, e: ExamId, u: UserId)
    requires Inv(s) && op.OpenExam? && e in s.plan.exams
    ensures SameDeal(s, StepOpenExam(s, op.user, op.exam, op.draws).0, e, u)
  {
    hide Inv, Assign, CanAccessExam, RowsOf, DealOf;
    AssignKeepsDeals(s, e, u, op.exam, op.user, op.draws);
  }

  lemma SameRowsSameDeal(s: State, s': State, e: ExamId, u: UserId)
    ensures s'.work.deals == s.work.deals ==> DealOf(s', e, u) == DealOf(s, e, u)
  {
  }

  lemma StepKeepsDeal(s: State, op: Op, e: ExamId, u: UserId)
    requires Inv(s) && e in s.plan.exams && !TouchesDeals(op, e)
    ensures SameDeal(s, Step(s, op).0, e, u)
  {
    hide Inv, DealOf, StepCourse, StepOpenExam, StepSubmit, StepEditExam, StepSetRoster, StepCreateExam, GradeRows;
    SameRowsSameDeal(s, Step(s, op).0, e, u);
    if IsCourseOp(op) {
      CourseOpTables(s, op);
    } else if op.OpenExam? {
      OpeningKeepsDeals(s, op, e, u);
    } else if op.Submit? {
      SubmitKeepsDeals(s, e, u, op);
    } else if op.EditExam? {
      EditKeepsOtherDeals(s, op, e, u);
    } else if op.SetRoster? {
      RosterKeepsOtherDeals(s, op, e, u);
    } else if op.CreateExam? {
      CreationKeepsDeals(s, op, e, u);
    }
  }

  ghost predicate NoneTouchDeals(ops: seq<Op>, e: ExamId) {
    forall i :: 0 <= i < |ops| ==> !TouchesDeals(ops[i], e)
  }

  lemma {:induction false} RunKeepsDeal(s: State, ops: seq<Op>, e: ExamId, u: UserId)
    requires Inv(s) && e in s.plan.exams && NoneTouchDeals(ops, e)
    ensures SameDeal(s, Exec(s, ops), e, u)
  {
    hide Inv, Step, DealOf;
    if ops == [] {
    } else {
      var front := ops[..|ops| - 1];
      RunKeepsDeal(s, front, e, u);
      RunInv(s, front);
      StepKeepsDeal(Exec(s, front), ops[|ops| - 1], e, u);
    }
  }

  /**
   * Once a student has been given their problems, they are given the same ones by every later
   * request, until that exam is edited, its roster set, or a problem deleted.
   */
  lemma DealIsStable(s: State, e: ExamId, u: UserId, js: seq<nat>, ops: seq<Op>, ks: seq<nat>)
    requires Inv(s) && e in s.plan.exams && NoneTouchDeals(ops, e)
    ensures var (s', dealt) := Assign(s, e, u, js);
            Assign(Exec(s', ops), e, u, ks).1 == dealt
  {
    var (s', dealt) := Assign(s, e, u, js);
    AssignSettles(s, e, u, js, ks);
    AssignInv(s, e, u, js);
    AssignEffect(s, e, u, js);
    RunKeepsDeal(s', ops, e, u);
    assert ExamOk(s, s.plan.exams[e]);
    if Randomises(s.plan.exams[e]) {
      FreshDealSize(s.plan.exams[e], js);
      FreshDealSize(s.plan.exams[e], ks);
      hide Exec, Inv, ExamOk, Randomises, FreshDeal, DealSize;
      if DealOf(s, e, u) == {} {
        DealRecorded(s, e, u, FreshDeal(s.plan.exams[e], js));
      }
    }
  }
}
