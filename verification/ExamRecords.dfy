/**
 * What every run leaves on record: who is enrolled, who teaches, who sits, what an exam asks and when,
 * who has extra time, which problems there are and how a submission was graded, each said by the
 * requests of the run alone.
 */
module ExamRecords {
  import opened Lists
  import opened Options
  import opened Histories
  import opened ExamModel
  import opened ExamInvariants
  import opened ExamResults
  import opened ExamHistory

  // ---------------------------------------------------------------------------
  // Enrolment
  // ---------------------------------------------------------------------------

  lemma {:induction false} DistinctlyExact(addresses: seq<string>, a: string)
    ensures a in Distinctly(addresses) <==> a in addresses && a != ""
  {
    if addresses == [] {
    } else {
      var front := addresses[..|addresses| - 1];
      DistinctlyExact(front, a);
      assert addresses == front + [addresses[|addresses| - 1]];
    }
  }

  /** The student joins with the course's code, or is on a list of addresses imported into it. */
  ghost predicate Enrols(s: State, op: Op, c: CourseId, u: UserId) {
    (op == Join(u, Some(c)) ||
     (op.Import? && op.course == c && IsStudent(s, u) &&
      exists a :: a in op.addresses && a != "" && a in s.people.emails && s.people.emails[a] == u)) &&
    IsTaken(s, op)
  }

  ghost predicate Unenrols(s: State, op: Op, c: CourseId, u: UserId) {
    op.Unenrol? && op.course == c && op.target == u && IsTaken(s, op)
  }

  lemma ImportNames(s: State, c: CourseId, addresses: seq<string>, d: CourseId, u: UserId)
    ensures Member(d, u) in StudentsNamed(s, c, Distinctly(addresses)) <==>
            d == c && IsStudent(s, u) &&
            exists a :: a in addresses && a != "" && a in s.people.emails && s.people.emails[a] == u
  {
    var list := Distinctly(addresses);
    forall a ensures a in list <==> a in addresses && a != "" {
      DistinctlyExact(addresses, a);
    }
    hide Distinctly;
    if Member(d, u) in StudentsNamed(s, c, list) {
      var a :| a in list && a in s.people.emails && IsStudent(s, s.people.emails[a]) &&
               Member(c, s.people.emails[a]) == Member(d, u);
    }
    if a :| d == c && IsStudent(s, u) && a in addresses && a != "" && a in s.people.emails && s.people.emails[a] == u {
      assert a in list;
    }
  }

  lemma StepEnrolled(s: State, op: Op, c: CourseId, u: UserId)
    ensures Member(c, u) in Step(s, op).0.school.enrolled <==>
            Enrols(s, op, c, u) || (Member(c, u) in s.school.enrolled && !Unenrols(s, op, c, u))
  {
    if op.Import? {
      ImportEnrols(s, op, c, u);
    } else if op.Join? || op.Unenrol? {
      AnswersExactly(s, op);
      hide IsTaken;
    } else if op.CreateCourse? || op.SetArchived? || op.AddStaff? || op.RemoveStaff? {
      hide IsTaken;
    } else {
      hide Step, IsTaken;
      SchoolFrame(s, op);
    }
  }

  lemma ImportEnrols(s: State, op: Op, c: CourseId, u: UserId)
    requires op.Import?
    ensures Member(c, u) in Step(s, op).0.school.enrolled <==>
            Enrols(s, op, c, u) || Member(c, u) in s.school.enrolled
  {
    AnswersExactly(s, op);
    ImportNames(s, op.course, op.addresses, c, u);
    hide IsTaken, Distinctly, Newcomers, Unknowns, NoStudents, StudentsNamed;
  }

  lemma {:induction false} ListsExact(s: State, c: CourseId, list: seq<string>, a: string)
    ensures a in Newcomers(s, c, list) <==> a in list && IsNewcomer(s, c, a)
    ensures a in Unknowns(s, list) <==> a in list && IsUnknown(s, a)
    ensures a in NoStudents(s, list) <==> a in list && IsNoStudent(s, a)
  {
    hide IsNewcomer, IsUnknown, IsNoStudent;
    if list == [] {
    } else {
      ListsExact(s, c, list[..|list| - 1], a);
      assert list == list[..|list| - 1] + [list[|list| - 1]];
    }
  }

  /**
   * An import reports every address on the list by what it is: a student's not enrolled before, nobody's,
   * or the account of somebody who is no student.
   */
  lemma ImportReports(s: State, u: UserId, c: CourseId, addresses: seq<string>, a: string)
    requires IsTaken(s, Import(u, c, addresses))
    ensures var r, emails := Step(s, Import(u, c, addresses)).1, s.people.emails;
            var listed := a in addresses && a != "";
            r.Imported? &&
            (a in r.newly <==>
             listed && a in emails && IsStudent(s, emails[a]) && Member(c, emails[a]) !in s.school.enrolled) &&
            (a in r.unknown <==> listed && a !in emails) &&
            (a in r.notStudents <==> listed && a in emails && !IsStudent(s, emails[a]))
  {
    hide Distinctly, Newcomers, Unknowns, NoStudents, StudentsNamed;
    DistinctlyExact(addresses, a);
    ListsExact(s, c, Distinctly(addresses), a);
  }

  ghost predicate EnrolsAt(s0: State, ops: seq<Op>, k: nat, c: CourseId, u: UserId) {
    k < |ops| && Enrols(After(s0, ops, k), ops[k], c, u)
  }

  ghost predicate UnenrolsAt(s0: State, ops: seq<Op>, k: nat, c: CourseId, u: UserId) {
    k < |ops| && Unenrols(After(s0, ops, k), ops[k], c, u)
  }

  /** Enrolled are exactly those who joined or were imported and have not been unenrolled since. */
  lemma EnrolledExactlyWhen(s0: State, ops: seq<Op>, c: CourseId, u: UserId)
    requires IsInitial(s0)
    ensures Member(c, u) in Exec(s0, ops).school.enrolled <==>
            exists i: nat :: i < |ops| && EnrolsAt(s0, ops, i, c, u) &&
              forall j: nat :: i < j < |ops| ==> !UnenrolsAt(s0, ops, j, c, u)
  {
    hide Exec, Step, Enrols, Unenrols, After;
    AfterNothing(s0, ops);
    forall i: nat | i < |ops|
      ensures Member(c, u) in After(s0, ops, i + 1).school.enrolled <==>
              EnrolsAt(s0, ops, i, c, u) ||
              (Member(c, u) in After(s0, ops, i).school.enrolled && !UnenrolsAt(s0, ops, i, c, u))
    {
      AfterStep(s0, ops, i);
      StepEnrolled(After(s0, ops, i), ops[i], c, u);
    }
    var holds := (k: nat) => Member(c, u) in After(s0, ops, k).school.enrolled;
    var sets, clears := (k: nat) => EnrolsAt(s0, ops, k, c, u), (k: nat) => UnenrolsAt(s0, ops, k, c, u);
    LastWins(holds, sets, clears, |ops|);
    assert forall k: nat :: sets(k) <==> EnrolsAt(s0, ops, k, c, u);
    assert forall k: nat :: clears(k) <==> UnenrolsAt(s0, ops, k, c, u);
  }

  // ---------------------------------------------------------------------------
  // Courses
  // ---------------------------------------------------------------------------

  function StaffOf(s: State, c: CourseId): set<UserId> {
    if c in s.school.courses then s.school.courses[c].staff else {}
  }

  /** The owner appoints the teacher with this address. */
  ghost predicate Appoints(s: State, op: Op, c: CourseId, u: UserId) {
    op.AddStaff? && op.course == c && IsTaken(s, op) && s.people.emails[op.email] == u
  }

  ghost predicate Dismisses(s: State, op: Op, c: CourseId, u: UserId) {
    op.RemoveStaff? && op.course == c && op.target == u && IsTaken(s, op)
  }

  /** The course is made by this teacher. */
  ghost predicate Founds(s: State, op: Op, c: CourseId, u: UserId) {
    op == CreateCourse(u) && IsTaken(s, op) && s.school.nextCourse == c
  }

  ghost predicate IsOwnedBy(s: State, c: CourseId, u: UserId) {
    c in s.school.courses && s.school.courses[c].owner == u
  }

  /** What this request makes of the course's archived flag, if anything. */
  ghost function ArchivedBy(s: State, op: Op, c: CourseId): Option<bool> {
    if op.SetArchived? && op.course == c && IsTaken(s, op) then op.archived
    else if op.CreateCourse? && IsTaken(s, op) && s.school.nextCourse == c then Some(false)
    else None
  }

  lemma NextCourseIsNew(s: State)
    requires Inv(s)
    ensures s.school.nextCourse !in s.school.courses
  {
  }

  lemma StepCourses(s: State, op: Op, c: CourseId, u: UserId)
    requires Inv(s)
    ensures u in StaffOf(Step(s, op).0, c) <==>
            Appoints(s, op, c, u) || (u in StaffOf(s, c) && !Dismisses(s, op, c, u))
    ensures IsOwnedBy(Step(s, op).0, c, u) <==> Founds(s, op, c, u) || IsOwnedBy(s, c, u)
    ensures IsArchived(Step(s, op).0, c) ==
            if ArchivedBy(s, op, c).Some? then ArchivedBy(s, op, c).value else IsArchived(s, c)
  {
    NextCourseIsNew(s);
    hide Inv;
    if op.CreateCourse? || op.SetArchived? || op.RemoveStaff? {
      AnswersExactly(s, op);
      hide IsTaken;
    } else if op.AddStaff? {
      AnswersExactly(s, op);
    } else if op.Join? || op.Import? || op.Unenrol? {
      hide IsTaken, Distinctly, Newcomers, Unknowns, NoStudents, StudentsNamed;
    } else {
      hide Step, IsTaken;
      SchoolFrame(s, op);
    }
  }

  ghost predicate AppointsAt(s0: State, ops: seq<Op>, k: nat, c: CourseId, u: UserId) {
    k < |ops| && Appoints(After(s0, ops, k), ops[k], c, u)
  }

  ghost predicate DismissesAt(s0: State, ops: seq<Op>, k: nat, c: CourseId, u: UserId) {
    k < |ops| && Dismisses(After(s0, ops, k), ops[k], c, u)
  }

  /** Assistants are exactly those appointed and not dismissed since. */
  lemma AssistsExactlyWhen(s0: State, ops: seq<Op>, c: CourseId, u: UserId)
    requires IsInitial(s0)
    ensures u in StaffOf(Exec(s0, ops), c) <==>
            exists i: nat :: i < |ops| && AppointsAt(s0, ops, i, c, u) &&
              forall j: nat :: i < j < |ops| ==> !DismissesAt(s0, ops, j, c, u)
  {
    hide Exec, Step, Appoints, Dismisses, After, Inv;
    AfterNothing(s0, ops);
    forall i: nat | i < |ops|
      ensures u in StaffOf(After(s0, ops, i + 1), c) <==>
              AppointsAt(s0, ops, i, c, u) || (u in StaffOf(After(s0, ops, i), c) && !DismissesAt(s0, ops, i, c, u))
    {
      AfterStep(s0, ops, i);
      AfterInv(s0, ops, i);
      StepCourses(After(s0, ops, i), ops[i], c, u);
    }
    var holds := (k: nat) => u in StaffOf(After(s0, ops, k), c);
    var sets, clears := (k: nat) => AppointsAt(s0, ops, k, c, u), (k: nat) => DismissesAt(s0, ops, k, c, u);
    LastWins(holds, sets, clears, |ops|);
    assert forall k: nat :: sets(k) <==> AppointsAt(s0, ops, k, c, u);
    assert forall k: nat :: clears(k) <==> DismissesAt(s0, ops, k, c, u);
  }

  ghost predicate FoundsAt(s0: State, ops: seq<Op>, k: nat, c: CourseId, u: UserId) {
    k < |ops| && Founds(After(s0, ops, k), ops[k], c, u)
  }

  /** The owner of a course is the teacher who made it, for good. */
  lemma OwnerExactlyWhen(s0: State, ops: seq<Op>, c: CourseId, u: UserId)
    requires IsInitial(s0)
    ensures IsOwnedBy(Exec(s0, ops), c, u) <==> exists i: nat :: FoundsAt(s0, ops, i, c, u)
  {
    hide Exec, Step, Founds, After, Inv;
    AfterNothing(s0, ops);
    forall i: nat | i < |ops|
      ensures IsOwnedBy(After(s0, ops, i + 1), c, u) <==>
              FoundsAt(s0, ops, i, c, u) || IsOwnedBy(After(s0, ops, i), c, u)
    {
      AfterStep(s0, ops, i);
      AfterInv(s0, ops, i);
      StepCourses(After(s0, ops, i), ops[i], c, u);
    }
    var holds := (k: nat) => IsOwnedBy(After(s0, ops, k), c, u);
    var sets, clears := (k: nat) => FoundsAt(s0, ops, k, c, u), (k: nat) => false;
    LastWins(holds, sets, clears, |ops|);
    assert forall k: nat :: sets(k) <==> FoundsAt(s0, ops, k, c, u);
  }

  ghost function ArchivedAt(s0: State, ops: seq<Op>, k: nat, c: CourseId): Option<bool> {
    if k < |ops| then ArchivedBy(After(s0, ops, k), ops[k], c) else None
  }

  /** A course is archived or open as last requested, and open when it was made. */
  lemma ArchivedAsLastSet(s0: State, ops: seq<Op>, c: CourseId)
    requires IsInitial(s0)
    ensures IsLatest((k: nat) => ArchivedAt(s0, ops, k, c), |ops|, false, IsArchived(Exec(s0, ops), c))
  {
    hide Exec, Step, ArchivedBy, After, Inv;
    AfterNothing(s0, ops);
    var value, writes := (k: nat) => IsArchived(After(s0, ops, k), c), (k: nat) => ArchivedAt(s0, ops, k, c);
    forall i: nat | i < |ops|
      ensures value(i + 1) == if writes(i).Some? then writes(i).value else value(i)
    {
      AfterStep(s0, ops, i);
      AfterInv(s0, ops, i);
      StepCourses(After(s0, ops, i), ops[i], c, 0);
    }
    LastWrite(value, writes, |ops|);
  }

  // ---------------------------------------------------------------------------
  // Rosters and extra time
  // ---------------------------------------------------------------------------

  /** A roster that names the student is set for the exam, or the exam is created with one. */
  ghost predicate SeatsIn(s: State, op: Op, e: ExamId, u: UserId) {
    (op.SetRoster? && op.exam == e && IsTaken(s, op) && u in op.sitters) ||
    (op.CreateExam? && IsTaken(s, op) && s.plan.nextExam == e && op.firstSitters.Some? && u in op.firstSitters.value)
  }

  /** A roster is set for the exam that does not. */
  ghost predicate LeavesOut(s: State, op: Op, e: ExamId, u: UserId) {
    op.SetRoster? && op.exam == e && IsTaken(s, op) && u !in op.sitters
  }

  lemma StepSeated(s: State, op: Op, e: ExamId, u: UserId)
    ensures Seat(e, u) in Step(s, op).0.plan.roster <==>
            SeatsIn(s, op, e, u) || (Seat(e, u) in s.plan.roster && !LeavesOut(s, op, e, u))
  {
    if op.SetRoster? || op.CreateExam? {
      AnswersExactly(s, op);
      hide IsTaken, AllEnrolledStudents, AllInCourse, Distinct, ExamFor, TeachesCourse, OwnsExam;
    } else if op.EditExam? || op.DeleteProblem? {
      hide IsTaken, AllInCourse, Distinct, ExamFor, TeachesCourse, PassesEditSchema, WithoutProblem, KeepSubmissions;
    } else {
      hide Step, IsTaken;
      PlanFrame(s, op);
    }
  }

  ghost predicate SeatsAt(s0: State, ops: seq<Op>, k: nat, e: ExamId, u: UserId) {
    k < |ops| && SeatsIn(After(s0, ops, k), ops[k], e, u)
  }

  ghost predicate LeavesOutAt(s0: State, ops: seq<Op>, k: nat, e: ExamId, u: UserId) {
    k < |ops| && LeavesOut(After(s0, ops, k), ops[k], e, u)
  }

  /** On an exam's roster are exactly those the last roster set for it named. */
  lemma SeatedExactlyWhen(s0: State, ops: seq<Op>, e: ExamId, u: UserId)
    requires IsInitial(s0)
    ensures Seat(e, u) in Exec(s0, ops).plan.roster <==>
            exists i: nat :: i < |ops| && SeatsAt(s0, ops, i, e, u) &&
              forall j: nat :: i < j < |ops| ==> !LeavesOutAt(s0, ops, j, e, u)
  {
    hide Exec, Step, SeatsIn, LeavesOut, After;
    AfterNothing(s0, ops);
    forall i: nat | i < |ops|
      ensures Seat(e, u) in After(s0, ops, i + 1).plan.roster <==>
              SeatsAt(s0, ops, i, e, u) ||
              (Seat(e, u) in After(s0, ops, i).plan.roster && !LeavesOutAt(s0, ops, i, e, u))
    {
      AfterStep(s0, ops, i);
      StepSeated(After(s0, ops, i), ops[i], e, u);
    }
    var holds := (k: nat) => Seat(e, u) in After(s0, ops, k).plan.roster;
    var sets, clears := (k: nat) => SeatsAt(s0, ops, k, e, u), (k: nat) => LeavesOutAt(s0, ops, k, e, u);
    LastWins(holds, sets, clears, |ops|);
    assert forall k: nat :: sets(k) <==> SeatsAt(s0, ops, k, e, u);
    assert forall k: nat :: clears(k) <==> LeavesOutAt(s0, ops, k, e, u);
  }

  /** The minutes this request grants this student for this exam, if any. */
  ghost function GrantedBy(s: State, op: Op, e: ExamId, u: UserId): Option<int> {
    if op.GrantTime? && op.exam == e && op.target == u && IsTaken(s, op) then Some(op.minutes) else None
  }

  lemma StepExtra(s: State, op: Op, e: ExamId, u: UserId)
    ensures ExtraMinutes(Step(s, op).0, e, u) ==
            if GrantedBy(s, op, e, u).Some? then GrantedBy(s, op, e, u).value else ExtraMinutes(s, e, u)
  {
    if op.GrantTime? {
      AnswersExactly(s, op);
      hide IsTaken;
    } else if op.SetOverride? || op.DropOverride? || op.DeleteProblem? {
      hide IsTaken, WithoutProblem, KeepSubmissions;
    } else {
      hide Step, IsTaken;
      GrantsFrame(s, op);
    }
  }

  ghost function GrantedAt(s0: State, ops: seq<Op>, k: nat, e: ExamId, u: UserId): Option<int> {
    if k < |ops| then GrantedBy(After(s0, ops, k), ops[k], e, u) else None
  }

  /** A student's extra minutes are those last granted to them for that exam, and none before. */
  lemma ExtraAsLastGranted(s0: State, ops: seq<Op>, e: ExamId, u: UserId)
    requires IsInitial(s0)
    ensures IsLatest((k: nat) => GrantedAt(s0, ops, k, e, u), |ops|, 0, ExtraMinutes(Exec(s0, ops), e, u))
  {
    hide Exec, Step, GrantedBy, After;
    AfterNothing(s0, ops);
    var value, writes := (k: nat) => ExtraMinutes(After(s0, ops, k), e, u), (k: nat) => GrantedAt(s0, ops, k, e, u);
    forall i: nat | i < |ops|
      ensures value(i + 1) == if writes(i).Some? then writes(i).value else value(i)
    {
      AfterStep(s0, ops, i);
      StepExtra(After(s0, ops, i), ops[i], e, u);
    }
    LastWrite(value, writes, |ops|);
  }

  // ---------------------------------------------------------------------------
  // Exams
  // ---------------------------------------------------------------------------

  /** The draft this request makes the exam of, if any. */
  ghost function DraftBy(s: State, op: Op, e: ExamId): Option<Draft> {
    if op.CreateExam? && IsTaken(s, op) && s.plan.nextExam == e then Some(op.draft)
    else if op.EditExam? && op.exam == e && IsTaken(s, op) then Some(op.draft)
    else None
  }

  datatype Schedule = Schedule(start: int, end: int, lateWindow: int, latePenalty: int, perStudent: Option<int>)

  function ScheduleOf(s: State, e: ExamId): Option<Schedule> {
    if e !in s.plan.exams then None
    else
      var exam := s.plan.exams[e];
      Some(Schedule(exam.start, exam.end, exam.lateWindow, exam.latePenalty, exam.perStudent))
  }

  /** The number per student counts only if it is not zero and below the size of the paper. */
  function ScheduleIn(d: Draft): Schedule {
    Schedule(d.start, d.end, d.lateWindow, d.latePenalty,
             match d.perStudent
             case None => None
             case Some(n) => if n == 0 || n >= |d.problems| then None else Some(n))
  }

  /** The exam a draft is stored as. */
  lemma StoredExam(s: State, op: Op, e: ExamId)
    requires DraftBy(s, op, e).Some?
    ensures var d, s' := DraftBy(s, op, e).value, Step(s, op).0;
            (d.points.Some? ==> |d.points.value| == |d.problems|) && Distinct(d.problems) &&
            e in s'.plan.exams && s'.plan.exams[e].paper == PaperFor(d) && ScheduleOf(s', e) == Some(ScheduleIn(d)) &&
            (op.CreateExam? ==> s'.plan.exams[e].course == op.course) &&
            (op.EditExam? ==> e in s.plan.exams && s'.plan.exams[e].course == s.plan.exams[e].course)
  {
    AnswersExactly(s, op);
    hide AllEnrolledStudents, AllInCourse, AreSitters, TeachesCourse, Teaches, OwnsExam, PaperFor;
  }

  lemma {:induction false} WithoutProblemSame(paper: seq<PaperRow>, p: ProblemId, q: ProblemId)
    requires q != p
    ensures PointsIn(WithoutProblem(paper, p), q) == PointsIn(paper, q)
  {
    if paper == [] {
    } else {
      WithoutProblemSame(paper[1..], p, q);
      var rest := WithoutProblem(paper[1..], p);
      assert ([paper[0]] + rest)[1..] == rest;
    }
  }

  /** What the paper gives for a problem, if it is on it. */
  function PointsIn(paper: seq<PaperRow>, p: ProblemId): Option<int> {
    if paper == [] then None
    else if paper[0].problem == p then Some(paper[0].points)
    else PointsIn(paper[1..], p)
  }

  lemma {:induction false} PointsAt(paper: seq<PaperRow>, i: nat)
    requires i < |paper| && Distinct(PaperIds(paper))
    ensures PointsIn(paper, paper[i].problem) == Some(paper[i].points)
  {
    assert PaperIds(paper)[0] == paper[0].problem && PaperIds(paper)[i] == paper[i].problem;
    if i > 0 {
      assert paper == [paper[0]] + paper[1..];
      PaperIdsCons(paper[0], paper[1..]);
      DistinctCons(paper[0].problem, PaperIds(paper[1..]));
      PointsAt(paper[1..], i - 1);
    }
  }

  lemma {:induction false} NoPoints(paper: seq<PaperRow>, p: ProblemId)
    ensures PointsIn(paper, p).Some? <==> p in PaperIds(paper)
  {
    if paper == [] {
    } else {
      assert paper == [paper[0]] + paper[1..];
      PaperIdsCons(paper[0], paper[1..]);
      NoPoints(paper[1..], p);
    }
  }

  function PointsOf(s: State, e: ExamId, p: ProblemId): Option<int> {
    if e in s.plan.exams then PointsIn(s.plan.exams[e].paper, p) else None
  }

  /** The points a draft gives a problem: those stated for it, or its share of 100. */
  ghost function PointsInDraft(d: Draft, p: ProblemId): Option<int>
    requires d.points.Some? ==> |d.points.value| == |d.problems|
  {
    if p !in d.problems then None
    else
      var i :| 0 <= i < |d.problems| && d.problems[i] == p;
      Some(if d.points.Some? then d.points.value[i] else EvenPoints(|d.problems|, i))
  }

  lemma PaperGives(d: Draft, p: ProblemId)
    requires (d.points.Some? ==> |d.points.value| == |d.problems|) && Distinct(d.problems)
    ensures PointsIn(PaperFor(d), p) == PointsInDraft(d, p)
  {
    var paper := PaperFor(d);
    NoPoints(paper, p);
    if p in d.problems {
      var i :| 0 <= i < |d.problems| && d.problems[i] == p &&
               PointsInDraft(d, p) == Some(if d.points.Some? then d.points.value[i] else EvenPoints(|d.problems|, i));
      PointsAt(paper, i);
    }
  }

  /** What this request makes of a problem's points on the exam, if anything. */
  ghost function PointsBy(s: State, op: Op, e: ExamId, p: ProblemId): Option<Option<int>> {
    if DraftBy(s, op, e).Some? then
      var d := DraftBy(s, op, e).value;
      if d.points.Some? && |d.points.value| != |d.problems| then Some(None) else Some(PointsInDraft(d, p))
    else if op.DeleteProblem? && op.problem == p && IsTaken(s, op) then Some(None)
    else None
  }

  lemma StepSchedule(s: State, op: Op, e: ExamId)
    ensures ScheduleOf(Step(s, op).0, e) ==
            if DraftBy(s, op, e).Some? then Some(ScheduleIn(DraftBy(s, op, e).value)) else ScheduleOf(s, e)
  {
    if DraftBy(s, op, e).Some? {
      StoredExam(s, op, e);
    } else if op.CreateExam? || op.EditExam? {
      AnswersExactly(s, op);
      hide IsTaken, AllEnrolledStudents, AllInCourse, Distinct, ExamFor, TeachesCourse, OwnsExam, PassesEditSchema;
    } else if op.SetRoster? || op.DeleteProblem? {
      hide IsTaken, AllEnrolledStudents, TeachesCourse, WithoutProblem, KeepSubmissions;
    } else {
      hide Step, IsTaken;
      PlanFrame(s, op);
    }
  }

  lemma StepPoints(s: State, op: Op, e: ExamId, p: ProblemId)
    ensures PointsOf(Step(s, op).0, e, p) ==
            if PointsBy(s, op, e, p).Some? then PointsBy(s, op, e, p).value else PointsOf(s, e, p)
  {
    if DraftBy(s, op, e).Some? {
      StoredExam(s, op, e);
      PaperGives(DraftBy(s, op, e).value, p);
      hide Step, IsTaken, PaperFor, PointsInDraft;
    } else if op.CreateExam? || op.EditExam? {
      AnswersExactly(s, op);
      hide IsTaken, AllEnrolledStudents, AllInCourse, Distinct, ExamFor, TeachesCourse, OwnsExam, PassesEditSchema;
    } else if op.DeleteProblem? {
      AnswersExactly(s, op);
      hide IsTaken, KeepSubmissions, OwnsProblem;
      if e in s.plan.exams {
        var paper := s.plan.exams[e].paper;
        WithoutProblemIds(paper, op.problem);
        NoPoints(WithoutProblem(paper, op.problem), p);
        if p != op.problem {
          WithoutProblemSame(paper, op.problem, p);
        }
      }
    } else if op.SetRoster? {
      hide IsTaken, AllEnrolledStudents, TeachesCourse;
    } else {
      hide Step, IsTaken;
      PlanFrame(s, op);
    }
  }

  ghost function DraftAt(s0: State, ops: seq<Op>, k: nat, e: ExamId): Option<Draft> {
    if k < |ops| then DraftBy(After(s0, ops, k), ops[k], e) else None
  }

  ghost function ScheduleAt(s0: State, ops: seq<Op>, k: nat, e: ExamId): Option<Option<Schedule>> {
    if DraftAt(s0, ops, k, e).Some? then Some(Some(ScheduleIn(DraftAt(s0, ops, k, e).value))) else None
  }

  ghost function PointsByAt(s0: State, ops: seq<Op>, k: nat, e: ExamId, p: ProblemId): Option<Option<int>> {
    if k < |ops| then PointsBy(After(s0, ops, k), ops[k], e, p) else None
  }

  /** An exam's times, penalty and number per student are those of the last draft accepted for it. */
  lemma ScheduleAsLastDrafted(s0: State, ops: seq<Op>, e: ExamId)
    requires IsInitial(s0)
    ensures IsLatest((k: nat) => ScheduleAt(s0, ops, k, e), |ops|, None, ScheduleOf(Exec(s0, ops), e))
  {
    hide Exec, Step, DraftBy, After, ScheduleIn;
    AfterNothing(s0, ops);
    var value, writes := (k: nat) => ScheduleOf(After(s0, ops, k), e), (k: nat) => ScheduleAt(s0, ops, k, e);
    forall i: nat | i < |ops|
      ensures value(i + 1) == if writes(i).Some? then writes(i).value else value(i)
    {
      AfterStep(s0, ops, i);
      StepSchedule(After(s0, ops, i), ops[i], e);
    }
    LastWrite(value, writes, |ops|);
  }

  /** A problem is on an exam's paper, with its points, as the last draft says, unless deleted since. */
  lemma PointsAsLastDrafted(s0: State, ops: seq<Op>, e: ExamId, p: ProblemId)
    requires IsInitial(s0)
    ensures IsLatest((k: nat) => PointsByAt(s0, ops, k, e, p), |ops|, None, PointsOf(Exec(s0, ops), e, p))
    ensures OnPaper(Exec(s0, ops), e, p) <==> PointsOf(Exec(s0, ops), e, p).Some?
  {
    hide Exec, Step, PointsBy, After, PointsIn;
    AfterNothing(s0, ops);
    var value, writes := (k: nat) => PointsOf(After(s0, ops, k), e, p), (k: nat) => PointsByAt(s0, ops, k, e, p);
    forall i: nat | i < |ops|
      ensures value(i + 1) == if writes(i).Some? then writes(i).value else value(i)
    {
      AfterStep(s0, ops, i);
      StepPoints(After(s0, ops, i), ops[i], e, p);
    }
    LastWrite(value, writes, |ops|);
    if e in Exec(s0, ops).plan.exams {
      NoPoints(Exec(s0, ops).plan.exams[e].paper, p);
    }
  }

  /** The last accepted draft of an exam is request `i` of the run, and it says `d`. */
  ghost predicate IsLastDraft(s0: State, ops: seq<Op>, e: ExamId, i: nat, d: Draft) {
    DraftAt(s0, ops, i, e) == Some(d) && forall j: nat :: i < j < |ops| ==> DraftAt(s0, ops, j, e).None?
  }

  /** The minutes last granted for this exam to this student, none at first. */
  ghost predicate IsGranted(s0: State, ops: seq<Op>, e: ExamId, u: UserId, minutes: int) {
    IsLatest((k: nat) => GrantedAt(s0, ops, k, e, u), |ops|, 0, minutes)
  }

  lemma DraftIsSchedule(s0: State, ops: seq<Op>, e: ExamId, i: nat, d: Draft)
    requires IsInitial(s0) && IsLastDraft(s0, ops, e, i, d)
    ensures ScheduleOf(Exec(s0, ops), e) == Some(ScheduleIn(d))
  {
    hide Exec, DraftBy, ScheduleOf, ScheduleIn, IsInitial;
    ScheduleAsLastDrafted(s0, ops, e);
    var writes := (k: nat) => ScheduleAt(s0, ops, k, e);
    var value := ScheduleOf(Exec(s0, ops), e);
    assert writes(i) == Some(Some(ScheduleIn(d)));
    if exists k: nat :: IsLastWrite(writes, |ops|, k, value) {
      var k: nat :| IsLastWrite(writes, |ops|, k, value);
      assert writes(k).Some? && DraftAt(s0, ops, k, e).Some?;
      assert k <= i;
      assert k == i;
    }
  }

  lemma GrantIsExtra(s0: State, ops: seq<Op>, e: ExamId, u: UserId, minutes: int)
    requires IsInitial(s0) && IsGranted(s0, ops, e, u, minutes)
    ensures ExtraMinutes(Exec(s0, ops), e, u) == minutes
  {
    hide Exec, GrantedBy, ExtraMinutes, IsInitial;
    ExtraAsLastGranted(s0, ops, e, u);
    LatestIsUnique((k: nat) => GrantedAt(s0, ops, k, e, u), |ops|, 0, ExtraMinutes(Exec(s0, ops), e, u), minutes);
  }

  /**
   * At any moment of any run a student's window is that of the last draft accepted for the exam, moved
   * by the minutes last granted to that student for it: on time up to the deadline, late through the
   * late window, at the draft's penalty.
   */
  lemma WindowAsRecorded(s0: State, ops: seq<Op>, e: ExamId, u: UserId, i: nat, d: Draft, minutes: int)
    requires IsInitial(s0) && IsLastDraft(s0, ops, e, i, d) && IsGranted(s0, ops, e, u, minutes)
    ensures var s, deadline := Exec(s0, ops), d.end + minutes * 60_000;
            var w := WindowOf(s, e, u);
            (w == NotStarted <==> s.now < d.start) &&
            (w == OnTime <==> d.start <= s.now <= deadline) &&
            (w == Late(d.latePenalty) <==>
             s.now >= d.start && deadline < s.now <= deadline + d.lateWindow * 60_000) &&
            (w == Ended <==> s.now >= d.start && s.now > deadline + d.lateWindow * 60_000)
  {
    hide Exec, IsGranted, IsInitial, Inv;
    DraftIsSchedule(s0, ops, e, i, d);
    GrantIsExtra(s0, ops, e, u, minutes);
    var s := Exec(s0, ops);
    InitialInv(s0);
    RunInv(s0, ops);
    LateWindowNotNegative(s, e);
  }

  lemma LateWindowNotNegative(s: State, e: ExamId)
    requires Inv(s) && e in s.plan.exams
    ensures s.plan.exams[e].lateWindow >= 0
  {
    assert ExamOk(s, s.plan.exams[e]);
  }

  // ---------------------------------------------------------------------------
  // The order of the paper
  // ---------------------------------------------------------------------------

  /** Taking rows out leaves the others in their order. */
  lemma {:induction false} RowsInOrder(paper: seq<PaperRow>, kept: seq<PaperRow>, q: ProblemId, r: ProblemId)
    requires IsPart(kept, paper) && Distinct(PaperIds(paper))
    ensures Precedes(PaperIds(kept), q, r) <==>
            Precedes(PaperIds(paper), q, r) && q in PaperIds(kept) && r in PaperIds(kept)
    decreases |paper|
  {
    hide Precedes, PaperIds, Distinct;
    if paper == [] {
      assert PaperIds([]) == [];
      NothingPrecedes(q, r);
    } else {
      var rest := paper[1..];
      assert paper == [paper[0]] + rest;
      PaperIdsCons(paper[0], rest);
      PrecedesCons(paper[0].problem, PaperIds(rest), q, r);
      DistinctCons(paper[0].problem, PaperIds(rest));
      PrecedesMembers(PaperIds(rest), q, r);
      if IsPart(kept, rest) {
        PartMembers(kept, rest);
        RowsInOrder(rest, kept, q, r);
      } else {
        assert kept == [kept[0]] + kept[1..];
        PartMembers(kept[1..], rest);
        PaperIdsCons(kept[0], kept[1..]);
        PrecedesCons(kept[0].problem, PaperIds(kept[1..]), q, r);
        RowsInOrder(rest, kept[1..], q, r);
      }
    }
  }

  /** Some of the rows, in their order. */
  predicate IsPart(kept: seq<PaperRow>, paper: seq<PaperRow>)
    decreases |paper|
  {
    if kept == [] then true
    else if paper == [] then false
    else IsPart(kept, paper[1..]) || (kept[0] == paper[0] && IsPart(kept[1..], paper[1..]))
  }

  lemma {:induction false} PartMembers(kept: seq<PaperRow>, paper: seq<PaperRow>)
    requires IsPart(kept, paper)
    ensures forall p :: p in PaperIds(kept) ==> p in PaperIds(paper)
    decreases |paper|
  {
    hide PaperIds;
    if kept == [] {
      assert PaperIds([]) == [];
    } else {
      assert paper == [paper[0]] + paper[1..] && kept == [kept[0]] + kept[1..];
      PaperIdsCons(paper[0], paper[1..]);
      PaperIdsCons(kept[0], kept[1..]);
      if IsPart(kept, paper[1..]) {
        PartMembers(kept, paper[1..]);
      } else {
        PartMembers(kept[1..], paper[1..]);
      }
    }
  }

  lemma {:induction false} WithoutIsPart(paper: seq<PaperRow>, p: ProblemId)
    ensures IsPart(WithoutProblem(paper, p), paper)
  {
    if paper == [] {
    } else {
      WithoutIsPart(paper[1..], p);
      if paper[0].problem != p {
        var rest := WithoutProblem(paper[1..], p);
        assert ([paper[0]] + rest)[1..] == rest;
      }
    }
  }

  lemma {:induction false} ShownIsPart(paper: seq<PaperRow>, dealt: set<ProblemId>)
    ensures IsPart(RowsOf(paper, dealt), paper)
  {
    if paper == [] {
    } else {
      ShownIsPart(paper[1..], dealt);
      if paper[0].problem in dealt {
        var rest := RowsOf(paper[1..], dealt);
        assert ([paper[0]] + rest)[1..] == rest;
      }
    }
  }

  ghost predicate IsBefore(s: State, e: ExamId, q: ProblemId, r: ProblemId) {
    e in s.plan.exams && Precedes(PaperIds(s.plan.exams[e].paper), q, r)
  }

  /** A draft with the two problems in this order is accepted. */
  ghost predicate Orders(s: State, op: Op, e: ExamId, q: ProblemId, r: ProblemId) {
    DraftBy(s, op, e).Some? && Precedes(DraftBy(s, op, e).value.problems, q, r)
  }

  /** Another draft is accepted, or one of the two problems deleted. */
  ghost predicate Disorders(s: State, op: Op, e: ExamId, q: ProblemId, r: ProblemId) {
    DraftBy(s, op, e).Some? || (op.DeleteProblem? && op.problem in {q, r} && IsTaken(s, op))
  }

  lemma StepOrder(s: State, op: Op, e: ExamId, q: ProblemId, r: ProblemId)
    requires Inv(s)
    ensures IsBefore(Step(s, op).0, e, q, r) <==>
            Orders(s, op, e, q, r) || (IsBefore(s, e, q, r) && !Disorders(s, op, e, q, r))
  {
    hide Precedes;
    if DraftBy(s, op, e).Some? {
      StoredExam(s, op, e);
      hide Inv, Step, IsTaken;
    } else if op.CreateExam? || op.EditExam? {
      AnswersExactly(s, op);
      hide Inv, IsTaken, AllEnrolledStudents, AllInCourse, Distinct, ExamFor, TeachesCourse, OwnsExam, PassesEditSchema;
    } else if op.DeleteProblem? {
      DeletionKeepsOrder(s, op, e, q, r);
    } else if op.SetRoster? {
      hide Inv, IsTaken, AllEnrolledStudents, TeachesCourse;
    } else {
      hide Inv, Step, IsTaken;
      PlanFrame(s, op);
    }
  }

  lemma DeletionKeepsOrder(s: State, op: Op, e: ExamId, q: ProblemId, r: ProblemId)
    requires Inv(s) && op.DeleteProblem?
    ensures IsBefore(Step(s, op).0, e, q, r) <==>
            IsBefore(s, e, q, r) && !(op.problem in {q, r} && IsTaken(s, op))
  {
    AnswersExactly(s, op);
    if e in s.plan.exams {
      assert ExamOk(s, s.plan.exams[e]);
      var paper := s.plan.exams[e].paper;
      hide Inv, IsTaken, KeepSubmissions, Precedes, Distinct, WithoutProblem;
      WithoutProblemIds(paper, op.problem);
      WithoutIsPart(paper, op.problem);
      RowsInOrder(paper, WithoutProblem(paper, op.problem), q, r);
      PrecedesMembers(PaperIds(paper), q, r);
    }
  }

  ghost predicate OrdersAt(s0: State, ops: seq<Op>, k: nat, e: ExamId, q: ProblemId, r: ProblemId) {
    k < |ops| && Orders(After(s0, ops, k), ops[k], e, q, r)
  }

  ghost predicate DisordersAt(s0: State, ops: seq<Op>, k: nat, e: ExamId, q: ProblemId, r: ProblemId) {
    k < |ops| && Disorders(After(s0, ops, k), ops[k], e, q, r)
  }

  /** The paper keeps the order of the last draft. */
  lemma OrderAsLastDrafted(s0: State, ops: seq<Op>, e: ExamId, q: ProblemId, r: ProblemId)
    requires IsInitial(s0)
    ensures IsBefore(Exec(s0, ops), e, q, r) <==>
            exists i: nat :: i < |ops| && OrdersAt(s0, ops, i, e, q, r) &&
              forall j: nat :: i < j < |ops| ==> !DisordersAt(s0, ops, j, e, q, r)
  {
    hide Exec, Step, Orders, Disorders, After, Inv, Precedes;
    AfterNothing(s0, ops);
    forall i: nat | i < |ops|
      ensures IsBefore(After(s0, ops, i + 1), e, q, r) <==>
              OrdersAt(s0, ops, i, e, q, r) ||
              (IsBefore(After(s0, ops, i), e, q, r) && !DisordersAt(s0, ops, i, e, q, r))
    {
      AfterStep(s0, ops, i);
      AfterInv(s0, ops, i);
      StepOrder(After(s0, ops, i), ops[i], e, q, r);
    }
    var holds := (k: nat) => IsBefore(After(s0, ops, k), e, q, r);
    var sets, clears := (k: nat) => OrdersAt(s0, ops, k, e, q, r), (k: nat) => DisordersAt(s0, ops, k, e, q, r);
    LastWins(holds, sets, clears, |ops|);
    assert forall k: nat :: sets(k) <==> OrdersAt(s0, ops, k, e, q, r);
    assert forall k: nat :: clears(k) <==> DisordersAt(s0, ops, k, e, q, r);
  }

  // ---------------------------------------------------------------------------
  // Problems
  // ---------------------------------------------------------------------------

  function CourseOf(s: State, p: ProblemId): Option<CourseId> {
    if p in s.bank.problems then Some(s.bank.problems[p].course) else None
  }

  /** The course this request gives the problem, or takes it from, if any. */
  ghost function CourseBy(s: State, op: Op, p: ProblemId): Option<Option<CourseId>> {
    if op.CreateProblem? && IsTaken(s, op) && s.bank.nextProblem == p then Some(Some(op.course))
    else if op.DeleteProblem? && op.problem == p && IsTaken(s, op) then Some(None)
    else None
  }

  lemma StepProblem(s: State, op: Op, p: ProblemId)
    ensures CourseOf(Step(s, op).0, p) ==
            if CourseBy(s, op, p).Some? then CourseBy(s, op, p).value else CourseOf(s, p)
  {
    if op.CreateProblem? || op.DeleteProblem? || op.AddTestCase? || op.DeleteTestCase? {
      AnswersExactly(s, op);
      hide IsTaken, WithoutProblem, KeepSubmissions;
    } else {
      hide Step, IsTaken;
      BankFrame(s, op);
    }
  }

  ghost function CourseAt(s0: State, ops: seq<Op>, k: nat, p: ProblemId): Option<Option<CourseId>> {
    if k < |ops| then CourseBy(After(s0, ops, k), ops[k], p) else None
  }

  /** A problem is of the course it was created in, until it is deleted; nothing else moves it. */
  lemma ProblemAsCreated(s0: State, ops: seq<Op>, p: ProblemId)
    requires IsInitial(s0)
    ensures IsLatest((k: nat) => CourseAt(s0, ops, k, p), |ops|, None, CourseOf(Exec(s0, ops), p))
  {
    hide Exec, Step, CourseBy, After;
    AfterNothing(s0, ops);
    var value, writes := (k: nat) => CourseOf(After(s0, ops, k), p), (k: nat) => CourseAt(s0, ops, k, p);
    forall i: nat | i < |ops|
      ensures value(i + 1) == if writes(i).Some? then writes(i).value else value(i)
    {
      AfterStep(s0, ops, i);
      StepProblem(After(s0, ops, i), ops[i], p);
    }
    LastWrite(value, writes, |ops|);
  }

  /** How many more cases a problem has after this request, if it stays. */
  ghost function CasesMoved(s: State, op: Op, p: ProblemId): int
    requires p in s.bank.problems
  {
    if op.AddTestCase? && op.problem == p && IsTaken(s, op) then 1
    else if op.DeleteTestCase? && op.problem == p && IsTaken(s, op) && s.bank.problems[p].cases > 0 then -1
    else 0
  }

  /** A new problem has the cases it was created with; afterwards they come and go one by one. */
  lemma CasesMoveByOne(s: State, op: Op, p: ProblemId)
    ensures op.CreateProblem? && IsTaken(s, op) && p == s.bank.nextProblem ==>
              Step(s, op).0.bank.problems[p].cases == op.cases
    ensures p in s.bank.problems && p in Step(s, op).0.bank.problems && p != s.bank.nextProblem ==>
              Step(s, op).0.bank.problems[p].cases == s.bank.problems[p].cases + CasesMoved(s, op, p)
  {
    StepProblem(s, op, p);
    if op.CreateProblem? || op.DeleteProblem? || op.AddTestCase? || op.DeleteTestCase? {
      AnswersExactly(s, op);
      hide IsTaken, WithoutProblem, KeepSubmissions;
    } else {
      hide Step, IsTaken;
      BankFrame(s, op);
    }
  }
}
