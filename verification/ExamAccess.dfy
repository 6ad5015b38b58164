/** Who may read, open and submit what: the answers of the student endpoints, by the tables alone. */
module ExamAccess {
  import opened Options
  import opened ExamModel
  import opened ExamInvariants

  // ---------------------------------------------------------------------------
  // Who may read a problem, by the answers
  // ---------------------------------------------------------------------------

  /** The exam's paper has a row for this problem. */
  ghost predicate Names(exam: Exam, p: ProblemId) {
    exists i :: 0 <= i < |exam.paper| && exam.paper[i].problem == p
  }

  /** The exam has begun, and its roster is empty or has this user's seat. */
  ghost predicate HasBegunFor(s: State, e: ExamId, u: UserId)
    requires e in s.plan.exams
  {
    s.plan.exams[e].start <= s.now &&
    ((!exists v :: Seat(e, v) in s.plan.roster) || Seat(e, u) in s.plan.roster)
  }

  /** An enrolled student's problem: practice material, or on the paper of an exam begun for them. */
  ghost predicate StudentMayRead(s: State, u: UserId, p: ProblemId) {
    p in s.bank.problems && Member(s.bank.problems[p].course, u) in s.school.enrolled &&
    ((forall e :: e in s.plan.exams ==> !Names(s.plan.exams[e], p)) ||
     exists e :: e in s.plan.exams && Names(s.plan.exams[e], p) && HasBegunFor(s, e, u))
  }

  /** A teacher's problem: of a course they own or assist. */
  ghost predicate TeacherMayRead(s: State, u: UserId, p: ProblemId) {
    p in s.bank.problems &&
    var c := s.bank.problems[p].course;
    c in s.school.courses && (s.school.courses[c].owner == u || u in s.school.courses[c].staff)
  }

  ghost predicate MayRead(s: State, u: UserId, p: ProblemId) {
    if IsTeacher(s, u) then TeacherMayRead(s, u, p) else StudentMayRead(s, u, p)
  }

  lemma OnPaperNames(s: State, e: ExamId, p: ProblemId)
    requires e in s.plan.exams
    ensures OnPaper(s, e, p) <==> Names(s.plan.exams[e], p)
  {
    var exam := s.plan.exams[e];
    if Names(exam, p) {
      var i :| 0 <= i < |exam.paper| && exam.paper[i].problem == p;
      assert PaperIds(exam.paper)[i] == p;
    }
  }

  lemma SitsExact(s: State, e: ExamId, u: UserId)
    ensures Sits(s, e, u) <==> (!exists v :: Seat(e, v) in s.plan.roster) || Seat(e, u) in s.plan.roster
  {
    if exists v :: Seat(e, v) in s.plan.roster {
      var v :| Seat(e, v) in s.plan.roster;
      assert Seat(e, v).exam == e;
    }
    if seat :| seat in s.plan.roster && seat.exam == e {
      assert Seat(e, seat.user) == seat;
    }
  }

  lemma BegunForSitter(s: State, e: ExamId, u: UserId)
    requires e in s.plan.exams
    ensures HasStarted(s, e) && Sits(s, e, u) <==> HasBegunFor(s, e, u)
  {
    hide Sits;
    SitsExact(s, e, u);
  }

  lemma GateExact(s: State, u: UserId, p: ProblemId)
    ensures PassesGate(s, u, p) <==>
            (forall e :: e in s.plan.exams ==> !Names(s.plan.exams[e], p)) ||
            exists e :: e in s.plan.exams && Names(s.plan.exams[e], p) && HasBegunFor(s, e, u)
  {
    hide OnPaper, Names, HasStarted, Sits, HasBegunFor;
    forall e | e in s.plan.exams
      ensures OnPaper(s, e, p) <==> Names(s.plan.exams[e], p)
      ensures HasStarted(s, e) && Sits(s, e, u) <==> HasBegunFor(s, e, u)
    {
      OnPaperNames(s, e, p);
      BegunForSitter(s, e, u);
    }
  }

  lemma AccessExact(s: State, u: UserId, p: ProblemId)
    ensures CanAccessProblem(s, u, p) <==> MayRead(s, u, p)
  {
    hide PassesGate, Names, HasBegunFor;
    GateExact(s, u, p);
  }

  /**
   * In every state, reading, listing and practising let the same problems through: a student's are
   * those of a course they are enrolled in that are on no paper, or on the paper of an exam that has
   * begun and whose roster is empty or seats them; a teacher's, those of the courses they own or assist.
   */
  lemma ReadableExactlyWhen(s: State, u: UserId, p: ProblemId, enqueued: bool, js: seq<nat>)
    requires u in s.people.users
    ensures Step(s, ReadProblem(u, p)).1 == (if MayRead(s, u, p) then Detail(p) else ProblemNotFound)
    ensures Step(s, ListProblems(u)).1.Listing? &&
            (p in Step(s, ListProblems(u)).1.problems <==> MayRead(s, u, p))
    ensures Step(s, Submit(u, p, None, enqueued, js)).1 != ProblemNotFound <==> MayRead(s, u, p)
  {
    hide CanAccessProblem, MayRead;
    AccessExact(s, u, p);
    if CanAccessProblem(s, u, p) {
      AccessibleExists(s, u, p);
    }
  }

  // ---------------------------------------------------------------------------
  // Opening and submitting
  // ---------------------------------------------------------------------------

  /** An exam of a course the user teaches, or of one the student is enrolled in and sits it. */
  ghost predicate MayOpen(s: State, u: UserId, e: ExamId) {
    e in s.plan.exams &&
    var c := s.plan.exams[e].course;
    if IsTeacher(s, u) then
      c in s.school.courses && (s.school.courses[c].owner == u || u in s.school.courses[c].staff)
    else
      Member(c, u) in s.school.enrolled &&
      ((!exists v :: Seat(e, v) in s.plan.roster) || Seat(e, u) in s.plan.roster)
  }

  lemma OpenExact(s: State, u: UserId, e: ExamId)
    ensures CanAccessExam(s, u, e) <==> MayOpen(s, u, e)
  {
    SitsExact(s, e, u);
    hide Sits;
  }

  /**
   * An exam page is given to exactly those who may open the exam: a teacher sees the whole paper, a
   * student nothing of it before it starts.
   */
  lemma OpensExactlyWhen(s: State, u: UserId, e: ExamId, js: seq<nat>)
    requires u in s.people.users
    ensures var r := Step(s, OpenExam(u, e, js)).1;
            (r.Shown? <==> MayOpen(s, u, e)) && (!r.Shown? ==> r == OtherNotFound) &&
            (r.Shown? && IsTeacher(s, u) ==> r.rows == s.plan.exams[e].paper) &&
            (r.Shown? && !IsTeacher(s, u) && s.now < s.plan.exams[e].start ==> r.rows == [])
  {
    hide CanAccessExam, MayOpen, Assign, RowsOf, ProgressOf;
    OpenExact(s, u, e);
    CanAccessExists(s, u, e);
  }

  lemma CanAccessExists(s: State, u: UserId, e: ExamId)
    ensures CanAccessExam(s, u, e) ==> e in s.plan.exams
  {
  }

  /** The deadline of this user, and the end of their late window. */
  ghost function DeadlineOf(s: State, e: ExamId, u: UserId): int
    requires e in s.plan.exams
  {
    s.plan.exams[e].end + 60_000 * if Seat(e, u) in s.grants.extra then s.grants.extra[Seat(e, u)] else 0
  }

  ghost function ClosingOf(s: State, e: ExamId, u: UserId): int
    requires e in s.plan.exams
  {
    DeadlineOf(s, e, u) + 60_000 * s.plan.exams[e].lateWindow
  }

  /** What the submit endpoint answers once the problem is known to be readable. */
  ghost predicate IsExamAnswer(s: State, u: UserId, p: ProblemId, e: ExamId, enqueued: bool, js: seq<nat>, r: Response)
    requires p in s.bank.problems
  {
    if !MayOpen(s, u, e) then r == OtherNotFound
    else if s.now < s.plan.exams[e].start then r == ExamNotStarted
    else if s.now > ClosingOf(s, e, u) then r == ExamEnded
    else if p !in Assign(s, e, u, js).1 then r == NotPartOfExam
    else IsStoreAnswer(s, p, enqueued, r)
  }

  ghost predicate IsStoreAnswer(s: State, p: ProblemId, enqueued: bool, r: Response)
    requires p in s.bank.problems
  {
    if s.bank.problems[p].cases == 0 then r == NoTestCases
    else if enqueued then r == Accepted(s.work.nextSubmission)
    else r == Unavailable
  }

  lemma WindowAnswers(s: State, e: ExamId, u: UserId)
    requires Inv(s) && e in s.plan.exams
    ensures WindowOf(s, e, u) == NotStarted <==> s.now < s.plan.exams[e].start
    ensures WindowOf(s, e, u) == Ended <==> s.now >= s.plan.exams[e].start && s.now > ClosingOf(s, e, u)
    ensures WindowOf(s, e, u) != NotFound
  {
    assert ExamOk(s, s.plan.exams[e]);
  }

  lemma ExamAnswer(s: State, u: UserId, p: ProblemId, e: ExamId, enqueued: bool, js: seq<nat>)
    requires Inv(s) && p in s.bank.problems
    ensures IsExamAnswer(s, u, p, e, enqueued, js, SubmitToExam(s, u, p, e, enqueued, js).1)
  {
    hide Inv, CanAccessExam, MayOpen, Assign, WindowOf, ClosingOf, OnPaper;
    OpenExact(s, u, e);
    CanAccessExists(s, u, e);
    AssignEffect(s, e, u, js);
    if CanAccessExam(s, u, e) {
      WindowAnswers(s, e, u);
    }
  }

  /**
   * The submit endpoint, for any user, problem and exam or none: not found unless the problem may be
   * read; then the archive, the exam's roster, its window as granted to this user and the deal, in that
   * order; then the cases and the queue.
   */
  lemma SubmitExactlyWhen(
    s: State, u: UserId, p: ProblemId, exam: Option<ExamId>, enqueued: bool, js: seq<nat>)
    requires Inv(s) && u in s.people.users
    ensures var r := Step(s, Submit(u, p, exam, enqueued, js)).1;
            (r == ProblemNotFound <==> !MayRead(s, u, p)) &&
            (MayRead(s, u, p) ==>
              p in s.bank.problems &&
              var c := s.bank.problems[p].course;
              if c in s.school.courses && s.school.courses[c].archived then r == CourseArchived
              else if exam.None? then IsStoreAnswer(s, p, enqueued, r)
              else IsExamAnswer(s, u, p, exam.value, enqueued, js, r))
  {
    hide Inv, CanAccessProblem, MayRead, SubmitToExam, IsExamAnswer;
    AccessExact(s, u, p);
    if CanAccessProblem(s, u, p) {
      AccessibleExists(s, u, p);
      if exam.Some? {
        ExamAnswer(s, u, p, exam.value, enqueued, js);
        AnswerFound(s, u, p, exam.value, enqueued, js);
      }
    }
  }

  lemma AnswerFound(s: State, u: UserId, p: ProblemId, e: ExamId, enqueued: bool, js: seq<nat>)
    requires p in s.bank.problems
    ensures SubmitToExam(s, u, p, e, enqueued, js).1 != ProblemNotFound
  {
    hide CanAccessExam, Assign, WindowOf, OnPaper;
    AssignEffect(s, e, u, js);
  }
}
