/**
 * The exam as a state machine: the tables the handlers read and write, the access rules as
 * predicates over them, and one atomic step per request.
 *
 * Times are milliseconds on one clock. `Step` says what each request answers and leaves behind;
 * the handlers themselves are the methods of `ExamServer.Server`.
 */
module ExamModel {
  import opened Lists
  import opened Options
  import Dealing

  type UserId = int
  type CourseId = int
  type ProblemId = int
  type ExamId = int

  const MINUTE: int := 60_000
  const MAX_LATE_WINDOW: int := 1440

  datatype Role = Student | Teacher

  datatype Course = Course(owner: UserId, staff: set<UserId>, archived: bool)

  datatype Problem = Problem(course: CourseId, cases: nat)

  /** One row of the paper; the rows of an exam are kept in the order of their position. */
  datatype PaperRow = PaperRow(problem: ProblemId, points: int)

  datatype Exam = Exam(
    course: CourseId, start: int, end: int, lateWindow: int, latePenalty: int,
    perStudent: Option<int>, paper: seq<PaperRow>)

  datatype Member = Member(course: CourseId, user: UserId)
  datatype Seat = Seat(exam: ExamId, user: UserId)
  datatype Cell = Cell(exam: ExamId, user: UserId, problem: ProblemId)

  datatype Status = Queued | Failed | Completed

  datatype Submission = Submission(
    id: nat, user: UserId, problem: ProblemId, exam: Option<ExamId>, isLate: bool, penalty: int, at: int,
    status: Status, passed: nat, total: nat, earnedWeight: Option<nat>, totalWeight: Option<nat>)

  datatype Override = Override(score: int, maxScore: int)

  // The tables, grouped by what writes them. An account is never removed.

  datatype People = People(users: map<UserId, Role>, emails: map<string, UserId>)

  datatype School = School(courses: map<CourseId, Course>, enrolled: set<Member>, nextCourse: CourseId)

  datatype Bank = Bank(problems: map<ProblemId, Problem>, nextProblem: ProblemId)

  datatype Plan = Plan(exams: map<ExamId, Exam>, roster: set<Seat>, nextExam: ExamId)

  datatype Work = Work(deals: set<Cell>, submissions: seq<Submission>, nextSubmission: nat)

  datatype Grants = Grants(extra: map<Seat, int>, overrides: map<Cell, Override>)

  datatype State = State(
    now: int, people: People, school: School, bank: Bank, plan: Plan, work: Work, grants: Grants)

  // ---------------------------------------------------------------------------
  // Access rules
  // ---------------------------------------------------------------------------

  predicate IsTeacher(s: State, u: UserId) {
    u in s.people.users && s.people.users[u] == Teacher
  }

  predicate IsStudent(s: State, u: UserId) {
    u in s.people.users && s.people.users[u] == Student
  }

  predicate OwnsCourse(s: State, u: UserId, c: CourseId) {
    IsTeacher(s, u) && c in s.school.courses && s.school.courses[c].owner == u
  }

  predicate TeachesCourse(s: State, u: UserId, c: CourseId) {
    IsTeacher(s, u) && c in s.school.courses && (s.school.courses[c].owner == u || u in s.school.courses[c].staff)
  }

  predicate InCourseScope(s: State, u: UserId, c: CourseId) {
    if IsTeacher(s, u) then TeachesCourse(s, u, c) else Member(c, u) in s.school.enrolled
  }

  predicate IsArchived(s: State, c: CourseId) {
    c in s.school.courses && s.school.courses[c].archived
  }

  function PaperIds(paper: seq<PaperRow>): (ids: seq<ProblemId>)
    ensures |ids| == |paper| && forall i :: 0 <= i < |paper| ==> ids[i] == paper[i].problem
  {
    seq(|paper|, i requires 0 <= i < |paper| => paper[i].problem)
  }

  predicate OnPaper(s: State, e: ExamId, p: ProblemId) {
    e in s.plan.exams && p in PaperIds(s.plan.exams[e].paper)
  }

  predicate OnAnyPaper(s: State, p: ProblemId) {
    exists e :: e in s.plan.exams && OnPaper(s, e, p)
  }

  predicate HasStarted(s: State, e: ExamId) {
    e in s.plan.exams && s.plan.exams[e].start <= s.now
  }

  /** An empty roster means the whole course sits the exam. */
  predicate Sits(s: State, e: ExamId, u: UserId) {
    (forall seat :: seat in s.plan.roster ==> seat.exam != e) || Seat(e, u) in s.plan.roster
  }

  /** Some exam that holds the problem and that this user sits has started. */
  predicate Unsealed(s: State, u: UserId, p: ProblemId) {
    exists e :: e in s.plan.exams && OnPaper(s, e, p) && HasStarted(s, e) && Sits(s, e, u)
  }

  predicate PassesGate(s: State, u: UserId, p: ProblemId) {
    !OnAnyPaper(s, p) || Unsealed(s, u, p)
  }

  predicate CanAccessProblem(s: State, u: UserId, p: ProblemId) {
    p in s.bank.problems && InCourseScope(s, u, s.bank.problems[p].course) &&
    (IsTeacher(s, u) || PassesGate(s, u, p))
  }

  predicate CanAccessExam(s: State, u: UserId, e: ExamId) {
    e in s.plan.exams && InCourseScope(s, u, s.plan.exams[e].course) && (IsTeacher(s, u) || Sits(s, e, u))
  }

  predicate OwnsExam(s: State, u: UserId, e: ExamId) {
    e in s.plan.exams && TeachesCourse(s, u, s.plan.exams[e].course)
  }

  predicate OwnsProblem(s: State, u: UserId, p: ProblemId) {
    p in s.bank.problems && TeachesCourse(s, u, s.bank.problems[p].course)
  }

  // ---------------------------------------------------------------------------
  // Sessions: the personal window and the personal deal
  // ---------------------------------------------------------------------------

  datatype Window = NotFound | NotStarted | Ended | OnTime | Late(penalty: int)

  function ExtraMinutes(s: State, e: ExamId, u: UserId): int {
    if Seat(e, u) in s.grants.extra then s.grants.extra[Seat(e, u)] else 0
  }

  /** The window of an exam, for a student with `extra` minutes, at time `now`. */
  function WindowAt(exam: Exam, extra: int, now: int): Window {
    var end := exam.end + extra * MINUTE;
    var grace := exam.lateWindow * MINUTE;
    if now < exam.start then NotStarted
    else if now <= end then OnTime
    else if grace > 0 && now <= end + grace then Late(exam.latePenalty)
    else Ended
  }

  function WindowOf(s: State, e: ExamId, u: UserId): Window {
    if e !in s.plan.exams then NotFound else WindowAt(s.plan.exams[e], ExtraMinutes(s, e, u), s.now)
  }

  function IdSet(exam: Exam): set<ProblemId> {
    set p | p in PaperIds(exam.paper)
  }

  function DealOf(s: State, e: ExamId, u: UserId): set<ProblemId> {
    set cell | cell in s.work.deals && cell.exam == e && cell.user == u :: cell.problem
  }

  /** Does the exam give each student only part of its paper? */
  predicate Randomises(exam: Exam) {
    exam.perStudent.Some? && exam.perStudent.value != 0 && exam.perStudent.value < |exam.paper|
  }

  /** Any list of draws as the draws of a shuffle of `n` items. */
  function AsChoice(js: seq<nat>, n: nat): (ks: seq<nat>)
    ensures Dealing.IsChoice(ks, n)
    ensures Dealing.IsChoice(js, n) ==> ks == js
  {
    seq(n, i requires 0 <= i < n => if i < |js| && js[i] <= i then js[i] else 0)
  }

  function AsInts(ids: seq<ProblemId>): (r: seq<int>)
    ensures |r| == |ids| && forall i :: 0 <= i < |ids| ==> r[i] == ids[i]
  {
    seq(|ids|, i requires 0 <= i < |ids| => ids[i])
  }

  /** The problems a fresh deal picks. */
  function FreshDeal(exam: Exam, js: seq<nat>): (dealt: set<ProblemId>)
    requires Randomises(exam)
  {
    var ids := PaperIds(exam.paper);
    var chosen := Dealing.Deal(AsInts(ids), exam.perStudent.value, AsChoice(js, |ids|));
    set p | p in ids && p in chosen
  }

  /** assignedProblemIds: the student's problems, dealing and recording them if need be. */
  function Assign(s: State, e: ExamId, u: UserId, js: seq<nat>): (r: (State, set<ProblemId>)) {
    if e !in s.plan.exams then (s, {})
    else if !Randomises(s.plan.exams[e]) then (s, IdSet(s.plan.exams[e]))
    else if DealOf(s, e, u) != {} then (s, DealOf(s, e, u))
    else
      var chosen := FreshDeal(s.plan.exams[e], js);
      (s.(work := s.work.(deals := s.work.deals + set p | p in chosen :: Cell(e, u, p))), chosen)
  }

  // ---------------------------------------------------------------------------
  // Requests and answers
  // ---------------------------------------------------------------------------

  /** What a teacher fills in for an exam. */
  datatype Draft = Draft(
    start: int, end: int, lateWindow: int, latePenalty: int, perStudent: Option<int>,
    problems: seq<ProblemId>, points: Option<seq<int>>)

  datatype Outcome = Outcome(failed: bool, passed: nat, total: nat, earnedWeight: Option<nat>, totalWeight: Option<nat>)

  datatype Op =
    | Tick(to: int)
    | CreateCourse(user: UserId)
    | SetArchived(user: UserId, course: CourseId, archived: Option<bool>)
    | AddStaff(user: UserId, course: CourseId, email: string)
    | RemoveStaff(user: UserId, course: CourseId, target: UserId)
    | Join(user: UserId, code: Option<CourseId>)
    | Import(user: UserId, course: CourseId, addresses: seq<string>)
    | Unenrol(user: UserId, course: CourseId, target: UserId)
    | CreateProblem(user: UserId, course: CourseId, cases: nat)
    | UpdateProblem(user: UserId, problem: ProblemId)
    | DeleteProblem(user: UserId, problem: ProblemId)
    | AddTestCase(user: UserId, problem: ProblemId)
    | DeleteTestCase(user: UserId, problem: ProblemId)
    | CreateExam(user: UserId, course: CourseId, draft: Draft, firstSitters: Option<seq<UserId>>)
    | EditExam(user: UserId, exam: ExamId, draft: Draft)
    | SetRoster(user: UserId, exam: ExamId, sitters: seq<UserId>)
    | GrantTime(user: UserId, exam: ExamId, target: UserId, minutes: int)
    | SetOverride(user: UserId, cell: Cell, override: Override)
    | DropOverride(user: UserId, cell: Cell)
    | ListProblems(user: UserId)
    | ReadProblem(user: UserId, problem: ProblemId)
    | OpenExam(user: UserId, exam: ExamId, draws: seq<nat>)
    | Submit(user: UserId, problem: ProblemId, forExam: Option<ExamId>, enqueued: bool, draws: seq<nat>)
    | Grade(submission: nat, outcome: Outcome)

  /** What a student has achieved on one problem of an exam so far. */
  datatype Progress = Progress(bestPassed: nat, total: nat)

  datatype Response =
    | Done
    | Created(id: int)
    | Imported(newly: seq<string>, already: int, unknown: seq<string>, notStudents: seq<string>)
    | Listing(problems: set<ProblemId>)
    | Detail(problem: ProblemId)
    | Shown(rows: seq<PaperRow>, progress: map<ProblemId, Progress>, endsAt: Option<int>)
    | Accepted(submission: nat)
    | Unavailable
    | ProblemNotFound
    | OtherNotFound
    | WrongRole
    | CourseArchived
    | BadRequest
    | ExamNotStarted
    | ExamEnded
    | NotPartOfExam
    | NoTestCases
    | ServerError

  // ---------------------------------------------------------------------------
  // Courses
  // ---------------------------------------------------------------------------

  function WithCourse(s: State, c: CourseId, course: Course): State {
    s.(school := s.school.(courses := s.school.courses[c := course]))
  }

  function WithEnrolled(s: State, enrolled: set<Member>): State {
    s.(school := s.school.(enrolled := enrolled))
  }

  function StepSetArchived(s: State, u: UserId, c: CourseId, archived: Option<bool>): (State, Response) {
    if !IsTeacher(s, u) then (s, WrongRole)
    else if !OwnsCourse(s, u, c) then (s, OtherNotFound)
    else if archived.None? then (s, Done)
    else (WithCourse(s, c, s.school.courses[c].(archived := archived.value)), Done)
  }

  function StepAddStaff(s: State, u: UserId, c: CourseId, email: string): (State, Response) {
    if !IsTeacher(s, u) then (s, WrongRole)
    else if !OwnsCourse(s, u, c) then (s, OtherNotFound)
    else if email !in s.people.emails then (s, OtherNotFound)
    else
      var candidate := s.people.emails[email];
      if !IsTeacher(s, candidate) || Member(c, candidate) in s.school.enrolled || s.school.courses[c].owner == candidate
      then (s, BadRequest)
      else (WithCourse(s, c, s.school.courses[c].(staff := s.school.courses[c].staff + {candidate})), Done)
  }

  function StepRemoveStaff(s: State, u: UserId, c: CourseId, target: UserId): (State, Response) {
    if !IsTeacher(s, u) then (s, WrongRole)
    else if !OwnsCourse(s, u, c) then (s, OtherNotFound)
    else (WithCourse(s, c, s.school.courses[c].(staff := s.school.courses[c].staff - {target})), Done)
  }

  /** `code` is the course a join code names, if any. */
  function StepJoin(s: State, u: UserId, code: Option<CourseId>): (State, Response) {
    if code.None? || code.value !in s.school.courses then (s, OtherNotFound)
    else if s.school.courses[code.value].archived then (s, CourseArchived)
    else if s.school.courses[code.value].owner == u then (s, BadRequest)
    else (WithEnrolled(s, s.school.enrolled + {Member(code.value, u)}), Done)
  }

  /** `[...new Set(emails.filter(Boolean))]`: each address once, at its first appearance. */
  function Distinctly(addresses: seq<string>): (r: seq<string>) {
    if addresses == [] then []
    else
      var front, last := Distinctly(addresses[..|addresses| - 1]), addresses[|addresses| - 1];
      if last == "" || last in front then front else front + [last]
  }

  predicate IsUnknown(s: State, address: string) {
    address !in s.people.emails
  }

  predicate IsNoStudent(s: State, address: string) {
    address in s.people.emails && !IsStudent(s, s.people.emails[address])
  }

  predicate IsNewcomer(s: State, c: CourseId, address: string) {
    address in s.people.emails && IsStudent(s, s.people.emails[address]) &&
    Member(c, s.people.emails[address]) !in s.school.enrolled
  }

  function Unknowns(s: State, list: seq<string>): seq<string> {
    if list == [] then []
    else Unknowns(s, list[..|list| - 1])
         + if IsUnknown(s, list[|list| - 1]) then [list[|list| - 1]] else []
  }

  function NoStudents(s: State, list: seq<string>): seq<string> {
    if list == [] then []
    else NoStudents(s, list[..|list| - 1])
         + if IsNoStudent(s, list[|list| - 1]) then [list[|list| - 1]] else []
  }

  function Newcomers(s: State, c: CourseId, list: seq<string>): seq<string> {
    if list == [] then []
    else Newcomers(s, c, list[..|list| - 1])
         + if IsNewcomer(s, c, list[|list| - 1]) then [list[|list| - 1]] else []
  }

  function StudentsNamed(s: State, c: CourseId, list: seq<string>): set<Member> {
    set a | a in list && a in s.people.emails && IsStudent(s, s.people.emails[a]) :: Member(c, s.people.emails[a])
  }

  function StepImport(s: State, u: UserId, c: CourseId, addresses: seq<string>): (State, Response) {
    if !IsTeacher(s, u) then (s, WrongRole)
    else if !TeachesCourse(s, u, c) then (s, OtherNotFound)
    else if IsArchived(s, c) then (s, CourseArchived)
    else
      var list := Distinctly(addresses);
      var newly, unknown, notStudents := Newcomers(s, c, list), Unknowns(s, list), NoStudents(s, list);
      (WithEnrolled(s, s.school.enrolled + StudentsNamed(s, c, list)),
       Imported(newly, |list| - |newly| - |unknown| - |notStudents|, unknown, notStudents))
  }

  function StepUnenrol(s: State, u: UserId, c: CourseId, target: UserId): (State, Response) {
    if !IsTeacher(s, u) then (s, WrongRole)
    else if !TeachesCourse(s, u, c) then (s, OtherNotFound)
    else if Member(c, target) !in s.school.enrolled then (s, OtherNotFound)
    else (WithEnrolled(s, s.school.enrolled - {Member(c, target)}), Done)
  }

  // ---------------------------------------------------------------------------
  // Problems
  // ---------------------------------------------------------------------------

  function StepCreateProblem(s: State, u: UserId, c: CourseId, cases: nat): (State, Response) {
    if !IsTeacher(s, u) then (s, WrongRole)
    else if cases == 0 then (s, BadRequest)
    else if !TeachesCourse(s, u, c) then (s, OtherNotFound)
    else if IsArchived(s, c) then (s, CourseArchived)
    else (s.(bank := Bank(s.bank.problems[s.bank.nextProblem := Problem(c, cases)], s.bank.nextProblem + 1)),
          Created(s.bank.nextProblem))
  }

  function WithoutProblem(paper: seq<PaperRow>, p: ProblemId): seq<PaperRow> {
    if paper == [] then []
    else if paper[0].problem == p then WithoutProblem(paper[1..], p)
    else [paper[0]] + WithoutProblem(paper[1..], p)
  }

  function KeepSubmissions(list: seq<Submission>, p: ProblemId): seq<Submission> {
    if list == [] then []
    else if list[0].problem == p then KeepSubmissions(list[1..], p)
    else [list[0]] + KeepSubmissions(list[1..], p)
  }

  /** The row goes, and with it every row that references it. */
  function StepDeleteProblem(s: State, u: UserId, p: ProblemId): (State, Response) {
    if !IsTeacher(s, u) then (s, WrongRole)
    else if !OwnsProblem(s, u, p) then (s, ProblemNotFound)
    else (s.(bank := s.bank.(problems := s.bank.problems - {p}),
             plan := s.plan.(exams := map e | e in s.plan.exams ::
               s.plan.exams[e].(paper := WithoutProblem(s.plan.exams[e].paper, p))),
             work := s.work.(deals := (set cell | cell in s.work.deals && cell.problem != p),
                             submissions := KeepSubmissions(s.work.submissions, p)),
             grants := s.grants.(overrides :=
               map cell | cell in s.grants.overrides && cell.problem != p :: s.grants.overrides[cell])), Done)
  }

  function WithCases(s: State, p: ProblemId, cases: nat): State
    requires p in s.bank.problems
  {
    s.(bank := s.bank.(problems := s.bank.problems[p := s.bank.problems[p].(cases := cases)]))
  }

  function StepAddTestCase(s: State, u: UserId, p: ProblemId): (State, Response) {
    if !IsTeacher(s, u) then (s, WrongRole)
    else if !OwnsProblem(s, u, p) then (s, ProblemNotFound)
    else (WithCases(s, p, s.bank.problems[p].cases + 1), Done)
  }

  function StepDeleteTestCase(s: State, u: UserId, p: ProblemId): (State, Response) {
    if !IsTeacher(s, u) then (s, WrongRole)
    else if !OwnsProblem(s, u, p) then (s, ProblemNotFound)
    else
      var cases := s.bank.problems[p].cases;
      (WithCases(s, p, if cases == 0 then 0 else cases - 1), Done)
  }

  // ---------------------------------------------------------------------------
  // Exams
  // ---------------------------------------------------------------------------

  /** Every problem on a paper belongs to the exam's own course. */
  predicate AllInCourse(s: State, ids: seq<ProblemId>, c: CourseId) {
    forall i :: 0 <= i < |ids| ==> ids[i] in s.bank.problems && s.bank.problems[ids[i]].course == c
  }

  /** A roster names only students enrolled in the exam's course. */
  predicate AllEnrolledStudents(s: State, ids: seq<UserId>, c: CourseId) {
    forall i :: 0 <= i < |ids| ==> Member(c, ids[i]) in s.school.enrolled && IsStudent(s, ids[i])
  }

  /** The marks of an evenly divided paper: the remainder goes to the first problems, one each. */
  function EvenPoints(n: nat, i: nat): int
    requires i < n
  {
    var base := 100 / n;
    base + if i < 100 - base * n then 1 else 0
  }

  function PaperFor(d: Draft): (paper: seq<PaperRow>)
    requires d.points.Some? ==> |d.points.value| == |d.problems|
    ensures |paper| == |d.problems| && PaperIds(paper) == d.problems
  {
    seq(|d.problems|, i requires 0 <= i < |d.problems| =>
      PaperRow(d.problems[i], if d.points.Some? then d.points.value[i] else EvenPoints(|d.problems|, i)))
  }

  /** Kept only when it narrows the paper. */
  function PerStudentFor(d: Draft): Option<int> {
    if d.perStudent.Some? && d.perStudent.value != 0 && d.perStudent.value < |d.problems|
    then d.perStudent else None
  }

  function ExamFor(c: CourseId, d: Draft): Exam
    requires d.points.Some? ==> |d.points.value| == |d.problems|
  {
    Exam(c, d.start, d.end, d.lateWindow, d.latePenalty, PerStudentFor(d), PaperFor(d))
  }

  /** The table's own CHECK constraints. */
  predicate WithinConstraints(d: Draft) {
    0 <= d.lateWindow <= MAX_LATE_WINDOW && 0 <= d.latePenalty <= 100
  }

  /** What the request schema of an edit demands; creation has no such schema. */
  predicate PassesEditSchema(d: Draft) {
    d.problems != [] && WithinConstraints(d) &&
    (d.perStudent.Some? ==> d.perStudent.value > 0) &&
    (d.points.Some? ==> forall i :: 0 <= i < |d.points.value| ==> 0 <= d.points.value[i] <= 1000)
  }

  function StepCreateExam(s: State, u: UserId, c: CourseId, d: Draft, sitters: Option<seq<UserId>>): (State, Response) {
    if !IsTeacher(s, u) then (s, WrongRole)
    else if !TeachesCourse(s, u, c) then (s, OtherNotFound)
    else if IsArchived(s, c) then (s, CourseArchived)
    else if d.problems == [] || d.start >= d.end then (s, BadRequest)
    else if d.points.Some? && |d.points.value| != |d.problems| then (s, BadRequest)
    else if !AllInCourse(s, d.problems, c) then (s, BadRequest)
    else if sitters.Some? && !AllEnrolledStudents(s, sitters.value, c) then (s, BadRequest)
    else if !WithinConstraints(d) || !Distinct(d.problems) then (s, ServerError)
    else
      var e := s.plan.nextExam;
      var seats := if sitters.Some? then set u | u in sitters.value :: Seat(e, u) else {};
      (s.(plan := Plan(s.plan.exams[e := ExamFor(c, d)], s.plan.roster + seats, e + 1)), Created(e))
  }

  function StepEditExam(s: State, u: UserId, e: ExamId, d: Draft): (State, Response) {
    if !IsTeacher(s, u) then (s, WrongRole)
    else if !PassesEditSchema(d) then (s, BadRequest)
    else if !OwnsExam(s, u, e) then (s, OtherNotFound)
    else if d.start >= d.end then (s, BadRequest)
    else if d.points.Some? && |d.points.value| != |d.problems| then (s, BadRequest)
    else if !AllInCourse(s, d.problems, s.plan.exams[e].course) then (s, BadRequest)
    else if !Distinct(d.problems) then (s, ServerError)
    else (s.(plan := s.plan.(exams := s.plan.exams[e := ExamFor(s.plan.exams[e].course, d)]),
             work := s.work.(deals :=
               set cell | cell in s.work.deals && (cell.exam == e ==> cell.problem in d.problems))), Done)
  }

  function StepSetRoster(s: State, u: UserId, e: ExamId, sitters: seq<UserId>): (State, Response) {
    if !IsTeacher(s, u) then (s, WrongRole)
    else if !OwnsExam(s, u, e) then (s, OtherNotFound)
    else if !AllEnrolledStudents(s, sitters, s.plan.exams[e].course) then (s, BadRequest)
    else (s.(plan := s.plan.(roster :=
               (set seat | seat in s.plan.roster && seat.exam != e) + (set u | u in sitters :: Seat(e, u))),
             work := s.work.(deals :=
               set cell | cell in s.work.deals && (cell.exam == e ==> cell.user in sitters))), Done)
  }

  function StepGrantTime(s: State, u: UserId, e: ExamId, target: UserId, minutes: int): (State, Response) {
    if !IsTeacher(s, u) then (s, WrongRole)
    else if !(0 <= minutes <= 1440) then (s, BadRequest)
    else if !OwnsExam(s, u, e) then (s, OtherNotFound)
    else if minutes == 0 then (s.(grants := s.grants.(extra := s.grants.extra - {Seat(e, target)})), Done)
    else if target !in s.people.users then (s, ServerError)
    else (s.(grants := s.grants.(extra := s.grants.extra[Seat(e, target) := minutes])), Done)
  }

  function StepSetOverride(s: State, u: UserId, cell: Cell, o: Override): (State, Response) {
    if !IsTeacher(s, u) then (s, WrongRole)
    else if o.score < 0 || o.maxScore <= 0 then (s, BadRequest)
    else if !OwnsExam(s, u, cell.exam) then (s, OtherNotFound)
    else if o.score > o.maxScore then (s, BadRequest)
    else if cell.user !in s.people.users || cell.problem !in s.bank.problems then (s, ServerError)
    else (s.(grants := s.grants.(overrides := s.grants.overrides[cell := o])), Done)
  }

  function StepDropOverride(s: State, u: UserId, cell: Cell): (State, Response) {
    if !IsTeacher(s, u) then (s, WrongRole)
    else if !OwnsExam(s, u, cell.exam) then (s, OtherNotFound)
    else (s.(grants := s.grants.(overrides := s.grants.overrides - {cell})), Done)
  }

  // ---------------------------------------------------------------------------
  // Reading, sitting, submitting, grading
  // ---------------------------------------------------------------------------

  /** The rows of the paper whose problem was assigned, in the paper's order. */
  function RowsOf(paper: seq<PaperRow>, dealt: set<ProblemId>): seq<PaperRow> {
    if paper == [] then []
    else if paper[0].problem in dealt then [paper[0]] + RowsOf(paper[1..], dealt)
    else RowsOf(paper[1..], dealt)
  }

  predicate IsAttempt(row: Submission, cell: Cell) {
    row.exam == Some(cell.exam) && row.user == cell.user && row.problem == cell.problem
  }

  function Attempts(list: seq<Submission>, cell: Cell): seq<Submission> {
    if list == [] then []
    else if IsAttempt(list[0], cell) then [list[0]] + Attempts(list[1..], cell)
    else Attempts(list[1..], cell)
  }

  function MaxPassed(list: seq<Submission>): nat
    requires list != []
  {
    if |list| == 1 then list[0].passed
    else
      var front, last := MaxPassed(list[..|list| - 1]), list[|list| - 1].passed;
      if last > front then last else front
  }

  function MaxTotal(list: seq<Submission>): nat
    requires list != []
  {
    if |list| == 1 then list[0].total
    else
      var front, last := MaxTotal(list[..|list| - 1]), list[|list| - 1].total;
      if last > front then last else front
  }

  lemma {:induction false} AttemptsAreRows(list: seq<Submission>, cell: Cell, row: Submission)
    ensures row in Attempts(list, cell) <==> row in list && IsAttempt(row, cell)
  {
    if list == [] {
    } else {
      AttemptsAreRows(list[1..], cell, row);
      assert list == [list[0]] + list[1..];
    }
  }

  /** The problems on which the student has submitted under this exam, whether or not it has started. */
  function Tried(list: seq<Submission>, u: UserId, e: ExamId): set<ProblemId> {
    set row | row in list && row.user == u && row.exam == Some(e) :: row.problem
  }

  lemma TriedHasAttempts(list: seq<Submission>, u: UserId, e: ExamId, p: ProblemId)
    requires p in Tried(list, u, e)
    ensures Attempts(list, Cell(e, u, p)) != []
  {
    var row :| row in list && row.user == u && row.exam == Some(e) && row.problem == p;
    AttemptsAreRows(list, Cell(e, u, p), row);
  }

  function ProgressOf(list: seq<Submission>, u: UserId, e: ExamId): map<ProblemId, Progress> {
    map p | p in Tried(list, u, e) ::
      TriedHasAttempts(list, u, e, p);
      var attempts := Attempts(list, Cell(e, u, p));
      Progress(MaxPassed(attempts), MaxTotal(attempts))
  }

  /** The student's own deadline. */
  function EndsAt(s: State, e: ExamId, u: UserId): int
    requires e in s.plan.exams
  {
    s.plan.exams[e].end + ExtraMinutes(s, e, u) * MINUTE
  }

  function StepOpenExam(s: State, u: UserId, e: ExamId, js: seq<nat>): (State, Response) {
    if !CanAccessExam(s, u, e) then (s, OtherNotFound)
    else if IsTeacher(s, u) then (s, Shown(s.plan.exams[e].paper, map[], None))
    else
      var progress, endsAt := ProgressOf(s.work.submissions, u, e), Some(EndsAt(s, e, u));
      if !HasStarted(s, e) then (s, Shown([], progress, endsAt))
      else
        var (s', dealt) := Assign(s, e, u, js);
        (s', Shown(RowsOf(s.plan.exams[e].paper, dealt), progress, endsAt))
  }

  /** The row is inserted whether or not the grading queue takes the job. */
  function Insert(
    s: State, u: UserId, p: ProblemId, exam: Option<ExamId>, isLate: bool, penalty: int, enqueued: bool)
    : (State, Response)
    requires p in s.bank.problems
  {
    if s.bank.problems[p].cases == 0 then (s, NoTestCases)
    else
      var row := Submission(s.work.nextSubmission, u, p, exam, isLate, penalty, s.now,
                            if enqueued then Queued else Failed, 0, s.bank.problems[p].cases, None, None);
      (s.(work := s.work.(submissions := s.work.submissions + [row], nextSubmission := s.work.nextSubmission + 1)),
       if enqueued then Accepted(row.id) else Unavailable)
  }

  function SubmitToExam(s: State, u: UserId, p: ProblemId, e: ExamId, enqueued: bool, js: seq<nat>): (State, Response)
    requires p in s.bank.problems
  {
    if !CanAccessExam(s, u, e) then (s, OtherNotFound)
    else
      match WindowOf(s, e, u)
      case NotFound => (s, ExamEnded)
      case NotStarted => (s, ExamNotStarted)
      case Ended => (s, ExamEnded)
      case OnTime => SubmitDealt(s, u, p, e, false, 0, enqueued, js)
      case Late(penalty) => SubmitDealt(s, u, p, e, true, penalty, enqueued, js)
  }

  function SubmitDealt(
    s: State, u: UserId, p: ProblemId, e: ExamId, isLate: bool, penalty: int, enqueued: bool, js: seq<nat>)
    : (State, Response)
    requires p in s.bank.problems
  {
    var (s', dealt) := Assign(s, e, u, js);
    if p !in dealt then (s', NotPartOfExam) else Insert(s', u, p, Some(e), isLate, penalty, enqueued)
  }

  function StepSubmit(
    s: State, u: UserId, p: ProblemId, exam: Option<ExamId>, enqueued: bool, js: seq<nat>): (State, Response)
  {
    if !CanAccessProblem(s, u, p) then (s, ProblemNotFound)
    else if IsArchived(s, s.bank.problems[p].course) then (s, CourseArchived)
    else if exam.None? then Insert(s, u, p, None, false, 0, enqueued)
    else SubmitToExam(s, u, p, exam.value, enqueued, js)
  }

  function Graded(row: Submission, o: Outcome): Submission {
    row.(status := if o.failed then Failed else Completed, passed := o.passed, total := o.total,
         earnedWeight := o.earnedWeight, totalWeight := o.totalWeight)
  }

  function GradeRows(list: seq<Submission>, id: nat, o: Outcome): (r: seq<Submission>)
    ensures |r| == |list|
    ensures forall i :: 0 <= i < |list| ==> r[i] == if list[i].id == id then Graded(list[i], o) else list[i]
  {
    seq(|list|, i requires 0 <= i < |list| => if list[i].id == id then Graded(list[i], o) else list[i])
  }

  function ActorOf(op: Op): Option<UserId> {
    if op.Tick? || op.Grade? then None else Some(op.user)
  }

  /** Requests about courses, enrolment and allowances, and plain reads. */
  predicate IsCourseOp(op: Op) {
    op.Tick? || op.CreateCourse? || op.SetArchived? || op.AddStaff? || op.RemoveStaff? || op.Join? ||
    op.Import? || op.Unenrol? || op.UpdateProblem? || op.GrantTime? || op.SetOverride? || op.DropOverride? ||
    op.ListProblems? || op.ReadProblem?
  }

  function StepCourse(s: State, op: Op): (State, Response)
    requires IsCourseOp(op)
  {
    match op
    case Tick(to) => (if to > s.now then s.(now := to) else s, Done)
    case CreateCourse(u) =>
      if !IsTeacher(s, u) then (s, WrongRole)
      else (s.(school := s.school.(courses := s.school.courses[s.school.nextCourse := Course(u, {}, false)],
                                   nextCourse := s.school.nextCourse + 1)),
            Created(s.school.nextCourse))
    case SetArchived(u, c, archived) => StepSetArchived(s, u, c, archived)
    case AddStaff(u, c, email) => StepAddStaff(s, u, c, email)
    case RemoveStaff(u, c, target) => StepRemoveStaff(s, u, c, target)
    case Join(u, code) => StepJoin(s, u, code)
    case Import(u, c, addresses) => StepImport(s, u, c, addresses)
    case Unenrol(u, c, target) => StepUnenrol(s, u, c, target)
    case UpdateProblem(u, p) =>
      if !IsTeacher(s, u) then (s, WrongRole) else if !OwnsProblem(s, u, p) then (s, ProblemNotFound) else (s, Done)
    case GrantTime(u, e, target, minutes) => StepGrantTime(s, u, e, target, minutes)
    case SetOverride(u, cell, o) => StepSetOverride(s, u, cell, o)
    case DropOverride(u, cell) => StepDropOverride(s, u, cell)
    case ListProblems(u) => (s, Listing(set p | p in s.bank.problems && CanAccessProblem(s, u, p)))
    case ReadProblem(u, p) => (s, if CanAccessProblem(s, u, p) then Detail(p) else ProblemNotFound)
  }

  /** Requests about problems and exams, sittings and grades. */
  function StepExam(s: State, op: Op): (State, Response)
    requires !IsCourseOp(op)
  {
    match op
    case CreateProblem(u, c, cases) => StepCreateProblem(s, u, c, cases)
    case DeleteProblem(u, p) => StepDeleteProblem(s, u, p)
    case AddTestCase(u, p) => StepAddTestCase(s, u, p)
    case DeleteTestCase(u, p) => StepDeleteTestCase(s, u, p)
    case CreateExam(u, c, draft, sitters) => StepCreateExam(s, u, c, draft, sitters)
    case EditExam(u, e, draft) => StepEditExam(s, u, e, draft)
    case SetRoster(u, e, sitters) => StepSetRoster(s, u, e, sitters)
    case OpenExam(u, e, js) => StepOpenExam(s, u, e, js)
    case Submit(u, p, exam, enqueued, js) => StepSubmit(s, u, p, exam, enqueued, js)
    case Grade(id, outcome) => (s.(work := s.work.(submissions := GradeRows(s.work.submissions, id, outcome))), Done)
  }

  function Step(s: State, op: Op): (State, Response) {
    if ActorOf(op).Some? && ActorOf(op).value !in s.people.users then (s, WrongRole)
    else if IsCourseOp(op) then StepCourse(s, op)
    else StepExam(s, op)
  }

  /** The state after a run of requests. */
  function Exec(s: State, ops: seq<Op>): State {
    if ops == [] then s else Step(Exec(s, ops[..|ops| - 1]), ops[|ops| - 1]).0
  }

  /** An installation with its accounts and nothing else. */
  predicate IsInitial(s: State) {
    s.school.courses == map[] && s.school.enrolled == {} && s.bank.problems == map[] &&
    s.plan.exams == map[] && s.plan.roster == {} &&
    s.work.deals == {} && s.grants.extra == map[] && s.work.submissions == [] && s.grants.overrides == map[] &&
    (forall a :: a in s.people.emails ==> s.people.emails[a] in s.people.users) &&
    (forall a, b :: a in s.people.emails && b in s.people.emails && s.people.emails[a] == s.people.emails[b] ==> a == b)
  }
}
