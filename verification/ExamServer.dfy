/**
 * The handlers, as methods over the tables. Each one leaves the tables, and gives the answer, that
 * `ExamModel.Step` says; what holds of `Step` over runs is proved beside it.
 */
module ExamServer {
  import opened Lists
  import opened Options
  import opened ExamModel
  import opened ExamInvariants
  import opened ExamSafety
  import Dealing

  /** `Math.random`, one value after another. */
  type Random = nat -> real

  ghost predicate IsRandom(random: Random) {
    forall i :: 0.0 <= random(i) < 1.0
  }

  function Draws(random: Random, n: nat): (draws: seq<real>)
    ensures |draws| == n && forall i :: 0 <= i < n ==> draws[i] == random(i)
  {
    seq(n, i requires 0 <= i < n => random(i))
  }

  /** The positions these draws pick when the paper of `e` is shuffled. */
  ghost function Picks(s: State, e: ExamId, random: Random): seq<nat>
    requires IsRandom(random)
  {
    if e in s.plan.exams
    then Dealing.ChoicesOf(Draws(random, |s.plan.exams[e].paper|), |s.plan.exams[e].paper|)
    else []
  }

  class Server {
    var now: int
    var people: People
    var school: School
    var bank: Bank
    var plan: Plan
    var work: Work
    var grants: Grants

    function Snapshot(): State
      reads this
    {
      State(now, people, school, bank, plan, work, grants)
    }

    ghost predicate Valid()
      reads this
    {
      Inv(Snapshot())
    }

    /** problemsBelongToCourse: as many of the course's problems are found as are named. */
    method ProblemsBelongToCourse(ids: seq<ProblemId>, c: CourseId) returns (ok: bool)
      ensures ok <==> AllInCourse(Snapshot(), ids, c)
    {
      var named := set p | p in ids;
      var found := set p | p in ids && p in bank.problems && bank.problems[p].course == c;
      ok := |found| == |named|;
      SubsetBySize(found, named);
      assert AllInCourse(Snapshot(), ids, c) ==> found == named;
      assert found == named ==> forall i :: 0 <= i < |ids| ==> ids[i] in named;
    }

    /** rosterNamesEnrolledStudents, by the same count. */
    method RosterNamesEnrolledStudents(ids: seq<UserId>, c: CourseId) returns (ok: bool)
      ensures ok <==> AllEnrolledStudents(Snapshot(), ids, c)
    {
      if |ids| == 0 {
        return true;
      }
      var named := set u | u in ids;
      var found := set u |
        u in ids && Member(c, u) in school.enrolled && u in people.users && people.users[u] == Student;
      ok := |found| == |named|;
      SubsetBySize(found, named);
      assert AllEnrolledStudents(Snapshot(), ids, c) ==> found == named;
      assert found == named ==> forall i :: 0 <= i < |ids| ==> ids[i] in named;
    }

    /** writePaper: one insert per problem, refused by the key when a problem repeats. */
    method WritePaper(d: Draft) returns (paper: seq<PaperRow>, violated: bool)
      requires d.problems != [] && (d.points.Some? ==> |d.points.value| == |d.problems|)
      ensures violated <==> !Distinct(d.problems)
      ensures !violated ==> paper == PaperFor(d)
    {
      paper := [];
      var n := |d.problems|;
      for index := 0 to n
        invariant paper == PaperFor(d)[..index] && Distinct(d.problems[..index])
      {
        var base := 100 / n;
        var remainder := 100 - base * n;
        var value := if d.points.Some? then d.points.value[index] else base + if index < remainder then 1 else 0;
        if d.problems[index] in d.problems[..index] {
          violated := true;
          var k :| 0 <= k < index && d.problems[k] == d.problems[index];
          return;
        }
        assert d.problems[..index + 1] == d.problems[..index] + [d.problems[index]];
        paper := paper + [PaperRow(d.problems[index], value)];
      }
      violated := false;
      assert d.problems[..n] == d.problems && PaperFor(d)[..n] == PaperFor(d);
    }

    method CreateExam(u: UserId, c: CourseId, d: Draft, sitters: Option<seq<UserId>>) returns (r: Response)
      requires Valid() && u in people.users
      modifies this
      ensures (Snapshot(), r) == Step(old(Snapshot()), Op.CreateExam(u, c, d, sitters))
      ensures Valid()
    {
      hide Step;
      ghost var op := Op.CreateExam(u, c, d, sitters);
      StepInv(Snapshot(), op);
      StepIs(Snapshot(), op);
      hide Inv, AllInCourse, AllEnrolledStudents, Distinct;
      if people.users[u] != Teacher {
        return WrongRole;
      }
      if !TeachesCourse(Snapshot(), u, c) {
        return OtherNotFound;
      }
      if school.courses[c].archived {
        return CourseArchived;
      }
      if d.problems == [] || d.start >= d.end {
        return BadRequest;
      }
      if d.points.Some? && |d.points.value| != |d.problems| {
        return BadRequest;
      }
      var belong := ProblemsBelongToCourse(d.problems, c);
      if !belong {
        return BadRequest;
      }
      if sitters.Some? {
        var named := RosterNamesEnrolledStudents(sitters.value, c);
        if !named {
          return BadRequest;
        }
      }
      if !WithinConstraints(d) {
        return ServerError;
      }
      var paper, violated := WritePaper(d);
      if violated {
        return ServerError;
      }
      var seats: set<Seat> := {};
      if sitters.Some? {
        for i := 0 to |sitters.value|
          invariant seats == set u | u in sitters.value[..i] :: Seat(plan.nextExam, u)
        {
          seats := seats + {Seat(plan.nextExam, sitters.value[i])};
        }
        assert sitters.value[..|sitters.value|] == sitters.value;
      }
      var perStudent :=
        if d.perStudent.Some? && d.perStudent.value != 0 && d.perStudent.value < |d.problems| then d.perStudent
        else None;
      var exam := Exam(c, d.start, d.end, d.lateWindow, d.latePenalty, perStudent, paper);
      r := Created(plan.nextExam);
      plan := Plan(plan.exams[plan.nextExam := exam], plan.roster + seats, plan.nextExam + 1);
    }

    method EditExam(u: UserId, e: ExamId, d: Draft) returns (r: Response)
      requires Valid() && u in people.users
      modifies this`plan, this`work
      ensures (Snapshot(), r) == Step(old(Snapshot()), Op.EditExam(u, e, d))
      ensures Valid()
    {
      hide Step;
      ghost var op := Op.EditExam(u, e, d);
      StepInv(Snapshot(), op);
      StepIs(Snapshot(), op);
      hide Inv, AllInCourse, Distinct;
      if people.users[u] != Teacher {
        return WrongRole;
      }
      if !PassesEditSchema(d) {
        return BadRequest;
      }
      if !OwnsExam(Snapshot(), u, e) {
        return OtherNotFound;
      }
      var course := plan.exams[e].course;
      if d.start >= d.end {
        return BadRequest;
      }
      if d.points.Some? && |d.points.value| != |d.problems| {
        return BadRequest;
      }
      var belong := ProblemsBelongToCourse(d.problems, course);
      if !belong {
        return BadRequest;
      }
      var paper, violated := WritePaper(d);
      if violated {
        return ServerError;
      }
      var perStudent :=
        if d.perStudent.Some? && d.perStudent.value != 0 && d.perStudent.value < |d.problems| then d.perStudent
        else None;
      var exam := Exam(course, d.start, d.end, d.lateWindow, d.latePenalty, perStudent, paper);
      plan := plan.(exams := plan.exams[e := exam]);
      work := work.(deals := set cell | cell in work.deals && !(cell.exam == e && cell.problem !in d.problems));
      assert work.deals == set cell | cell in old(work.deals) && (cell.exam == e ==> cell.problem in d.problems);
      r := Done;
    }

    /** The roster is deleted and written again, one row per name. */
    method ReplaceRoster(e: ExamId, sitters: seq<UserId>)
      modifies this`plan
      ensures plan == old(plan).(roster :=
                (set seat | seat in old(plan).roster && seat.exam != e) + (set u | u in sitters :: Seat(e, u)))
    {
      plan := plan.(roster := set seat | seat in plan.roster && seat.exam != e);
      ghost var others := plan.roster;
      for i := 0 to |sitters|
        invariant plan == old(plan).(roster := others + set u | u in sitters[..i] :: Seat(e, u))
      {
        plan := plan.(roster := plan.roster + {Seat(e, sitters[i])});
      }
      assert sitters[..|sitters|] == sitters;
    }

    method SetRoster(u: UserId, e: ExamId, sitters: seq<UserId>) returns (r: Response)
      requires Valid() && u in people.users
      modifies this`plan, this`work
      ensures (Snapshot(), r) == Step(old(Snapshot()), Op.SetRoster(u, e, sitters))
      ensures Valid()
    {
      hide Step;
      ghost var op := Op.SetRoster(u, e, sitters);
      StepInv(Snapshot(), op);
      StepIs(Snapshot(), op);
      hide Inv, AllEnrolledStudents;
      if people.users[u] != Teacher {
        return WrongRole;
      }
      if !OwnsExam(Snapshot(), u, e) {
        return OtherNotFound;
      }
      var named := RosterNamesEnrolledStudents(sitters, plan.exams[e].course);
      if !named {
        return BadRequest;
      }
      ReplaceRoster(e, sitters);
      work := work.(deals := set cell | cell in work.deals && !(cell.exam == e && cell.user !in sitters));
      assert work.deals == set cell | cell in old(work.deals) && (cell.exam == e ==> cell.user in sitters);
      r := Done;
    }

    method GrantTime(u: UserId, e: ExamId, target: UserId, minutes: int) returns (r: Response)
      requires Valid() && u in people.users
      modifies this`grants
      ensures (Snapshot(), r) == Step(old(Snapshot()), Op.GrantTime(u, e, target, minutes))
      ensures Valid()
    {
      hide Step;
      ghost var op := Op.GrantTime(u, e, target, minutes);
      StepInv(Snapshot(), op);
      StepIs(Snapshot(), op);
      hide Inv;
      if people.users[u] != Teacher {
        return WrongRole;
      }
      if !(0 <= minutes <= 1440) {
        return BadRequest;
      }
      if !OwnsExam(Snapshot(), u, e) {
        return OtherNotFound;
      }
      if minutes == 0 {
        grants := grants.(extra := grants.extra - {Seat(e, target)});
        return Done;
      }
      if target !in people.users {
        return ServerError;
      }
      grants := grants.(extra := grants.extra[Seat(e, target) := minutes]);
      r := Done;
    }

    /** The inserts of a deal, ON CONFLICT DO NOTHING, one row after another. */
    method RecordDeal(e: ExamId, u: UserId, chosen: seq<ProblemId>)
      modifies this`work
      ensures work == old(work).(deals := old(work).deals + set p | p in chosen :: Cell(e, u, p))
    {
      for i := 0 to |chosen|
        invariant work == old(work).(deals := old(work).deals + set p | p in chosen[..i] :: Cell(e, u, p))
      {
        work := work.(deals := work.deals + {Cell(e, u, chosen[i])});
      }
      assert chosen[..|chosen|] == chosen;
    }

    /** assignedProblemIds: deals on first asking, and reads the settled deal back. */
    method AssignedProblemIds(e: ExamId, u: UserId, random: Random) returns (own: set<ProblemId>)
      requires Valid() && IsRandom(random)
      modifies this`work
      ensures (Snapshot(), own) == Assign(old(Snapshot()), e, u, Picks(old(Snapshot()), e, random))
    {
      ghost var s := Snapshot();
      ghost var js := Picks(s, e, random);
      if e !in plan.exams {
        return {};
      }
      var exam := plan.exams[e];
      var ids := PaperIds(exam.paper);
      var perStudent := exam.perStudent;
      if perStudent.None? || perStudent.value == 0 || perStudent.value >= |ids| {
        return set p | p in ids;
      }
      var existing := set cell | cell in work.deals && cell.exam == e && cell.user == u :: cell.problem;
      if existing != {} {
        return existing;
      }
      var chosen := Dealing.PickRandom(AsInts(ids), perStudent.value, Draws(random, |ids|));
      assert ExamOk(s, exam);
      FreshDealIs(exam, js, chosen);
      hide Inv, FreshDeal, Picks;
      RecordDeal(e, u, chosen);
      assert (set p | p in chosen :: Cell(e, u, p)) == set p | p in FreshDeal(exam, js) :: Cell(e, u, p);
      DealRecorded(s, e, u, FreshDeal(exam, js));
      own := set cell | cell in work.deals && cell.exam == e && cell.user == u :: cell.problem;
    }

    method OpenExam(u: UserId, e: ExamId, random: Random) returns (r: Response)
      requires Valid() && u in people.users && IsRandom(random)
      modifies this`work
      ensures (Snapshot(), r) == Step(old(Snapshot()), Op.OpenExam(u, e, Picks(old(Snapshot()), e, random)))
      ensures Valid()
    {
      hide Step;
      ghost var op := Op.OpenExam(u, e, Picks(Snapshot(), e, random));
      StepInv(Snapshot(), op);
      StepIs(Snapshot(), op);
      ghost var s := Snapshot();
      hide Inv, Assign, Picks, ProgressOf, RowsOf, EndsAt, CanAccessExam;
      if !CanAccessExam(Snapshot(), u, e) {
        return OtherNotFound;
      }
      if people.users[u] == Teacher {
        return Shown(plan.exams[e].paper, map[], None);
      }
      var progress, endsAt := ProgressOf(work.submissions, u, e), Some(EndsAt(Snapshot(), e, u));
      if !(plan.exams[e].start <= now) {
        return Shown([], progress, endsAt);
      }
      var own := AssignedProblemIds(e, u, random);
      r := Shown(RowsOf(plan.exams[e].paper, own), progress, endsAt);
    }

    /** Inserts the row as queued, and marks it failed if the queue does not take the job. */
    method InsertSubmission(u: UserId, p: ProblemId, examId: Option<ExamId>, isLate: bool, penalty: int, enqueued: bool)
      returns (r: Response)
      requires p in bank.problems
      modifies this`work
      ensures (Snapshot(), r) == Insert(old(Snapshot()), u, p, examId, isLate, penalty, enqueued)
    {
      if bank.problems[p].cases == 0 {
        return NoTestCases;
      }
      var id, n := work.nextSubmission, |work.submissions|;
      var row := Submission(id, u, p, examId, isLate, penalty, now, Queued, 0, bank.problems[p].cases, None, None);
      work := work.(submissions := work.submissions + [row], nextSubmission := id + 1);
      if !enqueued {
        work := work.(submissions := work.submissions[n := row.(status := Failed)]);
        assert work.submissions == old(work.submissions) + [row.(status := Failed)];
        return Unavailable;
      }
      r := Accepted(id);
    }

    /** The chain of checks of POST /api/submissions, from visibility to the stamped row. */
    method Submit(u: UserId, p: ProblemId, examId: Option<ExamId>, enqueued: bool, random: Random) returns (r: Response)
      requires Valid() && u in people.users && IsRandom(random)
      modifies this`work
      ensures (Snapshot(), r) == Step(old(Snapshot()), Op.Submit(u, p, examId, enqueued,
                if examId.Some? then Picks(old(Snapshot()), examId.value, random) else []))
      ensures Valid()
    {
      hide Step;
      ghost var s := Snapshot();
      ghost var js := if examId.Some? then Picks(s, examId.value, random) else [];
      ghost var op := Op.Submit(u, p, examId, enqueued, js);
      StepInv(Snapshot(), op);
      StepIs(Snapshot(), op);
      hide Inv, Assign, Picks, CanAccessProblem, CanAccessExam, WindowOf, Insert;
      if !CanAccessProblem(Snapshot(), u, p) {
        return ProblemNotFound;
      }
      AccessibleExists(s, u, p);
      if IsArchived(Snapshot(), bank.problems[p].course) {
        return CourseArchived;
      }
      var isLate, penalty := false, 0;
      if examId.Some? {
        if !CanAccessExam(Snapshot(), u, examId.value) {
          return OtherNotFound;
        }
        var window := WindowOf(Snapshot(), examId.value, u);
        if !(window.OnTime? || window.Late?) {
          return if window.NotStarted? then ExamNotStarted else ExamEnded;
        }
        if window.Late? {
          isLate, penalty := true, window.penalty;
        }
        var own := AssignedProblemIds(examId.value, u, random);
        if p !in own {
          return NotPartOfExam;
        }
      }
      r := InsertSubmission(u, p, examId, isLate, penalty, enqueued);
    }

    method Join(u: UserId, code: Option<CourseId>) returns (r: Response)
      requires Valid() && u in people.users
      modifies this`school
      ensures (Snapshot(), r) == Step(old(Snapshot()), Op.Join(u, code))
      ensures Valid()
    {
      hide Step;
      ghost var op := Op.Join(u, code);
      StepInv(Snapshot(), op);
      StepIs(Snapshot(), op);
      hide Inv;
      if code.None? || code.value !in school.courses {
        return OtherNotFound;
      }
      if school.courses[code.value].archived {
        return CourseArchived;
      }
      if school.courses[code.value].owner == u {
        return BadRequest;
      }
      school := school.(enrolled := school.enrolled + {Member(code.value, u)});
      r := Done;
    }

    /** The import loop: three lists filled, and one enrolment per student found. */
    method EnrolListed(c: CourseId, list: seq<string>)
      returns (newly: seq<string>, unknown: seq<string>, notStudents: seq<string>)
      requires AccountsOk(Snapshot()) && Distinct(list)
      modifies this`school
      ensures var s := old(Snapshot());
              newly == Newcomers(s, c, list) && unknown == Unknowns(s, list) && notStudents == NoStudents(s, list) &&
              school == s.school.(enrolled := s.school.enrolled + StudentsNamed(s, c, list))
    {
      hide AccountsOk, StudentsNamed;
      ghost var s := Snapshot();
      newly, unknown, notStudents := [], [], [];
      NoneNamed(s, c);
      for i := 0 to |list|
        invariant newly == Newcomers(s, c, list[..i]) && unknown == Unknowns(s, list[..i])
        invariant notStudents == NoStudents(s, list[..i])
        invariant school == s.school.(enrolled := s.school.enrolled + StudentsNamed(s, c, list[..i]))
      {
        var email := list[i];
        assert list[..i + 1][..i] == list[..i] && list[..i + 1][i] == email;
        NamedOneMore(s, c, list, i);
        if email in people.emails {
          NotNamedBefore(s, c, list, i);
        }
        if email !in people.emails {
          unknown := unknown + [email];
          continue;
        }
        if !(people.emails[email] in people.users && people.users[people.emails[email]] == Student) {
          notStudents := notStudents + [email];
          continue;
        }
        if Member(c, people.emails[email]) !in school.enrolled {
          newly := newly + [email];
        }
        school := school.(enrolled := school.enrolled + {Member(c, people.emails[email])});
      }
      assert list[..|list|] == list;
    }

    method Import(u: UserId, c: CourseId, addresses: seq<string>) returns (r: Response)
      requires Valid() && u in people.users
      modifies this`school
      ensures (Snapshot(), r) == Step(old(Snapshot()), Op.Import(u, c, addresses))
      ensures Valid()
    {
      hide Step;
      ghost var op := Op.Import(u, c, addresses);
      StepInv(Snapshot(), op);
      StepIs(Snapshot(), op);
      assert AccountsOk(Snapshot());
      hide Inv, Distinctly, StudentsNamed, Newcomers, Unknowns, NoStudents, Distinct;
      if people.users[u] != Teacher {
        return WrongRole;
      }
      if !TeachesCourse(Snapshot(), u, c) {
        return OtherNotFound;
      }
      if school.courses[c].archived {
        return CourseArchived;
      }
      var list := Distinctly(addresses);
      DistinctlyDistinct(addresses);
      var newly, unknown, notStudents := EnrolListed(c, list);
      r := Imported(newly, |list| - |newly| - |unknown| - |notStudents|, unknown, notStudents);
    }

    method Unenrol(u: UserId, c: CourseId, target: UserId) returns (r: Response)
      requires Valid() && u in people.users
      modifies this`school
      ensures (Snapshot(), r) == Step(old(Snapshot()), Op.Unenrol(u, c, target))
      ensures Valid()
    {
      hide Step;
      ghost var op := Op.Unenrol(u, c, target);
      StepInv(Snapshot(), op);
      StepIs(Snapshot(), op);
      hide Inv;
      if people.users[u] != Teacher {
        return WrongRole;
      }
      if !TeachesCourse(Snapshot(), u, c) {
        return OtherNotFound;
      }
      if Member(c, target) !in school.enrolled {
        return OtherNotFound;
      }
      school := school.(enrolled := school.enrolled - {Member(c, target)});
      r := Done;
    }

    method CreateCourse(u: UserId) returns (r: Response)
      requires Valid() && u in people.users
      modifies this`school
      ensures (Snapshot(), r) == Step(old(Snapshot()), Op.CreateCourse(u))
      ensures Valid()
    {
      hide Step;
      ghost var op := Op.CreateCourse(u);
      StepInv(Snapshot(), op);
      StepIs(Snapshot(), op);
      hide Inv;
      if people.users[u] != Teacher {
        return WrongRole;
      }
      r := Created(school.nextCourse);
      school := school.(courses := school.courses[school.nextCourse := Course(u, {}, false)],
                        nextCourse := school.nextCourse + 1);
    }

    /** An absent flag leaves the course as it is. */
    method SetArchived(u: UserId, c: CourseId, archived: Option<bool>) returns (r: Response)
      requires Valid() && u in people.users
      modifies this`school
      ensures (Snapshot(), r) == Step(old(Snapshot()), Op.SetArchived(u, c, archived))
      ensures Valid()
    {
      hide Step;
      ghost var op := Op.SetArchived(u, c, archived);
      StepInv(Snapshot(), op);
      StepIs(Snapshot(), op);
      hide Inv;
      if people.users[u] != Teacher {
        return WrongRole;
      }
      if !OwnsCourse(Snapshot(), u, c) {
        return OtherNotFound;
      }
      if archived.Some? {
        school := school.(courses := school.courses[c := school.courses[c].(archived := archived.value)]);
      }
      r := Done;
    }

    method AddStaff(u: UserId, c: CourseId, email: string) returns (r: Response)
      requires Valid() && u in people.users
      modifies this`school
      ensures (Snapshot(), r) == Step(old(Snapshot()), Op.AddStaff(u, c, email))
      ensures Valid()
    {
      hide Step;
      ghost var op := Op.AddStaff(u, c, email);
      StepInv(Snapshot(), op);
      StepIs(Snapshot(), op);
      hide Inv;
      if people.users[u] != Teacher {
        return WrongRole;
      }
      if !OwnsCourse(Snapshot(), u, c) {
        return OtherNotFound;
      }
      if email !in people.emails {
        return OtherNotFound;
      }
      var candidate := people.emails[email];
      if !(candidate in people.users && people.users[candidate] == Teacher) {
        return BadRequest;
      }
      if Member(c, candidate) in school.enrolled {
        return BadRequest;
      }
      if school.courses[c].owner == candidate {
        return BadRequest;
      }
      var course := school.courses[c];
      school := school.(courses := school.courses[c := course.(staff := course.staff + {candidate})]);
      r := Done;
    }

    method RemoveStaff(u: UserId, c: CourseId, target: UserId) returns (r: Response)
      requires Valid() && u in people.users
      modifies this`school
      ensures (Snapshot(), r) == Step(old(Snapshot()), Op.RemoveStaff(u, c, target))
      ensures Valid()
    {
      hide Step;
      ghost var op := Op.RemoveStaff(u, c, target);
      StepInv(Snapshot(), op);
      StepIs(Snapshot(), op);
      hide Inv;
      if people.users[u] != Teacher {
        return WrongRole;
      }
      if !OwnsCourse(Snapshot(), u, c) {
        return OtherNotFound;
      }
      var course := school.courses[c];
      school := school.(courses := school.courses[c := course.(staff := course.staff - {target})]);
      r := Done;
    }

    /** The problem row first, then one row per test case, all in one transaction. */
    method CreateProblem(u: UserId, c: CourseId, cases: nat) returns (r: Response)
      requires Valid() && u in people.users
      modifies this`bank
      ensures (Snapshot(), r) == Step(old(Snapshot()), Op.CreateProblem(u, c, cases))
      ensures Valid()
    {
      hide Step;
      ghost var op := Op.CreateProblem(u, c, cases);
      StepInv(Snapshot(), op);
      StepIs(Snapshot(), op);
      hide Inv;
      if people.users[u] != Teacher {
        return WrongRole;
      }
      if cases == 0 {
        return BadRequest;
      }
      if !TeachesCourse(Snapshot(), u, c) {
        return OtherNotFound;
      }
      if school.courses[c].archived {
        return CourseArchived;
      }
      var id, before := bank.nextProblem, bank.problems;
      bank := Bank(before[id := Problem(c, 0)], id + 1);
      for i := 0 to cases
        invariant bank == Bank(before[id := Problem(c, i)], id + 1)
      {
        bank := bank.(problems := bank.problems[id := Problem(c, bank.problems[id].cases + 1)]);
      }
      r := Created(id);
    }

    /** The row goes, and every row that references it goes with it. */
    method DeleteProblem(u: UserId, p: ProblemId) returns (r: Response)
      requires Valid() && u in people.users
      modifies this`bank, this`plan, this`work, this`grants
      ensures (Snapshot(), r) == Step(old(Snapshot()), Op.DeleteProblem(u, p))
      ensures Valid()
    {
      hide Step;
      ghost var op := Op.DeleteProblem(u, p);
      StepInv(Snapshot(), op);
      StepIs(Snapshot(), op);
      hide Inv;
      if people.users[u] != Teacher {
        return WrongRole;
      }
      if !OwnsProblem(Snapshot(), u, p) {
        return ProblemNotFound;
      }
      bank := bank.(problems := bank.problems - {p});
      plan := plan.(exams :=
        map e | e in plan.exams :: plan.exams[e].(paper := WithoutProblem(plan.exams[e].paper, p)));
      work := work.(deals := (set cell | cell in work.deals && cell.problem != p),
                    submissions := KeepSubmissions(work.submissions, p));
      grants := grants.(overrides :=
        map cell | cell in grants.overrides && cell.problem != p :: grants.overrides[cell]);
      r := Done;
    }

    method AddTestCase(u: UserId, p: ProblemId) returns (r: Response)
      requires Valid() && u in people.users
      modifies this`bank
      ensures (Snapshot(), r) == Step(old(Snapshot()), Op.AddTestCase(u, p))
      ensures Valid()
    {
      hide Step;
      ghost var op := Op.AddTestCase(u, p);
      StepInv(Snapshot(), op);
      StepIs(Snapshot(), op);
      hide Inv;
      if people.users[u] != Teacher {
        return WrongRole;
      }
      if !OwnsProblem(Snapshot(), u, p) {
        return ProblemNotFound;
      }
      bank := bank.(problems := bank.problems[p := bank.problems[p].(cases := bank.problems[p].cases + 1)]);
      r := Done;
    }

    method SetOverride(u: UserId, cell: Cell, o: Override) returns (r: Response)
      requires Valid() && u in people.users
      modifies this`grants
      ensures (Snapshot(), r) == Step(old(Snapshot()), Op.SetOverride(u, cell, o))
      ensures Valid()
    {
      hide Step;
      ghost var op := Op.SetOverride(u, cell, o);
      StepInv(Snapshot(), op);
      StepIs(Snapshot(), op);
      hide Inv;
      if people.users[u] != Teacher {
        return WrongRole;
      }
      if o.score < 0 || o.maxScore <= 0 {
        return BadRequest;
      }
      if !OwnsExam(Snapshot(), u, cell.exam) {
        return OtherNotFound;
      }
      if o.score > o.maxScore {
        return BadRequest;
      }
      if cell.user !in people.users || cell.problem !in bank.problems {
        return ServerError;
      }
      grants := grants.(overrides := grants.overrides[cell := o]);
      r := Done;
    }

    method DropOverride(u: UserId, cell: Cell) returns (r: Response)
      requires Valid() && u in people.users
      modifies this`grants
      ensures (Snapshot(), r) == Step(old(Snapshot()), Op.DropOverride(u, cell))
      ensures Valid()
    {
      hide Step;
      ghost var op := Op.DropOverride(u, cell);
      StepInv(Snapshot(), op);
      StepIs(Snapshot(), op);
      hide Inv;
      if people.users[u] != Teacher {
        return WrongRole;
      }
      if !OwnsExam(Snapshot(), u, cell.exam) {
        return OtherNotFound;
      }
      grants := grants.(overrides := grants.overrides - {cell});
      r := Done;
    }
  }

  // ---------------------------------------------------------------------------
  // What the loops rely on
  // ---------------------------------------------------------------------------

  /** A part with as many elements as the whole is the whole. */
  lemma SubsetBySize(part: set<int>, whole: set<int>)
    requires part <= whole
    ensures |part| == |whole| <==> part == whole
  {
    assert |whole - part| == |whole| - |part| by {
      assert whole == part + (whole - part);
    }
  }

  /** The step of each handler's request. */
  lemma StepIs(s: State, op: Op)
    requires ActorOf(op).Some? && ActorOf(op).value in s.people.users
    ensures match op
      case CreateExam(u, c, d, sitters) => Step(s, op) == StepCreateExam(s, u, c, d, sitters)
      case EditExam(u, e, d) => Step(s, op) == StepEditExam(s, u, e, d)
      case SetRoster(u, e, sitters) => Step(s, op) == StepSetRoster(s, u, e, sitters)
      case GrantTime(u, e, target, minutes) => Step(s, op) == StepGrantTime(s, u, e, target, minutes)
      case SetOverride(u, cell, o) => Step(s, op) == StepSetOverride(s, u, cell, o)
      case DropOverride(u, cell) => Step(s, op) == StepDropOverride(s, u, cell)
      case OpenExam(u, e, js) => Step(s, op) == StepOpenExam(s, u, e, js)
      case Submit(u, p, exam, enqueued, js) => Step(s, op) == StepSubmit(s, u, p, exam, enqueued, js)
      case Join(u, code) => Step(s, op) == StepJoin(s, u, code)
      case Import(u, c, addresses) => Step(s, op) == StepImport(s, u, c, addresses)
      case Unenrol(u, c, target) => Step(s, op) == StepUnenrol(s, u, c, target)
      case SetArchived(u, c, archived) => Step(s, op) == StepSetArchived(s, u, c, archived)
      case AddStaff(u, c, email) => Step(s, op) == StepAddStaff(s, u, c, email)
      case RemoveStaff(u, c, target) => Step(s, op) == StepRemoveStaff(s, u, c, target)
      case CreateProblem(u, c, cases) => Step(s, op) == StepCreateProblem(s, u, c, cases)
      case DeleteProblem(u, p) => Step(s, op) == StepDeleteProblem(s, u, p)
      case AddTestCase(u, p) => Step(s, op) == StepAddTestCase(s, u, p)
      case CreateCourse(u) => Step(s, op) == StepCourse(s, op)
      case _ => true
  {
    hide StepCreateExam, StepEditExam, StepSetRoster, StepGrantTime, StepSetOverride, StepDropOverride, StepOpenExam,
         StepSubmit, StepJoin, StepImport, StepUnenrol, StepSetArchived, StepAddStaff, StepRemoveStaff,
         StepCreateProblem, StepDeleteProblem, StepAddTestCase;
  }

  lemma FreshDealIs(exam: Exam, js: seq<nat>, chosen: seq<int>)
    requires Randomises(exam) && Distinct(PaperIds(exam.paper)) && Dealing.IsChoice(js, |exam.paper|)
    requires chosen == Dealing.Deal(AsInts(PaperIds(exam.paper)), exam.perStudent.value, js)
    ensures FreshDeal(exam, js) == set p | p in chosen
  {
    var ids := PaperIds(exam.paper);
    assert AsInts(ids) == ids;
    assert AsChoice(js, |ids|) == js;
    Dealing.DealShape(ids, exam.perStudent.value, js);
    forall p ensures p in FreshDeal(exam, js) <==> p in chosen {
    }
  }

  lemma {:induction false} DistinctlyDistinct(addresses: seq<string>)
    ensures Distinct(Distinctly(addresses))
    ensures forall a :: a in Distinctly(addresses) <==> a in addresses && a != ""
  {
    if addresses == [] {
    } else {
      var front, last := addresses[..|addresses| - 1], addresses[|addresses| - 1];
      DistinctlyDistinct(front);
      assert addresses == front + [last];
    }
  }

  lemma NoneNamed(s: State, c: CourseId)
    ensures StudentsNamed(s, c, []) == {}
  {
  }

  /** One more address names one more student, if it names one. */
  lemma NamedOneMore(s: State, c: CourseId, list: seq<string>, i: nat)
    requires i < |list|
    ensures var email := list[i];
            StudentsNamed(s, c, list[..i + 1]) == StudentsNamed(s, c, list[..i]) +
              (if email in s.people.emails && IsStudent(s, s.people.emails[email])
               then {Member(c, s.people.emails[email])} else {})
  {
  }

  /** No two addresses name the same account, so no earlier one has just enrolled this student. */
  lemma NotNamedBefore(s: State, c: CourseId, list: seq<string>, i: nat)
    requires AccountsOk(s) && i < |list| && Distinct(list) && list[i] in s.people.emails
    ensures Member(c, s.people.emails[list[i]]) !in StudentsNamed(s, c, list[..i])
  {
  }

  // ---------------------------------------------------------------------------
  // What an import reports
  // ---------------------------------------------------------------------------

  predicate IsAlready(s: State, c: CourseId, address: string) {
    address in s.people.emails && IsStudent(s, s.people.emails[address]) &&
    Member(c, s.people.emails[address]) in s.school.enrolled
  }

  function Alreadies(s: State, c: CourseId, list: seq<string>): seq<string> {
    if list == [] then []
    else Alreadies(s, c, list[..|list| - 1])
         + if IsAlready(s, c, list[|list| - 1]) then [list[|list| - 1]] else []
  }

  /** The count reported as already enrolled is the number of listed students who were. */
  lemma {:induction false} ImportPartition(s: State, c: CourseId, list: seq<string>)
    ensures |list| == |Newcomers(s, c, list)| + |Alreadies(s, c, list)| + |Unknowns(s, list)| + |NoStudents(s, list)|
  {
    if list == [] {
    } else {
      ImportPartition(s, c, list[..|list| - 1]);
    }
  }

  lemma {:induction false} NoNewcomersLeft(s: State, c: CourseId, list: seq<string>, all: seq<string>)
    requires forall a :: a in list ==> a in all
    ensures Newcomers(WithEnrolled(s, s.school.enrolled + StudentsNamed(s, c, all)), c, list) == []
  {
    if list == [] {
    } else {
      var front, last := list[..|list| - 1], list[|list| - 1];
      assert forall a :: a in front ==> a in list;
      NoNewcomersLeft(s, c, front, all);
      assert last in all;
    }
  }

  lemma {:induction false} SameReports(s: State, s': State, list: seq<string>)
    requires s'.people == s.people
    ensures Unknowns(s', list) == Unknowns(s, list) && NoStudents(s', list) == NoStudents(s, list)
  {
    if list == [] {
    } else {
      SameReports(s, s', list[..|list| - 1]);
    }
  }

  /** Importing the same list again enrols nobody and reports everybody found as already enrolled. */
  lemma ImportIsIdempotent(s: State, u: UserId, c: CourseId, addresses: seq<string>)
    requires StepImport(s, u, c, addresses).1.Imported?
    ensures var (s', r) := StepImport(s, u, c, addresses);
            var (s'', r') := StepImport(s', u, c, addresses);
            s'' == s' &&
            r' == Imported([], r.already + |r.newly|, r.unknown, r.notStudents)
  {
    hide Distinctly, Newcomers, Unknowns, NoStudents;
    var list := Distinctly(addresses);
    var s' := StepImport(s, u, c, addresses).0;
    NoNewcomersLeft(s, c, list, list);
    SameReports(s, s', list);
    assert StudentsNamed(s', c, list) == StudentsNamed(s, c, list);
    assert s'.school.enrolled + StudentsNamed(s', c, list) == s'.school.enrolled;
  }
}
