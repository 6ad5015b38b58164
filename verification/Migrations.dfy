/**
 * The migration runner: steps that several runners may interleave and that may be cut anywhere.
 *
 * Every transaction is one step, and so is every read. A runner that is killed, or whose SQL
 * fails, stops where it is; an open transaction rolls back.
 */
module Migrations {
  import opened Lists
  import opened Options

  type File = string

  /**
   * `effects` lists the migrations whose changes are in the schema, in the order they got there;
   * `log` is the bookkeeping table, if it exists; `accounts` counts the rows of `users`.
   */
  datatype Db = Db(users: bool, accounts: nat, effects: seq<File>, log: Option<set<File>>)

  /** What ships: the migration files in order, and those the base schema contains and records. */
  datatype Release = Release(files: seq<File>, seeded: seq<File>)

  predicate GoodRelease(rel: Release) {
    Distinct(rel.files) && Distinct(rel.seeded)
  }

  function SetOf(s: seq<File>): set<File> {
    set f | f in s
  }

  /** The base schema drops every table and creates it anew. */
  function Bootstrapped(rel: Release): Db {
    Db(true, 0, rel.seeded, Some(SetOf(rel.seeded)))
  }

  function WithLog(db: Db): Db {
    if db.log.None? then db.(log := Some({})) else db
  }

  function LogOf(db: Db): set<File> {
    if db.log.Some? then db.log.value else {}
  }

  function Missing(files: seq<File>, done: set<File>): seq<File> {
    if files == [] then []
    else if files[0] in done then Missing(files[1..], done)
    else [files[0]] + Missing(files[1..], done)
  }

  /** A migration and its bookkeeping row, in one transaction. */
  function Applied(db: Db, f: File): Db {
    db.(effects := db.effects + [f], log := Some(LogOf(db) + {f}))
  }

  // ---------------------------------------------------------------------------
  // One runner on its own
  // ---------------------------------------------------------------------------

  function AppliedAll(db: Db, files: seq<File>): Db {
    if files == [] then db else Applied(AppliedAll(db, files[..|files| - 1]), files[|files| - 1])
  }

  /** The database once the runner has decided about the base schema and has the bookkeeping table. */
  function Prepared(rel: Release, db: Db): Db {
    WithLog(if db.users then db else Bootstrapped(rel))
  }

  function PendingOf(rel: Release, db: Db): seq<File> {
    Missing(rel.files, LogOf(Prepared(rel, db)))
  }

  /** A run cut after `n` commits: the base schema, the bookkeeping table, then one migration each. */
  function CutRun(rel: Release, db: Db, n: nat): Db {
    if n == 0 then db
    else if n == 1 then if db.users then db else Bootstrapped(rel)
    else
      var pending := PendingOf(rel, db);
      AppliedAll(Prepared(rel, db), if n - 2 <= |pending| then pending[..n - 2] else pending)
  }

  function FullRun(rel: Release, db: Db): Db {
    AppliedAll(Prepared(rel, db), PendingOf(rel, db))
  }

  function CutRuns(rel: Release, db: Db, cuts: seq<nat>): Db {
    if cuts == [] then db else CutRun(rel, CutRuns(rel, db, cuts[..|cuts| - 1]), cuts[|cuts| - 1])
  }

  /** `--status` looks at the schema through the same code, so it creates the bookkeeping table. */
  function StatusRun(db: Db): Db {
    WithLog(db)
  }

  lemma {:induction false} AppliedAllEffect(db: Db, files: seq<File>)
    requires db.log.Some?
    ensures AppliedAll(db, files) ==
            db.(effects := db.effects + files, log := Some(db.log.value + SetOf(files)))
  {
    if files == [] {
      assert db.effects + files == db.effects;
      assert db.log.value + SetOf(files) == db.log.value;
    } else {
      var front, last := files[..|files| - 1], files[|files| - 1];
      AppliedAllEffect(db, front);
      assert files == front + [last];
      assert db.effects + files == (db.effects + front) + [last];
      assert SetOf(files) == SetOf(front) + {last};
      assert db.log.value + SetOf(files) == (db.log.value + SetOf(front)) + {last};
    }
  }

  lemma {:induction false} MissingExact(files: seq<File>, done: set<File>)
    ensures forall f :: f in Missing(files, done) <==> f in files && f !in done
    ensures Distinct(files) ==> Distinct(Missing(files, done))
  {
    if files == [] {
    } else {
      MissingExact(files[1..], done);
      assert files == [files[0]] + files[1..];
      assert Distinct(files) ==> Distinct(files[1..]) && files[0] !in files[1..];
    }
  }

  /** After the first `k` of the missing files, the rest are still missing, in the same order. */
  lemma {:induction false} MissingRest(files: seq<File>, done: set<File>, k: nat)
    requires Distinct(files) && k <= |Missing(files, done)|
    ensures Missing(files, done + SetOf(Missing(files, done)[..k])) == Missing(files, done)[k..]
  {
    var all := Missing(files, done);
    if files == [] {
    } else {
      var rest := files[1..];
      assert files == [files[0]] + rest;
      if files[0] in done {
        MissingRest(rest, done, k);
      } else if k == 0 {
        assert done + SetOf(all[..k]) == done;
      } else {
        MissingRest(rest, done, k - 1);
        var more := Missing(rest, done);
        assert all == [files[0]] + more && all[k..] == more[k - 1..];
        assert all[..k] == [files[0]] + more[..k - 1];
        assert done + SetOf(all[..k]) == (done + SetOf(more[..k - 1])) + {files[0]};
        MissingIgnores(rest, done + SetOf(more[..k - 1]), files[0]);
      }
    }
  }

  lemma {:induction false} MissingIgnores(files: seq<File>, done: set<File>, f: File)
    requires f !in files
    ensures Missing(files, done + {f}) == Missing(files, done)
  {
    if files == [] {
    } else {
      MissingIgnores(files[1..], done, f);
    }
  }

  /** Once prepared, a database needs no further preparation. */
  lemma PreparedIsStable(rel: Release, db: Db)
    requires db.users && db.log.Some?
    ensures Prepared(rel, db) == db && PendingOf(rel, db) == Missing(rel.files, db.log.value)
  {
  }

  /** A run after an interrupted one ends where an uninterrupted one would have. */
  lemma ResumedRun(rel: Release, db: Db, n: nat)
    requires GoodRelease(rel)
    ensures FullRun(rel, CutRun(rel, db, n)) == FullRun(rel, db)
  {
    hide AppliedAll, Missing, SetOf;
    if n >= 2 {
      var ready, pending := Prepared(rel, db), PendingOf(rel, db);
      var k := if n - 2 <= |pending| then n - 2 else |pending|;
      var cut := AppliedAll(ready, pending[..k]);
      assert pending[..|pending|] == pending;
      AppliedAllEffect(ready, pending[..k]);
      AppliedAllEffect(ready, pending);
      AppliedAllEffect(cut, pending[k..]);
      MissingRest(rel.files, ready.log.value, k);
      PreparedIsStable(rel, cut);
      assert pending == pending[..k] + pending[k..];
      SetOfConcat(pending[..k], pending[k..]);
      assert ready.effects + pending == (ready.effects + pending[..k]) + pending[k..];
      assert ready.log.value + SetOf(pending) == (ready.log.value + SetOf(pending[..k])) + SetOf(pending[k..]);
    }
  }

  lemma SetOfConcat(a: seq<File>, b: seq<File>)
    ensures SetOf(a + b) == SetOf(a) + SetOf(b)
  {
  }

  /** Any number of interrupted runs and then a complete one are the same as one complete run. */
  lemma {:induction false} InterruptionsDoNotMatter(rel: Release, db: Db, cuts: seq<nat>)
    requires GoodRelease(rel)
    ensures FullRun(rel, CutRuns(rel, db, cuts)) == FullRun(rel, db)
  {
    hide FullRun, CutRun;
    if cuts == [] {
    } else {
      InterruptionsDoNotMatter(rel, db, cuts[..|cuts| - 1]);
      ResumedRun(rel, CutRuns(rel, db, cuts[..|cuts| - 1]), cuts[|cuts| - 1]);
    }
  }

  /** A further run, complete or cut anywhere, changes nothing, and every file is now recorded. */
  lemma FurtherRunChangesNothing(rel: Release, db: Db, n: nat)
    requires GoodRelease(rel)
    ensures FullRun(rel, FullRun(rel, db)) == FullRun(rel, db)
    ensures CutRun(rel, FullRun(rel, db), n) == FullRun(rel, db)
    ensures SetOf(rel.files) <= LogOf(FullRun(rel, db))
  {
    hide AppliedAll, Missing;
    var ready, pending, done := Prepared(rel, db), PendingOf(rel, db), FullRun(rel, db);
    AppliedAllEffect(ready, pending);
    MissingExact(rel.files, ready.log.value);
    MissingExact(rel.files, done.log.value);
    PreparedIsStable(rel, done);
    if PendingOf(rel, done) != [] {
      SomeMember(PendingOf(rel, done));
    }
    AppliedNothing(done);
  }

  lemma SomeMember(s: seq<File>)
    requires s != []
    ensures exists f :: f in s
  {
    assert s[0] in s;
  }

  lemma AppliedNothing(db: Db)
    ensures AppliedAll(db, []) == db
  {
  }

  /** The status listing leaves the database alone exactly when the bookkeeping table exists. */
  lemma StatusIsReadOnlyExactlyWhen(db: Db)
    ensures StatusRun(db) == db <==> db.log.Some?
  {
  }

  // ---------------------------------------------------------------------------
  // Any number of runners
  // ---------------------------------------------------------------------------

  type RunnerId = int

  /** How far a runner has come, and what it has read. */
  datatype Stage = Looked(empty: bool) | Decided | Tabled | Working(pending: seq<File>)

  datatype Runner = Runner(status: bool, stage: Stage)

  datatype World = World(db: Db, runners: map<RunnerId, Runner>)

  datatype Event =
    | Look(id: RunnerId, status: bool)
    | Decide(id: RunnerId)
    | Table(id: RunnerId)
    | List(id: RunnerId)
    | Apply(id: RunnerId)
    | Die(id: RunnerId)
    | Register

  predicate At(w: World, id: RunnerId, stage: Stage) {
    id in w.runners && w.runners[id].stage == stage
  }

  function Moved(w: World, id: RunnerId, stage: Stage): map<RunnerId, Runner>
    requires id in w.runners
  {
    w.runners[id := w.runners[id].(stage := stage)]
  }

  function Step(rel: Release, w: World, e: Event): World {
    match e
    case Look(id, status) =>
      if id in w.runners then w
      else w.(runners := w.runners[id := Runner(status, Looked(!status && !w.db.users))])
    case Decide(id) =>
      if At(w, id, Looked(true)) then World(Bootstrapped(rel), Moved(w, id, Decided))
      else if At(w, id, Looked(false)) then w.(runners := Moved(w, id, Decided))
      else w
    case Table(id) =>
      if At(w, id, Decided) then World(WithLog(w.db), Moved(w, id, Tabled)) else w
    case List(id) =>
      if !At(w, id, Tabled) then w
      else if w.runners[id].status then w.(runners := w.runners - {id})
      else w.(runners := Moved(w, id, Working(Missing(rel.files, LogOf(w.db)))))
    case Apply(id) =>
      if !(id in w.runners && w.runners[id].stage.Working?) then w
      else
        var pending := w.runners[id].stage.pending;
        if pending == [] || pending[0] in LogOf(w.db) then w.(runners := w.runners - {id})
        else World(Applied(w.db, pending[0]), Moved(w, id, Working(pending[1..])))
    case Die(id) => w.(runners := w.runners - {id})
    case Register => if w.db.users then w.(db := w.db.(accounts := w.db.accounts + 1)) else w
  }

  function Exec(rel: Release, w: World, events: seq<Event>): World {
    if events == [] then w else Step(rel, Exec(rel, w, events[..|events| - 1]), events[|events| - 1])
  }

  /** What is recorded is exactly what is in the schema, each migration once. */
  ghost predicate Coherent(db: Db) {
    LogOf(db) == SetOf(db.effects) && Distinct(db.effects) && (!db.users ==> db.accounts == 0)
  }

  /** Runners that have been past the creation of the bookkeeping table. */
  ghost predicate TableThere(w: World) {
    forall id :: id in w.runners && (w.runners[id].stage.Tabled? || w.runners[id].stage.Working?) ==> w.db.log.Some?
  }

  lemma StepCoherent(rel: Release, w: World, e: Event)
    requires GoodRelease(rel) && Coherent(w.db) && TableThere(w)
    ensures Coherent(Step(rel, w, e).db) && TableThere(Step(rel, w, e))
  {
  }

  /**
   * However many runners interleave, and wherever each is cut, the recorded set equals the set of
   * migrations whose changes are committed.
   */
  lemma {:induction false} RecordedIsCommitted(rel: Release, db: Db, events: seq<Event>)
    requires GoodRelease(rel) && Coherent(db)
    ensures Coherent(Exec(rel, World(db, map[]), events).db)
    ensures TableThere(Exec(rel, World(db, map[]), events))
  {
    hide Coherent, TableThere, Step, GoodRelease;
    if events == [] {
      NoRunners(db);
    } else {
      RecordedIsCommitted(rel, db, events[..|events| - 1]);
      StepCoherent(rel, Exec(rel, World(db, map[]), events[..|events| - 1]), events[|events| - 1]);
    }
  }

  lemma NoRunners(db: Db)
    ensures TableThere(World(db, map[]))
  {
  }

  // ---------------------------------------------------------------------------
  // When the base schema is loaded
  // ---------------------------------------------------------------------------

  /** This event loads the base schema. */
  predicate Boots(w: World, e: Event) {
    e.Decide? && At(w, e.id, Looked(true))
  }

  /** ... over tables that exist. */
  predicate Destroys(w: World, e: Event) {
    Boots(w, e) && w.db.users
  }

  /** A runner starts only when no other is at work. */
  ghost predicate Serial(rel: Release, w: World, events: seq<Event>) {
    events == [] ||
    (Serial(rel, w, events[..|events| - 1]) &&
     (events[|events| - 1].Look? ==> Exec(rel, w, events[..|events| - 1]).runners == map[]))
  }

  /** At most one runner, and one that found the database empty is still right about it. */
  ghost predicate Alone(w: World) {
    (forall id, id' :: id in w.runners && id' in w.runners ==> id == id') &&
    forall id :: At(w, id, Looked(true)) ==> !w.db.users
  }

  lemma StepAlone(rel: Release, w: World, e: Event)
    requires Alone(w) && (e.Look? ==> w.runners == map[])
    ensures Alone(Step(rel, w, e))
    ensures !Destroys(w, e)
  {
    hide Missing;
    var w' := Step(rel, w, e);
    forall id, id' | id in w'.runners && id' in w'.runners ensures id == id' {
      assert !e.Look? ==> id in w.runners && id' in w.runners;
    }
    forall id | At(w', id, Looked(true)) ensures !w'.db.users {
      assert At(w, id, Looked(true)) || e == Look(id, false);
    }
  }

  lemma {:induction false} SerialIsAlone(rel: Release, db: Db, events: seq<Event>)
    requires Serial(rel, World(db, map[]), events)
    ensures Alone(Exec(rel, World(db, map[]), events))
  {
    hide Step, Alone;
    if events == [] {
      NobodyAlone(db);
    } else {
      SerialIsAlone(rel, db, events[..|events| - 1]);
      StepAlone(rel, Exec(rel, World(db, map[]), events[..|events| - 1]), events[|events| - 1]);
    }
  }

  lemma NobodyAlone(db: Db)
    ensures Alone(World(db, map[]))
  {
  }

  /** One runner at a time: the base schema is never loaded once the users table exists, so no account is lost. */
  lemma SerialNeverDestroys(rel: Release, db: Db, events: seq<Event>, e: Event)
    requires GoodRelease(rel) && Coherent(db) && Serial(rel, World(db, map[]), events)
    requires e.Look? ==> Exec(rel, World(db, map[]), events).runners == map[]
    ensures var w := Exec(rel, World(db, map[]), events);
            !Destroys(w, e) && w.db.accounts <= Step(rel, w, e).db.accounts &&
            (w.db.users ==> Step(rel, w, e).db.users)
  {
    hide Exec, Missing;
    SerialIsAlone(rel, db, events);
    RecordedIsCommitted(rel, db, events);
    StepAlone(rel, Exec(rel, World(db, map[]), events), e);
  }

  /** Between runner `id` looking and now, another runner loaded the base schema. */
  ghost predicate Raced(rel: Release, db: Db, events: seq<Event>, id: RunnerId, c: nat, j: nat) {
    c < j < |events| && events[c] == Look(id, false) && events[j].Decide? && events[j].id != id &&
    Boots(Exec(rel, World(db, map[]), events[..j]), events[j])
  }

  ghost predicate IsRaced(rel: Release, db: Db, events: seq<Event>, id: RunnerId) {
    exists c: nat, j: nat :: Raced(rel, db, events, id, c, j)
  }

  ghost predicate HasLooked(events: seq<Event>, id: RunnerId) {
    exists c :: 0 <= c < |events| && events[c] == Look(id, false)
  }

  lemma RacedGrows(rel: Release, db: Db, events: seq<Event>, e: Event, id: RunnerId)
    ensures IsRaced(rel, db, events, id) ==> IsRaced(rel, db, events + [e], id)
    ensures HasLooked(events, id) ==> HasLooked(events + [e], id)
    ensures e == Look(id, false) ==> HasLooked(events + [e], id)
    ensures HasLooked(events, id) && e.Decide? && e.id != id && Boots(Exec(rel, World(db, map[]), events), e) ==>
              IsRaced(rel, db, events + [e], id)
  {
    hide Exec, Boots;
    var more := events + [e];
    assert forall i :: 0 <= i < |events| ==> more[i] == events[i] && more[..i] == events[..i];
    assert more[|events|] == e && more[..|events|] == events;
    if IsRaced(rel, db, events, id) {
      var c: nat, j: nat :| Raced(rel, db, events, id, c, j);
      assert Raced(rel, db, more, id, c, j);
    }
    if HasLooked(events, id) && e.Decide? && e.id != id && Boots(Exec(rel, World(db, map[]), events), e) {
      var c: nat :| c < |events| && events[c] == Look(id, false);
      assert more[c] == Look(id, false);
      assert Raced(rel, db, more, id, c, |events|);
    }
  }

  /** A runner has just found the database empty, or had, and only a bootstrap proves it wrong. */
  lemma LookedStep(rel: Release, w: World, e: Event, id: RunnerId)
    requires At(Step(rel, w, e), id, Looked(true))
    ensures At(w, id, Looked(true)) || (e == Look(id, false) && !Step(rel, w, e).db.users)
    ensures !w.db.users && Step(rel, w, e).db.users ==> e.Decide? && e.id != id && Boots(w, e)
  {
    hide Missing;
  }

  /** A runner that looked and found nothing was right when it looked. */
  lemma {:induction false} WrongOnlyWhenRaced(rel: Release, db: Db, events: seq<Event>, id: RunnerId)
    requires At(Exec(rel, World(db, map[]), events), id, Looked(true))
    ensures HasLooked(events, id)
    ensures Exec(rel, World(db, map[]), events).db.users ==> IsRaced(rel, db, events, id)
  {
    hide Step, HasLooked, IsRaced, Boots;
    if events == [] {
    } else {
      var front, last := events[..|events| - 1], events[|events| - 1];
      var w := Exec(rel, World(db, map[]), front);
      assert events == front + [last];
      RacedGrows(rel, db, front, last, id);
      LookedStep(rel, w, last, id);
      if At(w, id, Looked(true)) {
        WrongOnlyWhenRaced(rel, db, front, id);
      }
    }
  }

  /** The users table never disappears. */
  lemma {:induction false} UsersStay(rel: Release, w: World, events: seq<Event>, n: nat)
    requires n <= |events| && Exec(rel, w, events[..n]).db.users
    ensures Exec(rel, w, events).db.users
  {
    if n == |events| {
      assert events[..n] == events;
    } else {
      hide Missing;
      var front := events[..|events| - 1];
      assert front[..n] == events[..n];
      UsersStay(rel, w, front, n);
    }
  }

  lemma RacedHasUsers(rel: Release, db: Db, events: seq<Event>, id: RunnerId)
    requires IsRaced(rel, db, events, id)
    ensures Exec(rel, World(db, map[]), events).db.users
  {
    hide Missing;
    var c: nat, j: nat :| Raced(rel, db, events, id, c, j);
    assert events[..j + 1][..j] == events[..j];
    UsersStay(rel, World(db, map[]), events, j + 1);
  }

  /**
   * A runner that is about to load the base schema destroys existing tables exactly when another
   * runner loaded it since this one looked.
   */
  lemma DestroysExactlyWhenRaced(rel: Release, db: Db, events: seq<Event>, e: Event)
    ensures Destroys(Exec(rel, World(db, map[]), events), e) <==>
            Boots(Exec(rel, World(db, map[]), events), e) && IsRaced(rel, db, events, e.id)
  {
    hide Exec, IsRaced, HasLooked;
    if Boots(Exec(rel, World(db, map[]), events), e) {
      if IsRaced(rel, db, events, e.id) {
        RacedHasUsers(rel, db, events, e.id);
      }
      WrongOnlyWhenRaced(rel, db, events, e.id);
    }
  }

  /** Two runners on an empty database: the second wipes the account made after the first. */
  lemma TwoRunnersCanDestroy(rel: Release)
    ensures var events := [Look(1, false), Look(2, false), Decide(1), Register];
            var w := Exec(rel, World(Db(false, 0, [], None), map[]), events);
            Destroys(w, Decide(2)) && w.db.accounts == 1 && Step(rel, w, Decide(2)).db.accounts == 0
  {
    var start := World(Db(false, 0, [], None), map[]);
    var a, b, c, d := Look(1, false), Look(2, false), Decide(1), Register;
    assert [a, b, c, d][..3] == [a, b, c] && [a, b, c][..2] == [a, b] && [a, b][..1] == [a] && [a][..0] == [];
    assert Exec(rel, start, [a]) == Step(rel, start, a);
    assert Exec(rel, start, [a, b]) == Step(rel, Step(rel, start, a), b);
    assert At(Exec(rel, start, [a, b]), 1, Looked(true)) && At(Exec(rel, start, [a, b]), 2, Looked(true));
  }

  // ---------------------------------------------------------------------------
  // The runner itself
  // ---------------------------------------------------------------------------

  /** The steps of a runner that has applied `k` migrations. */
  function Script(id: RunnerId, k: nat): seq<Event> {
    if k == 0 then [Look(id, false), Decide(id), Table(id), List(id)] else Script(id, k - 1) + [Apply(id)]
  }

  lemma ExecSnoc(rel: Release, w: World, events: seq<Event>, e: Event)
    ensures Exec(rel, w, events + [e]) == Step(rel, Exec(rel, w, events), e)
    ensures Exec(rel, w, []) == w
  {
  }

  lemma ScriptStart(rel: Release, db: Db, id: RunnerId)
    ensures var w := Exec(rel, World(db, map[]), Script(id, 0));
            w.db == Prepared(rel, db) && At(w, id, Working(PendingOf(rel, db)))
  {
    hide Missing, Exec;
    var start := World(db, map[]);
    var a, b, c, d := Look(id, false), Decide(id), Table(id), List(id);
    assert [] + [a] == [a] && [a] + [b] == [a, b] && [a, b] + [c] == [a, b, c] && [a, b, c] + [d] == [a, b, c, d];
    ExecSnoc(rel, start, [], a);
    ExecSnoc(rel, start, [a], b);
    ExecSnoc(rel, start, [a, b], c);
    ExecSnoc(rel, start, [a, b, c], d);
  }

  lemma CutRunStep(rel: Release, db: Db, k: nat)
    requires k < |PendingOf(rel, db)|
    ensures CutRun(rel, db, k + 3) == Applied(CutRun(rel, db, k + 2), PendingOf(rel, db)[k])
  {
    hide Prepared, PendingOf, Applied;
    var pending := PendingOf(rel, db);
    assert pending[..k + 1][..k] == pending[..k];
  }

  lemma ApplyStep(rel: Release, w: World, id: RunnerId, pending: seq<File>)
    requires At(w, id, Working(pending)) && pending != [] && pending[0] !in LogOf(w.db)
    ensures var w' := Step(rel, w, Apply(id));
            w'.db == Applied(w.db, pending[0]) && At(w', id, Working(pending[1..]))
  {
  }

  /** A runner on its own goes through exactly the states a run can be cut in. */
  lemma {:induction false} RunnerIsCutRun(rel: Release, db: Db, id: RunnerId, k: nat)
    requires GoodRelease(rel) && k <= |PendingOf(rel, db)|
    ensures var w := Exec(rel, World(db, map[]), Script(id, k));
            w.db == CutRun(rel, db, k + 2) && At(w, id, Working(PendingOf(rel, db)[k..]))
  {
    hide Exec, CutRun, PendingOf, GoodRelease, Step, Applied;
    var pending := PendingOf(rel, db);
    if k == 0 {
      ScriptStart(rel, db, id);
      CutAtStart(rel, db);
      assert pending[0..] == pending;
    } else {
      RunnerIsCutRun(rel, db, id, k - 1);
      var w := Exec(rel, World(db, map[]), Script(id, k - 1));
      assert pending[k - 1..][0] == pending[k - 1] && pending[k - 1..][1..] == pending[k..];
      PendingNotRecorded(rel, db, k - 1);
      ApplyStep(rel, w, id, pending[k - 1..]);
      ExecSnoc(rel, World(db, map[]), Script(id, k - 1), Apply(id));
      CutRunStep(rel, db, k - 1);
    }
  }

  lemma CutAtStart(rel: Release, db: Db)
    ensures CutRun(rel, db, 2) == Prepared(rel, db)
  {
  }

  lemma PendingNotRecorded(rel: Release, db: Db, k: nat)
    requires GoodRelease(rel) && k < |PendingOf(rel, db)|
    ensures PendingOf(rel, db)[k] !in LogOf(CutRun(rel, db, k + 2))
  {
    hide AppliedAll, Missing, Distinct;
    var pending := PendingOf(rel, db);
    AppliedAllEffect(Prepared(rel, db), pending[..k]);
    MissingExact(rel.files, LogOf(Prepared(rel, db)));
    assert pending[k] in pending;
    NotEarlier(pending, k);
  }

  lemma NotEarlier(s: seq<File>, k: nat)
    requires Distinct(s) && k < |s|
    ensures s[k] !in SetOf(s[..k])
  {
  }

  class Database {
    var db: Db

    constructor (initial: Db)
      ensures db == initial
    {
      db := initial;
    }

    /** Runs until finished, or until killed after `budget` commits. */
    method Run(rel: Release, dryRun: bool, budget: nat) returns (finished: bool)
      modifies this
      ensures !dryRun ==> db == CutRun(rel, old(db), budget)
      ensures !dryRun && finished ==> db == FullRun(rel, old(db))
      ensures dryRun ==> db == old(db) || db == StatusRun(old(db))
      ensures dryRun && finished ==> db == StatusRun(old(db))
      ensures budget >= 2 + |PendingOf(rel, old(db))| ==> finished
    {
      if budget == 0 {
        return false;
      }
      if !dryRun && !db.users {
        db := Bootstrapped(rel);
      }
      if budget == 1 {
        return false;
      }
      if db.log.None? {
        db := db.(log := Some({}));
      }
      ghost var ready := db;
      var done := db.log.value;
      var pending := Missing(rel.files, done);
      if dryRun {
        return true;
      }
      for i := 0 to |pending|
        invariant db == AppliedAll(ready, pending[..i]) && i <= budget - 2
      {
        if i == budget - 2 {
          return false;
        }
        assert pending[..i + 1][..i] == pending[..i];
        db := db.(effects := db.effects + [pending[i]], log := Some(LogOf(db) + {pending[i]}));
      }
      assert pending[..|pending|] == pending;
      return true;
    }
  }
}
