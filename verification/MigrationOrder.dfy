/** In which order migrations are applied: by one runner, cut anywhere, and by several at once. */
module MigrationOrder {
  import opened Lists
  import opened Options
  import opened Migrations

  // ---------------------------------------------------------------------------
  // One runner
  // ---------------------------------------------------------------------------

  /** Leaving out the recorded files keeps the others in the order in which they ship. */
  lemma {:induction false} MissingKeepsOrder(files: seq<File>, done: set<File>, f: File, g: File)
    ensures Precedes(Missing(files, done), f, g) <==> Precedes(files, f, g) && f !in done && g !in done
  {
    hide Precedes;
    MissingMembers(files, done, f);
    MissingMembers(files, done, g);
    if files == [] {
      NothingPrecedes(f, g);
    } else {
      var rest := files[1..];
      assert files == [files[0]] + rest;
      MissingKeepsOrder(rest, done, f, g);
      MissingMembers(rest, done, g);
      PrecedesCons(files[0], rest, f, g);
      PrecedesCons(files[0], Missing(rest, done), f, g);
    }
  }

  lemma MissingMembers(files: seq<File>, done: set<File>, f: File)
    ensures f in Missing(files, done) <==> f in files && f !in done
  {
    MissingExact(files, done);
  }

  /**
   * A complete run applies, after what was there, exactly the files not recorded: each once, and in
   * the order in which they ship.
   */
  lemma FullRunInOrder(rel: Release, db: Db)
    requires GoodRelease(rel)
    ensures var ready, after := Prepared(rel, db), FullRun(rel, db);
            ready.effects <= after.effects &&
            var applied := after.effects[|ready.effects|..];
            Distinct(applied) &&
            (forall f :: f in applied <==> f in rel.files && f !in LogOf(ready)) &&
            forall f, g :: Precedes(applied, f, g) <==> Precedes(rel.files, f, g) && f in applied && g in applied
  {
    hide AppliedAll, Missing, Precedes, Distinct;
    var ready, pending := Prepared(rel, db), PendingOf(rel, db);
    AppliedAllEffect(ready, pending);
    MissingExact(rel.files, LogOf(ready));
    assert (ready.effects + pending)[|ready.effects|..] == pending;
    forall f, g
      ensures Precedes(pending, f, g) <==> Precedes(rel.files, f, g) && f in pending && g in pending
    {
      MissingKeepsOrder(rel.files, LogOf(ready), f, g);
      if Precedes(pending, f, g) {
        PrecedesMembers(pending, f, g);
      } else if Precedes(rel.files, f, g) {
        PrecedesMembers(rel.files, f, g);
      }
    }
  }

  /**
   * On an empty database a run loads the base schema and then applies what that does not record; if it
   * records every file, nothing: the fresh install is complete at once.
   */
  lemma FreshInstall(rel: Release, db: Db)
    requires GoodRelease(rel) && !db.users
    ensures var after := FullRun(rel, db);
            after.users && rel.seeded <= after.effects && LogOf(after) == SetOf(rel.seeded) + SetOf(rel.files) &&
            (SetOf(rel.files) <= SetOf(rel.seeded) ==> after.effects == rel.seeded)
  {
    hide AppliedAll, Missing, Distinct;
    var ready, pending := Prepared(rel, db), PendingOf(rel, db);
    AppliedAllEffect(ready, pending);
    MissingExact(rel.files, LogOf(ready));
    assert SetOf(rel.seeded) + SetOf(pending) == SetOf(rel.seeded) + SetOf(rel.files);
    if SetOf(rel.files) <= SetOf(rel.seeded) && pending != [] {
      SomeMember(pending);
    }
    assert pending == [] ==> ready.effects + pending == ready.effects;
  }

  /** On a database in use nothing but the missing files is added: no table is dropped, no account lost. */
  lemma UpgradeKeepsAccounts(rel: Release, db: Db, n: nat)
    requires GoodRelease(rel) && db.users
    ensures var cut := CutRun(rel, db, n);
            cut.users && cut.accounts == db.accounts && db.effects <= cut.effects
  {
    hide AppliedAll, Missing;
    var ready, pending := Prepared(rel, db), PendingOf(rel, db);
    if n >= 2 {
      AppliedAllEffect(ready, if n - 2 <= |pending| then pending[..n - 2] else pending);
    }
  }

  lemma TakenInOrder(list: seq<File>, k: nat, f: File, g: File)
    requires Distinct(list) && k <= |list| && Precedes(list, f, g) && g in list[..k]
    ensures f in list[..k]
  {
    var i, j :| 0 <= i < j < |list| && list[i] == f && list[j] == g;
    var n :| 0 <= n < k && list[..k][n] == g;
    assert list[n] == g;
    assert n == j;
    assert list[..k][i] == f;
  }

  /** Wherever a run is cut, no file is recorded by it while one that ships before it is not. */
  lemma CutRunInOrder(rel: Release, db: Db, n: nat, f: File, g: File)
    requires GoodRelease(rel) && Precedes(rel.files, f, g)
    ensures n >= 2 && g in LogOf(CutRun(rel, db, n)) && g !in LogOf(Prepared(rel, db)) ==>
              f in LogOf(CutRun(rel, db, n))
  {
    hide AppliedAll, Missing, Precedes, Distinct;
    if n >= 2 {
      var ready, pending := Prepared(rel, db), PendingOf(rel, db);
      var k := if n - 2 <= |pending| then n - 2 else |pending|;
      assert pending[..|pending|] == pending;
      AppliedAllEffect(ready, pending[..k]);
      MissingExact(rel.files, LogOf(ready));
      if g in pending[..k] && f !in LogOf(ready) {
        MissingKeepsOrder(rel.files, LogOf(ready), f, g);
        TakenInOrder(pending, k, f, g);
      }
    }
  }

  // ---------------------------------------------------------------------------
  // Several runners
  // ---------------------------------------------------------------------------

  predicate IsWorking(w: World, id: RunnerId) {
    id in w.runners && w.runners[id].stage.Working?
  }

  /** The migration this event commits, if any. */
  function CommittedBy(w: World, e: Event): Option<File> {
    if e.Apply? && IsWorking(w, e.id) then
      var pending := w.runners[e.id].stage.pending;
      if pending != [] && pending[0] !in LogOf(w.db) then Some(pending[0]) else None
    else None
  }

  /** The world once `k` of the events have happened. */
  function After(rel: Release, db: Db, events: seq<Event>, k: nat): World
    requires k <= |events|
  {
    Exec(rel, World(db, map[]), events[..k])
  }

  /**
   * At event `j` the base schema was loaded, without `f`, under a runner that had listed its pending
   * files; it has been at them since, and nobody has applied `f` since.
   */
  ghost predicate LostAt(rel: Release, db: Db, events: seq<Event>, id: RunnerId, f: File, j: nat) {
    j < |events| && Boots(After(rel, db, events, j), events[j]) && f !in rel.seeded &&
    (forall k :: j <= k <= |events| ==> IsWorking(After(rel, db, events, k), id)) &&
    (forall k :: j < k < |events| ==> CommittedBy(After(rel, db, events, k), events[k]) != Some(f))
  }

  ghost predicate IsLost(rel: Release, db: Db, events: seq<Event>, id: RunnerId, f: File) {
    exists j: nat :: LostAt(rel, db, events, id, f, j)
  }

  lemma AfterFront(rel: Release, db: Db, events: seq<Event>, e: Event, k: nat)
    requires k <= |events|
    ensures After(rel, db, events + [e], k) == After(rel, db, events, k)
    ensures After(rel, db, events, |events|) == Exec(rel, World(db, map[]), events)
    ensures After(rel, db, events + [e], |events| + 1) == Step(rel, Exec(rel, World(db, map[]), events), e)
  {
    assert (events + [e])[..k] == events[..k];
    assert events[..|events|] == events;
    assert (events + [e])[..|events| + 1] == events + [e];
    ExecSnoc(rel, World(db, map[]), events, e);
  }

  /** Being lost lasts until the runner stops or somebody applies the file. */
  lemma LostStays(rel: Release, db: Db, events: seq<Event>, e: Event, id: RunnerId, f: File)
    requires IsLost(rel, db, events, id, f)
    ensures var w := Exec(rel, World(db, map[]), events);
            IsWorking(Step(rel, w, e), id) && CommittedBy(w, e) != Some(f) ==> IsLost(rel, db, events + [e], id, f)
  {
    hide Exec, Step, CommittedBy, Boots, After, IsWorking;
    var w, more := Exec(rel, World(db, map[]), events), events + [e];
    if IsWorking(Step(rel, w, e), id) && CommittedBy(w, e) != Some(f) {
      var j: nat :| LostAt(rel, db, events, id, f, j);
      forall k | 0 <= k <= |events|
        ensures After(rel, db, more, k) == After(rel, db, events, k)
        ensures After(rel, db, events, |events|) == w && After(rel, db, more, |events| + 1) == Step(rel, w, e)
      {
        AfterFront(rel, db, events, e, k);
      }
      assert LostAt(rel, db, more, id, f, j);
    }
  }

  /** A base schema loaded under a working runner loses every file it does not hold. */
  lemma BootLoses(rel: Release, db: Db, events: seq<Event>, e: Event, id: RunnerId, f: File)
    requires var w := Exec(rel, World(db, map[]), events);
             Boots(w, e) && IsWorking(w, id) && IsWorking(Step(rel, w, e), id) && f !in rel.seeded
    ensures IsLost(rel, db, events + [e], id, f)
  {
    hide Exec, Step, CommittedBy, Boots, IsWorking;
    AfterFront(rel, db, events, e, |events|);
    assert LostAt(rel, db, events + [e], id, f, |events|);
  }

  /** A file lost is a file not recorded. */
  lemma {:induction false} LostIsUnrecorded(
    rel: Release, db: Db, events: seq<Event>, id: RunnerId, f: File, j: nat, n: nat)
    requires LostAt(rel, db, events, id, f, j) && j < n <= |events|
    ensures f !in LogOf(After(rel, db, events, n).db)
    decreases n
  {
    hide Exec, Missing;
    assert events[..n][..n - 1] == events[..n - 1];
    ExecSnoc(rel, World(db, map[]), events[..n - 1], events[n - 1]);
    assert events[..n] == events[..n - 1] + [events[n - 1]];
    var w := After(rel, db, events, n - 1);
    if n - 1 == j {
      assert Step(rel, w, events[j]).db == Bootstrapped(rel);
    } else {
      LostIsUnrecorded(rel, db, events, id, f, j, n - 1);
      StepRecords(rel, w, events[n - 1], f);
    }
  }

  /** What is recorded after a step was recorded before, or is committed or seeded by it. */
  lemma StepRecords(rel: Release, w: World, e: Event, f: File)
    ensures f in LogOf(Step(rel, w, e).db) ==>
              f in LogOf(w.db) || CommittedBy(w, e) == Some(f) || (Boots(w, e) && f in rel.seeded)
    ensures CommittedBy(w, e) == Some(f) ==> f in LogOf(Step(rel, w, e).db)
    ensures f in LogOf(w.db) ==> f in LogOf(Step(rel, w, e).db) || (Boots(w, e) && f !in rel.seeded)
    ensures Boots(w, e) && f in rel.seeded ==> f in LogOf(Step(rel, w, e).db)
  {
    hide Missing;
  }

  /** A runner's pending files hold no repeat. */
  ghost predicate PendingDistinct(w: World) {
    forall id :: IsWorking(w, id) ==> Distinct(w.runners[id].stage.pending)
  }

  lemma StepPendingDistinct(rel: Release, w: World, e: Event)
    requires GoodRelease(rel) && PendingDistinct(w)
    ensures PendingDistinct(Step(rel, w, e))
  {
    hide Missing;
    MissingExact(rel.files, LogOf(w.db));
  }

  lemma {:induction false} RunPendingDistinct(rel: Release, db: Db, events: seq<Event>)
    requires GoodRelease(rel)
    ensures PendingDistinct(Exec(rel, World(db, map[]), events))
  {
    hide PendingDistinct, Step, GoodRelease;
    if events == [] {
      NobodyPending(db);
    } else {
      RunPendingDistinct(rel, db, events[..|events| - 1]);
      StepPendingDistinct(rel, Exec(rel, World(db, map[]), events[..|events| - 1]), events[|events| - 1]);
    }
  }

  lemma NobodyPending(db: Db)
    ensures PendingDistinct(World(db, map[]))
  {
  }

  /** How a runner came to have `g` ahead of it: it has just listed its files, or had it ahead before. */
  lemma WorkingStep(rel: Release, w: World, e: Event, id: RunnerId, f: File, g: File)
    requires IsWorking(Step(rel, w, e), id) && g in Step(rel, w, e).runners[id].stage.pending
    ensures var pending' := Step(rel, w, e).runners[id].stage.pending;
            if IsWorking(w, id) then
              var pending := w.runners[id].stage.pending;
              g in pending &&
              (Precedes(pending, f, g) ==> Precedes(pending', f, g) || CommittedBy(w, e) == Some(f))
            else pending' == Missing(rel.files, LogOf(w.db)) && Step(rel, w, e).db == w.db
  {
    hide Missing, Precedes;
    if IsWorking(w, id) {
      var pending := w.runners[id].stage.pending;
      if e == Apply(id) {
        assert pending == [pending[0]] + pending[1..];
        PrecedesCons(pending[0], pending[1..], f, g);
      }
    }
  }

  /**
   * What ships before a file that a runner still has to apply is ahead of it in the runner's own list,
   * or recorded, or lost.
   */
  lemma {:induction false} QueuesInOrder(rel: Release, db: Db, events: seq<Event>, id: RunnerId, f: File, g: File)
    requires GoodRelease(rel) && Precedes(rel.files, f, g)
    requires IsWorking(Exec(rel, World(db, map[]), events), id)
    requires g in Exec(rel, World(db, map[]), events).runners[id].stage.pending
    ensures var w := Exec(rel, World(db, map[]), events);
            Precedes(w.runners[id].stage.pending, f, g) || f in LogOf(w.db) || IsLost(rel, db, events, id, f)
  {
    hide Step, Precedes, IsLost, Boots, CommittedBy, GoodRelease;
    if events == [] {
    } else {
      var front, e := events[..|events| - 1], events[|events| - 1];
      assert events == front + [e];
      var w := Exec(rel, World(db, map[]), front);
      WorkingStep(rel, w, e, id, f, g);
      StepRecords(rel, w, e, f);
      if IsWorking(w, id) {
        QueuesInOrder(rel, db, front, id, f, g);
        if IsLost(rel, db, front, id, f) {
          LostStays(rel, db, front, e, id, f);
        }
        if Boots(w, e) && f !in rel.seeded {
          BootLoses(rel, db, front, e, id, f);
        }
      } else {
        MissingKeepsOrder(rel.files, LogOf(w.db), f, g);
        MissingMembers(rel.files, LogOf(w.db), g);
      }
    }
  }

  /**
   * Whoever applies a migration finds everything that ships before it recorded, except what a base
   * schema without it, loaded under that runner, has lost.
   */
  lemma OutOfOrderExactlyWhenLost(rel: Release, db: Db, events: seq<Event>, e: Event, f: File, g: File)
    requires GoodRelease(rel) && Precedes(rel.files, f, g)
    requires CommittedBy(Exec(rel, World(db, map[]), events), e) == Some(g)
    ensures f !in LogOf(Exec(rel, World(db, map[]), events).db) <==> IsLost(rel, db, events, e.id, f)
  {
    hide Exec, Step, Boots, IsLost, Precedes;
    var w := Exec(rel, World(db, map[]), events);
    QueuesInOrder(rel, db, events, e.id, f, g);
    RunPendingDistinct(rel, db, events);
    NothingAhead(w.runners[e.id].stage.pending, f, g);
    if IsLost(rel, db, events, e.id, f) {
      LostNow(rel, db, events, e.id, f);
    }
  }

  lemma NothingAhead(pending: seq<File>, f: File, g: File)
    requires Distinct(pending) && pending != [] && pending[0] == g
    ensures !Precedes(pending, f, g)
  {
  }

  lemma LostNow(rel: Release, db: Db, events: seq<Event>, id: RunnerId, f: File)
    requires IsLost(rel, db, events, id, f)
    ensures f !in LogOf(Exec(rel, World(db, map[]), events).db)
  {
    hide Exec;
    var j: nat :| LostAt(rel, db, events, id, f, j);
    LostIsUnrecorded(rel, db, events, id, f, j, |events|);
    assert events[..|events|] == events;
  }

  // ---------------------------------------------------------------------------
  // When nothing can be lost
  // ---------------------------------------------------------------------------

  lemma {:induction false} NobodyFindsItEmpty(rel: Release, db: Db, events: seq<Event>, id: RunnerId)
    requires db.users
    ensures !At(Exec(rel, World(db, map[]), events), id, Looked(true))
    ensures Exec(rel, World(db, map[]), events).db.users
  {
    hide Missing;
    if events == [] {
    } else {
      var front := events[..|events| - 1];
      NobodyFindsItEmpty(rel, db, front, id);
      if events[|events| - 1].Decide? {
        NobodyFindsItEmpty(rel, db, front, events[|events| - 1].id);
      }
    }
  }

  lemma {:induction false} SerialFront(rel: Release, w: World, events: seq<Event>, k: nat)
    requires Serial(rel, w, events) && k <= |events|
    ensures Serial(rel, w, events[..k])
  {
    if k == |events| {
      assert events[..k] == events;
    } else {
      SerialFront(rel, w, events[..|events| - 1], k);
      assert events[..|events| - 1][..k] == events[..k];
    }
  }

  lemma AloneLoadsNothing(w: World, e: Event, id: RunnerId)
    requires Alone(w) && IsWorking(w, id)
    ensures !Boots(w, e)
  {
  }

  /**
   * Migrations are applied in the order in which they ship by however many runners, if the base schema
   * records every file, as the shipped one does; or if the database has its tables when they start; or
   * if they run one at a time.
   */
  lemma AppliedInOrder(rel: Release, db: Db, events: seq<Event>, e: Event, f: File, g: File)
    requires GoodRelease(rel) && Precedes(rel.files, f, g)
    requires CommittedBy(Exec(rel, World(db, map[]), events), e) == Some(g)
    requires f in rel.seeded || db.users || Serial(rel, World(db, map[]), events)
    ensures f in LogOf(Exec(rel, World(db, map[]), events).db)
  {
    hide Exec, Step, Precedes;
    OutOfOrderExactlyWhenLost(rel, db, events, e, f, g);
    if IsLost(rel, db, events, e.id, f) {
      var j: nat :| LostAt(rel, db, events, e.id, f, j);
      if db.users {
        NobodyFindsItEmpty(rel, db, events[..j], events[j].id);
      }
      if Serial(rel, World(db, map[]), events) {
        SerialFront(rel, World(db, map[]), events, j);
        SerialIsAlone(rel, db, events[..j]);
        AloneLoadsNothing(After(rel, db, events, j), events[j], e.id);
      }
      assert false;
    }
  }

  /** Both look before either acts, and the first creates the schema. */
  lemma FirstCreates(start: World, rel: Release)
    requires start == World(Db(false, 0, [], None), map[]) && rel.seeded == []
    ensures var looked := Runner(false, Looked(true));
            Exec(rel, start, [Look(1, false), Look(2, false), Decide(1)]) ==
            World(Db(true, 0, [], Some({})), map[1 := Runner(false, Decided), 2 := looked])
  {
    var a, b, c := Look(1, false), Look(2, false), Decide(1);
    assert [] + [a] == [a] && [a] + [b] == [a, b] && [a, b] + [c] == [a, b, c];
    hide Exec;
    ExecSnoc(rel, start, [], a);
    ExecSnoc(rel, start, [a], b);
    ExecSnoc(rel, start, [a, b], c);
    var looked := Runner(false, Looked(true));
    assert Exec(rel, start, [a]) == World(start.db, map[1 := looked]);
    assert Exec(rel, start, [a, b]) == World(start.db, map[1 := looked, 2 := looked]);
    BothMissing();
  }

  /** Then it lists two files and applies the first. */
  lemma FirstApplies(rel: Release, w: World)
    requires rel == Release(["002", "003"], [])
    requires w == World(Db(true, 0, [], Some({})), map[1 := Runner(false, Decided), 2 := Runner(false, Looked(true))])
    ensures Step(rel, Step(rel, Step(rel, w, Table(1)), List(1)), Apply(1)) ==
            World(Db(true, 0, ["002"], Some({"002"})),
                  map[1 := Runner(false, Working(["003"])), 2 := Runner(false, Looked(true))])
  {
    hide Missing;
    BothMissing();
    var looked := Runner(false, Looked(true));
    assert Step(rel, w, Table(1)) == World(w.db, map[1 := Runner(false, Tabled), 2 := looked]);
    var listed := Step(rel, Step(rel, w, Table(1)), List(1));
    assert listed == World(w.db, map[1 := Runner(false, Working(["002", "003"])), 2 := looked]);
    assert ["002", "003"][1..] == ["003"];
    var after := Step(rel, listed, Apply(1));
    assert w.db.effects + ["002"] == ["002"] && LogOf(w.db) + {"002"} == {"002"};
    assert after.db == Applied(w.db, "002");
    assert after.runners == map[1 := Runner(false, Working(["003"])), 2 := looked];
  }

  lemma FirstOfTwo(start: World, rel: Release)
    requires start == World(Db(false, 0, [], None), map[]) && rel == Release(["002", "003"], [])
    ensures var events := [Look(1, false), Look(2, false), Decide(1), Table(1), List(1), Apply(1)];
            Exec(rel, start, events) ==
            World(Db(true, 0, ["002"], Some({"002"})),
                  map[1 := Runner(false, Working(["003"])), 2 := Runner(false, Looked(true))])
  {
    var front, d, l, m := [Look(1, false), Look(2, false), Decide(1)], Table(1), List(1), Apply(1);
    assert front + [d] + [l] + [m] == [Look(1, false), Look(2, false), Decide(1), Table(1), List(1), Apply(1)];
    hide Exec, Step;
    FirstCreates(start, rel);
    ExecSnoc(rel, start, front, d);
    ExecSnoc(rel, start, front + [d], l);
    ExecSnoc(rel, start, front + [d] + [l], m);
    FirstApplies(rel, Exec(rel, start, front));
  }

  /** Otherwise it can happen: 003 is applied to a database from which 002 has gone. */
  lemma TwoRunnersCanSkip()
    ensures var rel := Release(["002", "003"], []);
            var events := [Look(1, false), Look(2, false), Decide(1), Table(1), List(1), Apply(1), Decide(2)];
            var w := Exec(rel, World(Db(false, 0, [], None), map[]), events);
            GoodRelease(rel) && CommittedBy(w, Apply(1)) == Some("003") && "002" !in LogOf(w.db)
  {
    var rel := Release(["002", "003"], []);
    var start := World(Db(false, 0, [], None), map[]);
    var front := [Look(1, false), Look(2, false), Decide(1), Table(1), List(1), Apply(1)];
    FirstOfTwo(start, rel);
    ExecSnoc(rel, start, front, Decide(2));
    assert front + [Decide(2)] ==
           [Look(1, false), Look(2, false), Decide(1), Table(1), List(1), Apply(1), Decide(2)];
    hide Exec, Missing;
    BothMissing();
    var w := Exec(rel, start, front + [Decide(2)]);
    assert w.db == Bootstrapped(rel);
    assert w.runners[1] == Runner(false, Working(["003"]));
    assert "002"[2] != "003"[2];
  }

  lemma BothMissing()
    ensures Missing(["002", "003"], {}) == ["002", "003"] && SetOf([]) == {}
  {
    assert ["002", "003"][1..] == ["003"] && ["003"][1..] == [];
    assert Missing(["003"], {}) == ["003"];
  }
}
