/**
 * The worker-pool supervisor: a pool of processes sized to the grading backlog.
 *
 * A tick reads the queue depth asynchronously, so it is two events: it begins, which is when it
 * looks at `stopping`, and later it resumes with a depth, or with nothing if the read failed.
 * Several ticks can be under way at once. Everything from the resumption on is one step.
 */
module WorkerPool {
  import opened Options

  type Pid = nat

  /** The settings of a pool; at least one worker, and a positive backlog per worker. */
  datatype Config = Config(min: nat, max: nat, perWorker: nat, scaleDownAfter: nat)

  predicate GoodConfig(c: Config) {
    1 <= c.min <= c.max && c.perWorker >= 1 && c.scaleDownAfter >= 1
  }

  function CeilDiv(a: nat, b: nat): nat
    requires b >= 1
  {
    (a + b - 1) / b
  }

  function DesiredWorkers(backlog: int, c: Config): (n: nat)
    requires GoodConfig(c)
    ensures c.min <= n <= c.max
  {
    if backlog <= 0 then c.min
    else
      var needed := CeilDiv(backlog, c.perWorker);
      var atLeast := if c.min >= needed then c.min else needed;
      if c.max <= atLeast then c.max else atLeast
  }

  lemma Scale(x: int, y: int, b: nat)
    requires x <= y
    ensures x * b <= y * b
  {
  }

  lemma CeilDivLeast(a: nat, b: nat, m: nat)
    requires b >= 1
    ensures a <= m * b <==> CeilDiv(a, b) <= m
  {
    var q := CeilDiv(a, b);
    assert q * b <= a + b - 1 < (q + 1) * b;
    if q <= m {
      Scale(q, m, b);
    } else {
      Scale(m + 1, q, b);
    }
  }

  /** The smallest permitted pool that is not saturated, or the largest permitted one. */
  lemma DesiredIsLeast(backlog: int, c: Config, m: nat)
    requires GoodConfig(c) && c.min <= m <= c.max
    ensures backlog <= m * c.perWorker || m == c.max ==> DesiredWorkers(backlog, c) <= m
    ensures backlog <= DesiredWorkers(backlog, c) * c.perWorker || DesiredWorkers(backlog, c) == c.max
  {
    if backlog > 0 {
      CeilDivLeast(backlog, c.perWorker, m);
      CeilDivLeast(backlog, c.perWorker, DesiredWorkers(backlog, c));
    } else {
      assert DesiredWorkers(backlog, c) * c.perWorker >= 0;
    }
  }

  // ---------------------------------------------------------------------------
  // The pool as a state machine
  // ---------------------------------------------------------------------------

  /**
   * `workers` is the supervisor's map in insertion order, `draining` the processes told to stop
   * that have not exited yet, and `inFlight` the number of ticks waiting for the queue depth.
   */
  datatype Pool = Pool(
    workers: seq<Pid>, draining: set<Pid>, nextPid: Pid, quietTicks: nat, stopping: bool, inFlight: nat)

  datatype Event =
    | TickBegins
    | TickResumes(backlog: Option<int>)
    | Exits(pid: Pid)
    | Stops

  function Spawn(p: Pool): Pool {
    p.(workers := p.workers + [p.nextPid], nextPid := p.nextPid + 1)
  }

  function SpawnMany(p: Pool, n: nat): Pool {
    if n == 0 then p else Spawn(SpawnMany(p, n - 1))
  }

  function StopFirst(p: Pool): Pool {
    if p.workers == [] then p
    else p.(workers := p.workers[1..], draining := p.draining + {p.workers[0]})
  }

  function Without(s: seq<Pid>, pid: Pid): seq<Pid> {
    if s == [] then [] else if s[0] == pid then s[1..] else [s[0]] + Without(s[1..], pid)
  }

  /** A tick from the moment the queue depth is known. */
  function Resume(p: Pool, c: Config, backlog: Option<int>): Pool
    requires GoodConfig(c)
  {
    if backlog.None? then p
    else
      var target, current := DesiredWorkers(backlog.value, c), |p.workers|;
      if target > current then SpawnMany(p, target - current).(quietTicks := 0)
      else if target < current then
        if p.quietTicks + 1 >= c.scaleDownAfter then StopFirst(p).(quietTicks := 0)
        else p.(quietTicks := p.quietTicks + 1)
      else p.(quietTicks := 0)
  }

  function Exit(p: Pool, c: Config, pid: Pid): Pool {
    var p' := p.(workers := Without(p.workers, pid), draining := p.draining - {pid});
    if !p.stopping && |p'.workers| < c.min then Spawn(p') else p'
  }

  function Next(p: Pool, c: Config, e: Event): Pool
    requires GoodConfig(c)
  {
    match e
    case TickBegins => if p.stopping then p else p.(inFlight := p.inFlight + 1)
    case TickResumes(backlog) => if p.inFlight == 0 then p else Resume(p.(inFlight := p.inFlight - 1), c, backlog)
    case Exits(pid) => if pid in p.workers || pid in p.draining then Exit(p, c, pid) else p
    case Stops => p.(stopping := true)
  }

  function Run(p: Pool, c: Config, events: seq<Event>): Pool
    requires GoodConfig(c)
  {
    if events == [] then p else Next(Run(p, c, events[..|events| - 1]), c, events[|events| - 1])
  }

  const EMPTY := Pool([], {}, 0, 0, false, 0)

  function Started(c: Config): Pool {
    SpawnMany(EMPTY, c.min)
  }

  // ---------------------------------------------------------------------------
  // What every event keeps
  // ---------------------------------------------------------------------------

  /** Live processes are told apart, and the quiet count stays below the threshold. */
  ghost predicate Sound(p: Pool, c: Config) {
    (forall i, j :: 0 <= i < j < |p.workers| ==> p.workers[i] != p.workers[j]) &&
    (forall pid :: pid in p.workers ==> pid < p.nextPid && pid !in p.draining) &&
    (forall pid :: pid in p.draining ==> pid < p.nextPid) &&
    p.quietTicks < c.scaleDownAfter
  }

  ghost predicate InBounds(p: Pool, c: Config) {
    c.min <= |p.workers| <= c.max
  }

  lemma SpawnSound(p: Pool, c: Config)
    requires Sound(p, c)
    ensures Sound(Spawn(p), c)
  {
    var w := Spawn(p).workers;
    assert forall i :: 0 <= i < |p.workers| ==> w[i] == p.workers[i] && w[i] in p.workers;
  }

  lemma StopFirstSound(p: Pool, c: Config)
    requires Sound(p, c)
    ensures Sound(StopFirst(p), c)
  {
    if p.workers != [] {
      var w := p.workers[1..];
      assert forall i :: 0 <= i < |w| ==> w[i] == p.workers[i + 1];
      assert forall pid :: pid in w ==> pid in p.workers;
    }
  }

  /** Growing keeps every worker there was, in its place. */
  lemma {:induction false} SpawnManyEffect(p: Pool, c: Config, n: nat)
    requires Sound(p, c)
    ensures var p' := SpawnMany(p, n);
            Sound(p', c) && |p'.workers| == |p.workers| + n && p.workers <= p'.workers && p'.draining == p.draining &&
            p'.quietTicks == p.quietTicks && p'.stopping == p.stopping && p'.inFlight == p.inFlight
  {
    hide Sound;
    if n == 0 {
    } else {
      SpawnManyEffect(p, c, n - 1);
      SpawnSound(SpawnMany(p, n - 1), c);
    }
  }

  lemma {:induction false} WithoutEffect(s: seq<Pid>, pid: Pid)
    requires forall i, j :: 0 <= i < j < |s| ==> s[i] != s[j]
    ensures var t := Without(s, pid);
            |t| == (if pid in s then |s| - 1 else |s|) &&
            (forall x :: x in t <==> x in s && x != pid) &&
            (forall i, j :: 0 <= i < j < |t| ==> t[i] != t[j])
  {
    if s == [] {
    } else if s[0] == pid {
      assert s == [s[0]] + s[1..];
      assert forall x :: x in s[1..] ==> x != pid;
    } else {
      assert s == [s[0]] + s[1..];
      assert s[0] !in s[1..];
      WithoutEffect(s[1..], pid);
    }
  }

  lemma QuietSound(p: Pool, c: Config, ticks: nat)
    requires Sound(p, c) && ticks < c.scaleDownAfter
    ensures Sound(p.(quietTicks := ticks), c)
  {
  }

  lemma ResumeSound(p: Pool, c: Config, backlog: Option<int>)
    requires GoodConfig(c) && Sound(p, c)
    ensures Sound(Resume(p, c, backlog), c)
    ensures InBounds(p, c) ==> InBounds(Resume(p, c, backlog), c)
    ensures |Resume(p, c, backlog).workers| <= |p.workers| || |Resume(p, c, backlog).workers| <= c.max
  {
    hide Sound, DesiredWorkers;
    if backlog.Some? {
      var target := DesiredWorkers(backlog.value, c);
      if target > |p.workers| {
        SpawnManyEffect(p, c, target - |p.workers|);
        QuietSound(SpawnMany(p, target - |p.workers|), c, 0);
      } else if target < |p.workers| {
        if p.quietTicks + 1 >= c.scaleDownAfter {
          StopFirstSound(p, c);
          QuietSound(StopFirst(p), c, 0);
        } else {
          QuietSound(p, c, p.quietTicks + 1);
        }
      } else {
        QuietSound(p, c, 0);
      }
    }
  }

  lemma ExitSound(p: Pool, c: Config, pid: Pid)
    requires GoodConfig(c) && Sound(p, c)
    ensures Sound(Exit(p, c, pid), c)
    ensures !p.stopping && InBounds(p, c) ==> InBounds(Exit(p, c, pid), c)
    ensures p.stopping ==> |Exit(p, c, pid).workers| <= |p.workers|
  {
    WithoutEffect(p.workers, pid);
    var p' := p.(workers := Without(p.workers, pid), draining := p.draining - {pid});
    assert Sound(p', c);
    hide Sound;
    SpawnSound(p', c);
  }

  lemma NextSound(p: Pool, c: Config, e: Event)
    requires GoodConfig(c) && Sound(p, c)
    ensures Sound(Next(p, c, e), c)
    ensures !p.stopping && InBounds(p, c) ==> InBounds(Next(p, c, e), c)
  {
    hide DesiredWorkers, Resume, Exit, InBounds;
    match e
    case TickResumes(backlog) =>
      if p.inFlight > 0 {
        TickAwayKeeps(p, c);
        ResumeSound(p.(inFlight := p.inFlight - 1), c, backlog);
      }
    case Exits(pid) => ExitSound(p, c, pid);
    case _ => SameWorkersKeep(p, Next(p, c, e), c);
  }

  lemma SameWorkersKeep(p: Pool, p': Pool, c: Config)
    requires p'.workers == p.workers
    ensures InBounds(p, c) <==> InBounds(p', c)
  {
  }

  lemma TickAwayKeeps(p: Pool, c: Config)
    requires p.inFlight > 0
    ensures Sound(p, c) <==> Sound(p.(inFlight := p.inFlight - 1), c)
    ensures InBounds(p, c) <==> InBounds(p.(inFlight := p.inFlight - 1), c)
  {
  }

  lemma StartedSound(c: Config)
    requires GoodConfig(c)
    ensures Sound(Started(c), c) && |Started(c).workers| == c.min && !Started(c).stopping
    ensures Started(c).quietTicks == 0 && Started(c).draining == {} && Started(c).inFlight == 0
  {
    SpawnManyEffect(EMPTY, c, c.min);
  }

  lemma {:induction false} RunSound(c: Config, events: seq<Event>)
    requires GoodConfig(c)
    ensures Sound(Run(Started(c), c, events), c)
    ensures Stops !in events ==> !Run(Started(c), c, events).stopping && InBounds(Run(Started(c), c, events), c)
  {
    hide Sound, Started;
    if events == [] {
      StartedSound(c);
    } else {
      var front := events[..|events| - 1];
      RunSound(c, front);
      NextSound(Run(Started(c), c, front), c, events[|events| - 1]);
      StopsOnlyStop(Run(Started(c), c, front), c, events[|events| - 1]);
    }
  }

  lemma StopsOnlyStop(p: Pool, c: Config, e: Event)
    requires GoodConfig(c)
    ensures Next(p, c, e).stopping <==> p.stopping || e == Stops
  {
    hide DesiredWorkers;
    if e.TickResumes? && e.backlog.Some? && p.inFlight > 0 {
      var n := DesiredWorkers(e.backlog.value, c);
      if n > |p.workers| {
        SpawnManyStopping(p.(inFlight := p.inFlight - 1), n - |p.workers|);
      }
    }
  }

  lemma {:induction false} SpawnManyStopping(p: Pool, n: nat)
    ensures SpawnMany(p, n).stopping == p.stopping
  {
    if n == 0 {
    } else {
      SpawnManyStopping(p, n - 1);
    }
  }

  /**
   * From the start on, whatever backlogs, failed reads, crashes, drained exits and overlapping
   * ticks occur, the pool holds between min and max workers until it is told to stop.
   */
  lemma SizeAlwaysInBounds(c: Config, events: seq<Event>)
    requires GoodConfig(c) && Stops !in events
    ensures c.min <= |Run(Started(c), c, events).workers| <= c.max
  {
    RunSound(c, events);
  }

  // ---------------------------------------------------------------------------
  // Hysteresis: how often the pool can shrink
  // ---------------------------------------------------------------------------

  /** This event is a tick that found fewer workers wanted than there are. */
  predicate IsLow(p: Pool, c: Config, e: Event)
    requires GoodConfig(c)
  {
    e.TickResumes? && p.inFlight > 0 && e.backlog.Some? && DesiredWorkers(e.backlog.value, c) < |p.workers|
  }

  /** This event tells a worker to stop because fewer are wanted. */
  predicate IsShrink(p: Pool, c: Config, e: Event)
    requires GoodConfig(c)
  {
    IsLow(p, c, e) && p.quietTicks + 1 >= c.scaleDownAfter
  }

  function LowTicks(p: Pool, c: Config, events: seq<Event>): nat
    requires GoodConfig(c)
  {
    if events == [] then 0
    else
      var front := events[..|events| - 1];
      LowTicks(p, c, front) + if IsLow(Run(p, c, front), c, events[|events| - 1]) then 1 else 0
  }

  function Shrinks(p: Pool, c: Config, events: seq<Event>): nat
    requires GoodConfig(c)
  {
    if events == [] then 0
    else
      var front := events[..|events| - 1];
      Shrinks(p, c, front) + if IsShrink(Run(p, c, front), c, events[|events| - 1]) then 1 else 0
  }

  lemma QuietStep(p: Pool, c: Config, e: Event)
    requires GoodConfig(c) && Sound(p, c)
    ensures IsShrink(p, c, e) ==> Next(p, c, e).quietTicks == 0 && p.quietTicks + 1 == c.scaleDownAfter
    ensures IsLow(p, c, e) && !IsShrink(p, c, e) ==> Next(p, c, e).quietTicks == p.quietTicks + 1
    ensures !IsLow(p, c, e) ==> Next(p, c, e).quietTicks <= p.quietTicks
  {
  }

  /** Every shrink is paid for by `scaleDownAfter` low ticks of its own. */
  lemma {:induction false} ShrinksArePaidFor(p: Pool, c: Config, events: seq<Event>)
    requires GoodConfig(c) && Sound(p, c) && p.quietTicks == 0
    ensures Sound(Run(p, c, events), c)
    ensures Shrinks(p, c, events) * c.scaleDownAfter + Run(p, c, events).quietTicks <= LowTicks(p, c, events)
  {
    hide Sound, Next, IsLow, IsShrink;
    if events == [] {
    } else {
      var front, last := events[..|events| - 1], events[|events| - 1];
      ShrinksArePaidFor(p, c, front);
      var q := Run(p, c, front);
      QuietStep(q, c, last);
      NextSound(q, c, last);
      ShrinkIsLow(q, c, last);
      var n := Shrinks(p, c, front);
      assert (n + 1) * c.scaleDownAfter == n * c.scaleDownAfter + c.scaleDownAfter;
    }
  }

  lemma ShrinkIsLow(p: Pool, c: Config, e: Event)
    requires GoodConfig(c)
    ensures IsShrink(p, c, e) ==> IsLow(p, c, e)
  {
  }

  // ---------------------------------------------------------------------------
  // Convergence under a constant backlog
  // ---------------------------------------------------------------------------

  /** Nothing crashes and nothing stops; ticks see this backlog or fail to read it. */
  ghost predicate Steady(p: Pool, e: Event, backlog: int) {
    match e
    case TickBegins => true
    case TickResumes(b) => b.None? || b.value == backlog
    case Exits(pid) => pid !in p.workers
    case Stops => false
  }

  ghost predicate SteadyRun(p: Pool, c: Config, events: seq<Event>, backlog: int)
    requires GoodConfig(c)
  {
    events == [] ||
    var front := events[..|events| - 1];
    SteadyRun(p, c, front, backlog) && Steady(Run(p, c, front), events[|events| - 1], backlog)
  }

  /** The ticks that read the queue and acted. */
  function Readings(p: Pool, c: Config, events: seq<Event>): nat
    requires GoodConfig(c)
  {
    if events == [] then 0
    else
      var front, last := events[..|events| - 1], events[|events| - 1];
      Readings(p, c, front) +
      if last.TickResumes? && last.backlog.Some? && Run(p, c, front).inFlight > 0 then 1 else 0
  }

  /** How many more readings the pool needs to come down to its target. */
  function Distance(p: Pool, c: Config, target: nat): int {
    (|p.workers| - target) * c.scaleDownAfter - p.quietTicks
  }

  lemma SteadyStep(p: Pool, c: Config, e: Event, backlog: int)
    requires GoodConfig(c) && Sound(p, c) && !p.stopping && Steady(p, e, backlog)
    requires |p.workers| >= c.min
    ensures var target := DesiredWorkers(backlog, c);
            var p' := Next(p, c, e);
            var acts := e.TickResumes? && e.backlog.Some? && p.inFlight > 0;
            (!acts ==> |p'.workers| == |p.workers| && p'.quietTicks == p.quietTicks) &&
            (acts && |p.workers| < target ==> |p'.workers| == target) &&
            (acts && |p.workers| == target ==> |p'.workers| == target) &&
            (acts && |p.workers| > target ==>
               target <= |p'.workers| && Distance(p', c, target) == Distance(p, c, target) - 1)
  {
    hide DesiredWorkers;
    var target := DesiredWorkers(backlog, c);
    match e
    case TickResumes(b) =>
      if b.Some? && p.inFlight > 0 && target > |p.workers| {
        TickAwayKeeps(p, c);
        SpawnManyEffect(p.(inFlight := p.inFlight - 1), c, target - |p.workers|);
      }
    case Exits(pid) => WithoutEffect(p.workers, pid);
    case _ =>
  }

  /**
   * From a pool larger than wanted, exactly one reading in `scaleDownAfter` takes a worker away,
   * and once the target is reached the pool stays there.
   */
  lemma {:induction false} ComesDown(p: Pool, c: Config, events: seq<Event>, backlog: int)
    requires GoodConfig(c) && Sound(p, c) && !p.stopping && InBounds(p, c)
    requires SteadyRun(p, c, events, backlog) && |p.workers| >= DesiredWorkers(backlog, c)
    ensures var target, q := DesiredWorkers(backlog, c), Run(p, c, events);
            Sound(q, c) && !q.stopping && InBounds(q, c) && |q.workers| >= target &&
            (Readings(p, c, events) >= Distance(p, c, target) ==> |q.workers| == target) &&
            (|q.workers| > target ==> Distance(q, c, target) == Distance(p, c, target) - Readings(p, c, events))
  {
    var target := DesiredWorkers(backlog, c);
    if events == [] {
      DistancePositive(p, c, target);
    } else {
      hide DesiredWorkers, Next;
      var front, last := events[..|events| - 1], events[|events| - 1];
      ComesDown(p, c, front, backlog);
      var q := Run(p, c, front);
      SteadyStep(q, c, last, backlog);
      NextSound(q, c, last);
      StopsOnlyStop(q, c, last);
      hide Sound;
      DistancePositive(q, c, target);
      DistancePositive(Next(q, c, last), c, target);
    }
  }

  lemma DistancePositive(p: Pool, c: Config, target: nat)
    requires GoodConfig(c) && Sound(p, c)
    ensures |p.workers| > target <==> Distance(p, c, target) > 0
  {
    var d := |p.workers| - target;
    if d > 0 {
      assert d * c.scaleDownAfter >= c.scaleDownAfter;
    } else {
      assert d * c.scaleDownAfter <= 0;
    }
  }

  /** From a pool smaller than wanted, the first reading brings it to the target. */
  lemma GrowsAtOnce(p: Pool, c: Config, backlog: int)
    requires GoodConfig(c) && Sound(p, c) && p.inFlight > 0 && |p.workers| < DesiredWorkers(backlog, c)
    ensures |Next(p, c, TickResumes(Some(backlog))).workers| == DesiredWorkers(backlog, c)
  {
    TickAwayKeeps(p, c);
    SpawnManyEffect(p.(inFlight := p.inFlight - 1), c, DesiredWorkers(backlog, c) - |p.workers|);
  }

  /**
   * Convergence: under a constant backlog and without crashes, the pool is at its desired size once
   * (size - target) * scaleDownAfter readings have been made, and from then on.
   */
  lemma Converges(p: Pool, c: Config, events: seq<Event>, backlog: int)
    requires GoodConfig(c) && Sound(p, c) && !p.stopping && InBounds(p, c)
    requires SteadyRun(p, c, events, backlog) && |p.workers| >= DesiredWorkers(backlog, c)
    requires Readings(p, c, events) >= (|p.workers| - DesiredWorkers(backlog, c)) * c.scaleDownAfter
    ensures |Run(p, c, events).workers| == DesiredWorkers(backlog, c)
  {
    ComesDown(p, c, events, backlog);
  }

  // ---------------------------------------------------------------------------
  // After stop
  // ---------------------------------------------------------------------------

  /** Once stopped, no tick begins, so the ticks under way only run out. */
  lemma StoppedStep(p: Pool, c: Config, e: Event)
    requires GoodConfig(c) && Sound(p, c) && p.stopping
    ensures Next(p, c, e).inFlight <= p.inFlight
    ensures p.inFlight == 0 ==> |Next(p, c, e).workers| <= |p.workers|
  {
    if e.Exits? {
      WithoutEffect(p.workers, e.pid);
    } else if e.TickResumes? && e.backlog.Some? && p.inFlight > 0 {
      var target := DesiredWorkers(e.backlog.value, c);
      if target > |p.workers| {
        TickAwayKeeps(p, c);
        SpawnManyEffect(p.(inFlight := p.inFlight - 1), c, target - |p.workers|);
      }
    }
  }

  lemma {:induction false} StoppedRun(p: Pool, c: Config, events: seq<Event>)
    requires GoodConfig(c) && Sound(p, c) && p.stopping && p.inFlight == 0
    ensures var q := Run(p, c, events);
            Sound(q, c) && q.stopping && q.inFlight == 0 && |q.workers| <= |p.workers|
  {
    hide Sound, Next;
    if events == [] {
    } else {
      var front, last := events[..|events| - 1], events[|events| - 1];
      StoppedRun(p, c, front);
      var q := Run(p, c, front);
      StoppedStep(q, c, last);
      NextSound(q, c, last);
      StopsOnlyStop(q, c, last);
    }
  }

  /** Some further run grows the pool. */
  ghost predicate CanGrow(p: Pool, c: Config)
    requires GoodConfig(c)
  {
    exists events :: |Run(p, c, events).workers| > |p.workers|
  }

  /** A backlog that asks for the largest pool. */
  lemma DeepBacklog(c: Config)
    requires GoodConfig(c)
    ensures DesiredWorkers(c.max * c.perWorker, c) == c.max
  {
  }

  /**
   * After a stop the pool can still grow exactly when a tick that began before it is under way and
   * there is room: the flag is looked at only when a tick begins.
   */
  lemma GrowthAfterStop(p: Pool, c: Config)
    requires GoodConfig(c) && Sound(p, c) && p.stopping && |p.workers| <= c.max
    ensures CanGrow(p, c) <==> p.inFlight > 0 && |p.workers| < c.max
  {
    if p.inFlight > 0 && |p.workers| < c.max {
      var e := TickResumes(Some(c.max * c.perWorker));
      DeepBacklog(c);
      TickAwayKeeps(p, c);
      SpawnManyEffect(p.(inFlight := p.inFlight - 1), c, c.max - |p.workers|);
      assert [e][..0] == [];
      assert Run(p, c, []) == p;
      assert |Run(p, c, [e]).workers| > |p.workers|;
    }
    if CanGrow(p, c) {
      var events :| |Run(p, c, events).workers| > |p.workers|;
      if p.inFlight == 0 {
        StoppedRun(p, c, events);
        assert false;
      }
      StoppedNeverPastMax(p, c, events);
    }
  }

  /** That happens: a fresh pool whose first tick is waiting when it is told to stop. */
  lemma StoppedPoolCanGrow(c: Config)
    requires GoodConfig(c) && c.min < c.max
    ensures var p := Run(Started(c), c, [TickBegins, Stops]);
            p.stopping && CanGrow(p, c)
  {
    StartedSound(c);
    var p := Started(c);
    assert [TickBegins, Stops][..1] == [TickBegins] && [TickBegins][..0] == [];
    assert Run(p, c, []) == p && Run(p, c, [TickBegins]) == p.(inFlight := 1);
    var q := Run(p, c, [TickBegins, Stops]);
    assert q == p.(inFlight := 1, stopping := true);
    GrowthAfterStop(q, c);
  }

  lemma {:induction false} StoppedNeverPastMax(p: Pool, c: Config, events: seq<Event>)
    requires GoodConfig(c) && Sound(p, c) && p.stopping && |p.workers| <= c.max
    ensures var q := Run(p, c, events);
            Sound(q, c) && q.stopping && |q.workers| <= c.max
  {
    hide Sound, Next;
    if events == [] {
    } else {
      var front, last := events[..|events| - 1], events[|events| - 1];
      StoppedNeverPastMax(p, c, front);
      var q := Run(p, c, front);
      NextSound(q, c, last);
      StopsOnlyStop(q, c, last);
      NextPastMax(q, c, last);
    }
  }

  lemma NextPastMax(p: Pool, c: Config, e: Event)
    requires GoodConfig(c) && Sound(p, c) && p.stopping && |p.workers| <= c.max
    ensures |Next(p, c, e).workers| <= c.max
  {
    hide Resume, Exit;
    match e
    case TickResumes(backlog) =>
      if p.inFlight > 0 {
        TickAwayKeeps(p, c);
        ResumeSound(p.(inFlight := p.inFlight - 1), c, backlog);
      }
    case Exits(pid) => ExitSound(p, c, pid);
    case _ =>
  }

  // ---------------------------------------------------------------------------
  // The supervisor itself
  // ---------------------------------------------------------------------------

  /** The supervisor object; `State()` is the value the theorems above speak about. */
  class Supervisor {
    const config: Config
    var workers: seq<Pid>
    var draining: set<Pid>
    var nextPid: Pid
    var quietTicks: nat
    var stopping: bool
    var inFlight: nat

    ghost function State(): Pool
      reads this
    {
      Pool(workers, draining, nextPid, quietTicks, stopping, inFlight)
    }

    constructor (c: Config)
      requires GoodConfig(c)
      ensures config == c && State() == EMPTY
    {
      config := c;
      workers, draining, nextPid, quietTicks, stopping, inFlight := [], {}, 0, 0, false, 0;
    }

    method SpawnOne()
      modifies this
      ensures State() == Spawn(old(State()))
    {
      workers, nextPid := workers + [nextPid], nextPid + 1;
    }

    method StopOne()
      modifies this
      ensures State() == StopFirst(old(State()))
    {
      if workers == [] {
        return;
      }
      workers, draining := workers[1..], draining + {workers[0]};
    }

    method OnExit(pid: Pid)
      modifies this
      ensures State() == Exit(old(State()), config, pid)
    {
      workers, draining := Without(workers, pid), draining - {pid};
      if stopping {
        return;
      }
      if |workers| < config.min {
        SpawnOne();
      }
    }

    /** The part of a tick before it waits; a stopped supervisor does not go on to wait. */
    method BeginTick()
      requires GoodConfig(config)
      modifies this
      ensures State() == Next(old(State()), config, TickBegins)
    {
      if stopping {
        return;
      }
      inFlight := inFlight + 1;
    }

    /** The part of a tick after the queue depth arrived, or could not be read. */
    method ResumeTick(backlog: Option<int>)
      requires GoodConfig(config) && inFlight > 0
      modifies this
      ensures State() == Next(old(State()), config, TickResumes(backlog))
    {
      inFlight := inFlight - 1;
      if backlog.None? {
        return;
      }
      ghost var before := State();
      var target, current := DesiredWorkers(backlog.value, config), |workers|;
      if target > current {
        for i := current to target
          invariant State() == SpawnMany(before, i - current)
        {
          SpawnOne();
        }
        quietTicks := 0;
        return;
      }
      if target < current {
        quietTicks := quietTicks + 1;
        if quietTicks >= config.scaleDownAfter {
          StopOne();
          quietTicks := 0;
        }
        return;
      }
      quietTicks := 0;
    }

    method Start()
      modifies this
      ensures State() == SpawnMany(old(State()), config.min)
    {
      for i := 0 to config.min
        invariant State() == SpawnMany(old(State()), i)
      {
        SpawnOne();
      }
    }

    method Stop()
      modifies this
      ensures State() == old(State()).(stopping := true)
    {
      stopping := true;
    }
  }
}
