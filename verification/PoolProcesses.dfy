/** What becomes of the single processes of the worker pool: none is lost, and the oldest goes first. */
module PoolProcesses {
  import opened Options
  import opened WorkerPool

  /** At work, or told to stop and not yet gone. */
  predicate IsAlive(p: Pool, pid: Pid) {
    pid in p.workers || pid in p.draining
  }

  /** The map holds its processes in the order in which they were forked. */
  ghost predicate InForkOrder(p: Pool) {
    Increasing(p.workers)
  }

  ghost predicate Increasing(s: seq<Pid>) {
    forall i, j :: 0 <= i < j < |s| ==> s[i] < s[j]
  }

  lemma {:induction false} SpawnManyPids(p: Pool, n: nat)
    ensures var p' := SpawnMany(p, n);
            p'.nextPid == p.nextPid + n && p'.draining == p.draining &&
            forall pid :: pid in p'.workers <==> pid in p.workers || p.nextPid <= pid < p'.nextPid
  {
    if n == 0 {
    } else {
      SpawnManyPids(p, n - 1);
    }
  }

  lemma {:induction false} SpawnManyOrder(p: Pool, n: nat)
    requires InForkOrder(p) && forall pid :: pid in p.workers ==> pid < p.nextPid
    ensures InForkOrder(SpawnMany(p, n))
  {
    hide Increasing;
    if n == 0 {
    } else {
      SpawnManyOrder(p, n - 1);
      SpawnManyPids(p, n - 1);
      PutAtEnd(SpawnMany(p, n - 1).workers, SpawnMany(p, n - 1).nextPid);
    }
  }

  lemma FirstStops(p: Pool, c: Config)
    requires Sound(p, c) && p.workers != []
    ensures forall pid :: pid in StopFirst(p).workers <==> pid in p.workers && pid != p.workers[0]
    ensures StopFirst(p).draining == p.draining + {p.workers[0]}
  {
    assert p.workers == [p.workers[0]] + p.workers[1..];
    forall pid | pid in p.workers[1..] ensures pid != p.workers[0] {
      var i :| 0 <= i < |p.workers| - 1 && p.workers[1..][i] == pid;
      assert p.workers[i + 1] == pid;
    }
  }

  /** A process comes alive when it is forked and stays so until it exits; a draining one was at work. */
  ghost predicate Follows(p: Pool, p': Pool, exited: Option<Pid>) {
    p.nextPid <= p'.nextPid &&
    (forall pid: Pid :: IsAlive(p', pid) <==>
      (IsAlive(p, pid) && exited != Some(pid)) || p.nextPid <= pid < p'.nextPid) &&
    forall pid: Pid :: pid in p'.draining ==> pid in p.draining || pid in p.workers
  }

  lemma ResumeFollows(p: Pool, c: Config, backlog: Option<int>)
    requires GoodConfig(c) && Sound(p, c)
    ensures Follows(p, Resume(p, c, backlog), None)
  {
    hide DesiredWorkers;
    if backlog.Some? {
      var target := DesiredWorkers(backlog.value, c);
      if target > |p.workers| {
        SpawnManyPids(p, target - |p.workers|);
      } else if target < |p.workers| {
        FirstStops(p, c);
      }
    }
  }

  lemma ExitFollows(p: Pool, c: Config, pid: Pid)
    requires GoodConfig(c) && Sound(p, c) && IsAlive(p, pid)
    ensures Follows(p, Exit(p, c, pid), Some(pid))
  {
    WithoutEffect(p.workers, pid);
    var p' := p.(workers := Without(p.workers, pid), draining := p.draining - {pid});
    SpawnManyPids(p', 0);
    assert forall x :: x in p'.workers + [p'.nextPid] <==> x in p'.workers || x == p'.nextPid;
  }

  function ExitedBy(p: Pool, e: Event): Option<Pid> {
    if e.Exits? && IsAlive(p, e.pid) then Some(e.pid) else None
  }

  lemma NextFollows(p: Pool, c: Config, e: Event)
    requires GoodConfig(c) && Sound(p, c)
    ensures Follows(p, Next(p, c, e), ExitedBy(p, e))
  {
    hide Resume, Exit;
    match e
    case TickResumes(backlog) =>
      if p.inFlight > 0 {
        TickAwayKeeps(p, c);
        ResumeFollows(p.(inFlight := p.inFlight - 1), c, backlog);
      }
    case Exits(pid) =>
      if IsAlive(p, pid) {
        ExitFollows(p, c, pid);
      }
    case _ =>
  }

  /** Event `i` of the run was this process's exit. */
  ghost predicate ExitsAt(c: Config, events: seq<Event>, i: nat, pid: Pid)
    requires GoodConfig(c)
  {
    i < |events| && ExitedBy(Run(Started(c), c, events[..i]), events[i]) == Some(pid)
  }

  ghost predicate HasExited(c: Config, events: seq<Event>, pid: Pid)
    requires GoodConfig(c)
  {
    exists i: nat :: ExitsAt(c, events, i, pid)
  }

  lemma ExitedSnoc(c: Config, front: seq<Event>, last: Event, pid: Pid)
    requires GoodConfig(c)
    ensures HasExited(c, front + [last], pid) <==>
            HasExited(c, front, pid) || ExitedBy(Run(Started(c), c, front), last) == Some(pid)
  {
    hide Run, ExitedBy, Started;
    var events := front + [last];
    assert forall i :: 0 <= i < |front| ==> events[i] == front[i] && events[..i] == front[..i];
    assert events[..|front|] == front && events[|front|] == last;
    if HasExited(c, events, pid) {
      var i: nat :| ExitsAt(c, events, i, pid);
      assert i < |front| ==> ExitsAt(c, front, i, pid);
    }
    if HasExited(c, front, pid) {
      var i: nat :| ExitsAt(c, front, i, pid);
      assert ExitsAt(c, events, i, pid);
    }
    if ExitedBy(Run(Started(c), c, front), last) == Some(pid) {
      assert ExitsAt(c, events, |front|, pid);
    }
  }

  lemma NoneExited(c: Config, pid: Pid)
    requires GoodConfig(c)
    ensures !HasExited(c, [], pid)
    ensures IsAlive(Started(c), pid) <==> pid < Started(c).nextPid
  {
    SpawnManyPids(EMPTY, c.min);
  }

  /**
   * Over any run no process is lost or comes back: every one ever forked is at work or draining, or it
   * has exited, and never both.
   */
  lemma {:induction false} ProcessesAccounted(c: Config, events: seq<Event>, pid: Pid)
    requires GoodConfig(c)
    ensures var p := Run(Started(c), c, events);
            (IsAlive(p, pid) <==> pid < p.nextPid && !HasExited(c, events, pid)) &&
            (HasExited(c, events, pid) ==> pid < p.nextPid) &&
            !(pid in p.workers && pid in p.draining)
  {
    hide Next, Started, HasExited, IsAlive, ExitedBy;
    RunSound(c, events);
    if events == [] {
      NoneExited(c, pid);
    } else {
      var front, last := events[..|events| - 1], events[|events| - 1];
      assert events == front + [last];
      ProcessesAccounted(c, front, pid);
      RunSound(c, front);
      NextFollows(Run(Started(c), c, front), c, last);
      ExitedSnoc(c, front, last, pid);
      OnlyTheLivingExit(Run(Started(c), c, front), last, pid);
    }
  }

  lemma OnlyTheLivingExit(p: Pool, e: Event, pid: Pid)
    ensures ExitedBy(p, e) == Some(pid) ==> IsAlive(p, pid)
  {
  }

  lemma {:induction false} WithoutOrder(s: seq<Pid>, pid: Pid)
    requires Increasing(s)
    ensures Increasing(Without(s, pid)) && forall x :: x in Without(s, pid) ==> x in s
  {
    if s == [] {
    } else {
      var rest := s[1..];
      assert s == [s[0]] + rest && Increasing(rest);
      WithoutOrder(rest, pid);
      forall x | x in rest ensures s[0] < x {
      }
      if s[0] != pid {
        PutInFront(s[0], Without(rest, pid));
      }
    }
  }

  lemma PutInFront(x: Pid, s: seq<Pid>)
    requires Increasing(s) && forall y :: y in s ==> x < y
    ensures Increasing([x] + s)
  {
    var t := [x] + s;
    forall i, j | 0 <= i < j < |t| ensures t[i] < t[j] {
      assert t[j] == s[j - 1] && s[j - 1] in s;
      if i > 0 {
        assert t[i] == s[i - 1];
      }
    }
  }

  lemma PutAtEnd(s: seq<Pid>, x: Pid)
    requires Increasing(s) && forall y :: y in s ==> y < x
    ensures Increasing(s + [x])
  {
    var t := s + [x];
    forall i, j | 0 <= i < j < |t| ensures t[i] < t[j] {
      assert t[i] == s[i] && s[i] in s;
      if j < |s| {
        assert t[j] == s[j];
      }
    }
  }

  lemma ExitOrder(p: Pool, c: Config, pid: Pid)
    requires Sound(p, c) && InForkOrder(p)
    ensures InForkOrder(Exit(p, c, pid))
  {
    hide Increasing;
    WithoutOrder(p.workers, pid);
    PutAtEnd(Without(p.workers, pid), p.nextPid);
  }

  lemma ResumeOrder(p: Pool, c: Config, backlog: Option<int>)
    requires GoodConfig(c) && Sound(p, c) && InForkOrder(p)
    ensures InForkOrder(Resume(p, c, backlog))
  {
    hide DesiredWorkers;
    if backlog.Some? && DesiredWorkers(backlog.value, c) > |p.workers| {
      SpawnManyOrder(p, DesiredWorkers(backlog.value, c) - |p.workers|);
    }
  }

  lemma NextOrder(p: Pool, c: Config, e: Event)
    requires GoodConfig(c) && Sound(p, c) && InForkOrder(p)
    ensures InForkOrder(Next(p, c, e))
  {
    hide Resume, Exit, Sound;
    match e
    case TickResumes(backlog) =>
      if p.inFlight > 0 {
        TickAwayKeeps(p, c);
        ResumeOrder(p.(inFlight := p.inFlight - 1), c, backlog);
      }
    case Exits(pid) => ExitOrder(p, c, pid);
    case _ =>
  }

  lemma {:induction false} RunOrder(c: Config, events: seq<Event>)
    requires GoodConfig(c)
    ensures InForkOrder(Run(Started(c), c, events))
  {
    hide Next, InForkOrder;
    if events == [] {
      StartOrder(c);
    } else {
      var front := events[..|events| - 1];
      RunOrder(c, front);
      RunSound(c, front);
      NextOrder(Run(Started(c), c, front), c, events[|events| - 1]);
    }
  }

  lemma StartOrder(c: Config)
    requires GoodConfig(c)
    ensures InForkOrder(Started(c))
  {
    SpawnManyOrder(EMPTY, c.min);
  }

  /** When a tick shrinks the pool it tells one worker to stop: the oldest. */
  lemma OldestStops(c: Config, events: seq<Event>, e: Event, pid: Pid)
    requires GoodConfig(c)
    requires var p := Run(Started(c), c, events);
             IsShrink(p, c, e) && pid in Next(p, c, e).draining && pid !in p.draining
    ensures var p, p' := Run(Started(c), c, events), Next(Run(Started(c), c, events), c, e);
            pid in p.workers && |p'.workers| == |p.workers| - 1 &&
            (forall x :: x in p'.workers <==> x in p.workers && x != pid) &&
            forall x :: x in p'.workers ==> pid < x
  {
    hide Run, DesiredWorkers;
    RunSound(c, events);
    RunOrder(c, events);
    var p := Run(Started(c), c, events);
    TickAwayKeeps(p, c);
    FirstStops(p.(inFlight := p.inFlight - 1), c);
  }
}
