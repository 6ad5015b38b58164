/**
 * From test-case runs to a score: the verdict of a run, the verdict of a submission, the weighted
 * score and its rubric breakdown. A program run is a parameter, as is the compiler's answer.
 */
module Grading {
  import opened Lists
  import opened Options
  import opened Text
  import opened Checker
  import Counting

  // ---------------------------------------------------------------------------
  // Verdicts
  // ---------------------------------------------------------------------------

  datatype Verdict =
    Accepted | WrongAnswer | TimeLimit | MemoryLimit | RuntimeError | CompileError | OutputLimit

  /** `memoryMessage` says whether stderr holds one of the runtimes' out-of-memory messages. */
  datatype RunResult = RunResult(
    stdout: Text, exitCode: int, timedOut: bool, outputTruncated: bool, memoryMessage: bool)

  const SIGKILL_EXIT := 137

  predicate LooksLikeMemoryExhaustion(r: RunResult) {
    (r.exitCode == SIGKILL_EXIT && !r.timedOut) || r.memoryMessage
  }

  function Classify(r: RunResult, checkPassed: bool): Verdict {
    if r.timedOut then TimeLimit
    else if r.outputTruncated then OutputLimit
    else if LooksLikeMemoryExhaustion(r) then MemoryLimit
    else if r.exitCode != 0 then RuntimeError
    else if !checkPassed then WrongAnswer
    else Accepted
  }

  /** The program finished by itself, within its limits and without an error. */
  predicate RanCleanly(r: RunResult) {
    r.exitCode == 0 && !r.timedOut && !r.outputTruncated && !r.memoryMessage
  }

  /** The run had a fault that outranks this verdict: time before output before memory before a crash. */
  predicate HasWorse(v: Verdict, r: RunResult) {
    match v
    case TimeLimit => false
    case OutputLimit => r.timedOut
    case MemoryLimit => r.timedOut || r.outputTruncated
    case RuntimeError => r.timedOut || r.outputTruncated || r.memoryMessage || r.exitCode == SIGKILL_EXIT
    case WrongAnswer => !RanCleanly(r)
    case Accepted => !RanCleanly(r)
    case CompileError => true
  }

  /** The fault this verdict names, if it names one. */
  predicate HasFault(v: Verdict, r: RunResult, checkPassed: bool) {
    match v
    case TimeLimit => r.timedOut
    case OutputLimit => r.outputTruncated
    case MemoryLimit => r.memoryMessage || r.exitCode == SIGKILL_EXIT
    case RuntimeError => r.exitCode != 0
    case WrongAnswer => !checkPassed
    case Accepted => checkPassed
    case CompileError => false
  }

  /** A run's verdict is the gravest thing that can be said of it, and there is exactly one such. */
  lemma VerdictIsGravest(r: RunResult, checkPassed: bool, v: Verdict)
    ensures Classify(r, checkPassed) == v <==> HasFault(v, r, checkPassed) && !HasWorse(v, r)
  {
  }

  lemma AcceptedWhenClean(r: RunResult, checkPassed: bool)
    ensures Classify(r, checkPassed) == Accepted <==> RanCleanly(r) && checkPassed
  {
  }

  // ---------------------------------------------------------------------------
  // Test cases and how they are judged
  // ---------------------------------------------------------------------------

  datatype Config = Config(tolerance: Option<Number>)

  /** What is absent in the row is `None`. */
  datatype TestCase = TestCase(
    id: int, input: Text, expected: Text, weight: Option<Number>, groupLabel: Option<string>,
    checker: Option<Kind>, config: Option<Config>)

  datatype Judge = Judge(checker: Kind, config: Config)

  const DEFAULT_TOLERANCE := Finite(0.000001)

  function ToleranceOf(c: Config): Number {
    if c.tolerance.Some? then c.tolerance.value else DEFAULT_TOLERANCE
  }

  function CheckerFor(tc: TestCase, problemChecker: Option<Kind>, problemConfig: Option<Config>): Judge {
    if tc.checker.None? then
      Judge(if problemChecker.Some? then problemChecker.value else Exact,
            if problemConfig.Some? then problemConfig.value else Config(None))
    else
      Judge(tc.checker.value, if tc.config.Some? then tc.config.value else Config(None))
  }

  /** A case with a checker of its own is judged by it, and one without as if the problem's were its own. */
  lemma InheritsWholly(tc: TestCase, problemChecker: Option<Kind>, problemConfig: Option<Config>)
    ensures tc.checker.Some? ==> CheckerFor(tc, problemChecker, problemConfig).checker == tc.checker.value
    ensures tc.checker.Some? && tc.config.Some? ==>
              CheckerFor(tc, problemChecker, problemConfig).config == tc.config.value
    ensures tc.checker.None? && problemChecker.Some? ==>
              CheckerFor(tc, problemChecker, problemConfig) ==
              CheckerFor(tc.(checker := problemChecker, config := problemConfig), None, None)
    ensures tc.checker.None? && problemChecker.None? ==>
              CheckerFor(tc, problemChecker, problemConfig) ==
              CheckerFor(tc.(checker := Some(Exact), config := problemConfig), None, None)
  {
  }

  /** A checker is never judged with another checker's configuration. */
  lemma ConfigNeverMixes(
    tc: TestCase, problemChecker: Option<Kind>, problemConfig: Option<Config>,
    otherChecker: Option<Kind>, otherConfig: Option<Config>, otherOwn: Option<Config>)
    ensures tc.checker.Some? ==>
              CheckerFor(tc, problemChecker, problemConfig) == CheckerFor(tc, otherChecker, otherConfig)
    ensures tc.checker.None? ==>
              CheckerFor(tc, problemChecker, problemConfig) ==
              CheckerFor(tc.(config := otherOwn), problemChecker, problemConfig)
  {
  }

  function WeightOf(weight: Option<Number>): (w: real)
    ensures w >= 0.0
    ensures w != 1.0 ==> weight == Some(Finite(w))
    ensures weight.Some? && weight.value.Finite? && weight.value.value >= 0.0 ==> weight.value.value == w
  {
    match weight
    case None => 1.0
    case Some(n) => if n.Finite? && n.value >= 0.0 then n.value else 1.0
  }

  // ---------------------------------------------------------------------------
  // Weighing
  // ---------------------------------------------------------------------------

  datatype CaseResult = CaseResult(
    id: int, passed: bool, verdict: Verdict, weight: Option<Number>, groupLabel: Option<string>)

  datatype Score = Score(earned: real, total: real, passed: nat, count: nat)

  datatype Group = Group(groupLabel: string, score: Score)

  datatype Weighed = Weighed(earnedWeight: real, totalWeight: real, groups: seq<Group>)

  const ZERO := Score(0.0, 0.0, 0, 0)

  function Plus(a: Score, b: Score): Score {
    Score(a.earned + b.earned, a.total + b.total, a.passed + b.passed, a.count + b.count)
  }

  /** Cases without a label collect under the empty one. */
  function LabelOf(r: CaseResult): string {
    if r.groupLabel.Some? then r.groupLabel.value else ""
  }

  function Worth(r: CaseResult): Score {
    var w := WeightOf(r.weight);
    Score(if r.passed then w else 0.0, w, if r.passed then 1 else 0, 1)
  }

  /** What the cases under one label, or all of them, add up to. */
  function Tally(results: seq<CaseResult>, under: Option<string>): Score {
    if results == [] then ZERO
    else
      var front, last := Tally(results[..|results| - 1], under), results[|results| - 1];
      if under.None? || under.value == LabelOf(last) then Plus(front, Worth(last)) else front
  }

  /** The labels in the order in which they first appear. */
  function LabelsOf(results: seq<CaseResult>): seq<string> {
    if results == [] then []
    else
      var front, key := LabelsOf(results[..|results| - 1]), LabelOf(results[|results| - 1]);
      if key in front then front else front + [key]
  }

  function GroupsOf(results: seq<CaseResult>): (groups: seq<Group>)
    ensures |groups| == |LabelsOf(results)|
    ensures forall i :: 0 <= i < |groups| ==>
              groups[i] == Group(LabelsOf(results)[i], Tally(results, Some(LabelsOf(results)[i])))
  {
    var labels := LabelsOf(results);
    seq(|labels|, i requires 0 <= i < |labels| => Group(labels[i], Tally(results, Some(labels[i]))))
  }

  lemma {:induction false} LabelsShape(results: seq<CaseResult>)
    ensures Distinct(LabelsOf(results))
    ensures forall key :: key in LabelsOf(results) <==> exists i :: 0 <= i < |results| && LabelOf(results[i]) == key
  {
    if results == [] {
    } else {
      var front := results[..|results| - 1];
      LabelsShape(front);
      forall key ensures key in LabelsOf(results) <==> exists i :: 0 <= i < |results| && LabelOf(results[i]) == key {
        if i :| 0 <= i < |front| && LabelOf(front[i]) == key {
          assert results[i] == front[i];
        }
      }
    }
  }

  lemma TallySnoc(front: seq<CaseResult>, last: CaseResult, under: Option<string>)
    ensures Tally(front + [last], under) ==
            if under.None? || under.value == LabelOf(last) then Plus(Tally(front, under), Worth(last))
            else Tally(front, under)
  {
  }

  /** One result by itself. */
  lemma TallyOne(r: CaseResult, under: Option<string>)
    ensures var counts := under.None? || under.value == (if r.groupLabel.Some? then r.groupLabel.value else "");
            var w := if counts then WeightOf(r.weight) else 0.0;
            Tally([r], under) == Score(if r.passed then w else 0.0, w, if counts && r.passed then 1 else 0,
                                       if counts then 1 else 0)
  {
    assert [r][..0] == [];
  }

  /** The tally of two lists is the sum of theirs. */
  lemma {:induction false} TallyConcat(a: seq<CaseResult>, b: seq<CaseResult>, under: Option<string>)
    ensures Tally(a + b, under) == Plus(Tally(a, under), Tally(b, under))
  {
    hide Tally, Worth;
    NothingWeighed();
    if b == [] {
      assert a + b == a;
      NothingUnder(under);
    } else {
      var front, last := b[..|b| - 1], b[|b| - 1];
      assert a + b == (a + front) + [last] && b == front + [last];
      TallyConcat(a, front, under);
      TallySnoc(a + front, last, under);
      TallySnoc(front, last, under);
    }
  }

  lemma LabelsSnoc(front: seq<CaseResult>, last: CaseResult)
    ensures LabelsOf(front + [last]) ==
            if LabelOf(last) in LabelsOf(front) then LabelsOf(front) else LabelsOf(front) + [LabelOf(last)]
  {
  }

  /** The groups after one more result: its own group, found or new, is brought up to date. */
  lemma GroupsSnoc(front: seq<CaseResult>, last: CaseResult, k: nat)
    requires k <= |GroupsOf(front)|
    requires k < |GroupsOf(front)| ==> GroupsOf(front)[k].groupLabel == LabelOf(last)
    requires k == |GroupsOf(front)| ==> LabelOf(last) !in LabelsOf(front)
    ensures var was, worth := GroupsOf(front), Worth(last);
            GroupsOf(front + [last]) ==
            if k < |was| then was[k := Group(LabelOf(last), Plus(was[k].score, worth))]
            else was + [Group(LabelOf(last), worth)]
  {
    hide Tally, LabelsOf;
    var labels := LabelsOf(front);
    LabelsShape(front);
    LabelsSnoc(front, last);
    forall i | 0 <= i < |labels|
      ensures Tally(front + [last], Some(labels[i])) ==
              if i == k then Plus(Tally(front, Some(labels[i])), Worth(last)) else Tally(front, Some(labels[i]))
    {
      TallySnoc(front, last, Some(labels[i]));
      assert i != k && k < |labels| ==> labels[i] != labels[k];
    }
    TallySnoc(front, last, Some(LabelOf(last)));
    if k == |labels| {
      NoneUnder(front, LabelOf(last));
    }
  }

  lemma {:induction false} NoneUnder(results: seq<CaseResult>, key: string)
    requires key !in LabelsOf(results)
    ensures Tally(results, Some(key)) == ZERO
  {
    if results == [] {
    } else {
      NoneUnder(results[..|results| - 1], key);
    }
  }

  /** One pass over the results; `groups` is the map, in the order its keys were inserted. */
  method Weigh(results: seq<CaseResult>) returns (w: Weighed)
    ensures w.earnedWeight == Tally(results, None).earned && w.totalWeight == Tally(results, None).total
    ensures w.groups == GroupsOf(results)
  {
    hide Tally, LabelsOf, GroupsOf, Worth;
    var groups: seq<Group> := [];
    var earnedWeight, totalWeight := 0.0, 0.0;
    NothingWeighed();
    assert results[..0] == [];
    for n := 0 to |results|
      invariant groups == GroupsOf(results[..n])
      invariant earnedWeight == Tally(results[..n], None).earned && totalWeight == Tally(results[..n], None).total
    {
      var r := results[n];
      assert results[..n + 1] == results[..n] + [r];
      TallySnoc(results[..n], r, None);
      WorthSays(r);
      var weight := WeightOf(r.weight);
      totalWeight := totalWeight + weight;
      if r.passed {
        earnedWeight := earnedWeight + weight;
      }
      var k := GroupIndex(groups, LabelOf(r));
      IndexAmongLabels(results[..n], LabelOf(r), k);
      GroupsSnoc(results[..n], r, k);
      var group := if k < |groups| then groups[k] else Group(LabelOf(r), ZERO);
      var score := group.score.(total := group.score.total + weight, count := group.score.count + 1);
      if r.passed {
        score := score.(earned := score.earned + weight, passed := score.passed + 1);
      }
      groups := if k < |groups| then groups[k := Group(LabelOf(r), score)] else groups + [Group(LabelOf(r), score)];
    }
    assert results[..|results|] == results;
    w := Weighed(earnedWeight, totalWeight, groups);
  }

  lemma NothingWeighed()
    ensures GroupsOf([]) == [] && Tally([], None) == ZERO
  {
  }

  lemma WorthSays(r: CaseResult)
    ensures Worth(r) ==
            Score(if r.passed then WeightOf(r.weight) else 0.0, WeightOf(r.weight), if r.passed then 1 else 0, 1)
  {
  }

  /** Where a key sits in the map, or its size when it is not there. */
  function GroupIndex(groups: seq<Group>, key: string): (k: nat)
    ensures k <= |groups|
    ensures k < |groups| ==> groups[k].groupLabel == key
    ensures forall i :: 0 <= i < k ==> groups[i].groupLabel != key
  {
    if groups == [] || groups[0].groupLabel == key then 0 else 1 + GroupIndex(groups[1..], key)
  }

  lemma IndexAmongLabels(results: seq<CaseResult>, key: string, k: nat)
    requires k == GroupIndex(GroupsOf(results), key)
    ensures k == |GroupsOf(results)| ==> key !in LabelsOf(results)
  {
  }

  // ---------------------------------------------------------------------------
  // Conservation
  // ---------------------------------------------------------------------------

  function SumGroups(groups: seq<Group>): Score {
    if groups == [] then ZERO else Plus(SumGroups(groups[..|groups| - 1]), groups[|groups| - 1].score)
  }

  function SumUnder(results: seq<CaseResult>, labels: seq<string>): Score {
    if labels == [] then ZERO
    else Plus(SumUnder(results, labels[..|labels| - 1]), Tally(results, Some(labels[|labels| - 1])))
  }

  lemma {:induction false} SumsAreGroups(results: seq<CaseResult>, n: nat)
    requires n <= |LabelsOf(results)|
    ensures SumGroups(GroupsOf(results)[..n]) == SumUnder(results, LabelsOf(results)[..n])
  {
    hide LabelsOf, Tally;
    if n == 0 {
    } else {
      SumsAreGroups(results, n - 1);
      assert GroupsOf(results)[..n][..n - 1] == GroupsOf(results)[..n - 1];
      assert LabelsOf(results)[..n][..n - 1] == LabelsOf(results)[..n - 1];
    }
  }

  lemma NothingUnder(under: Option<string>)
    ensures Tally([], under) == ZERO
  {
  }

  lemma {:induction false} SumUnderNothing(keys: seq<string>)
    ensures SumUnder([], keys) == ZERO
  {
    hide Tally, Plus;
    if keys == [] {
    } else {
      SumUnderNothing(keys[..|keys| - 1]);
      NothingUnder(Some(keys[|keys| - 1]));
      PlusZero(ZERO);
    }
  }

  lemma PlusZero(a: Score)
    ensures Plus(a, ZERO) == a
  {
  }

  /** One more result adds its worth once if its label is among distinct labels, and else not at all. */
  lemma {:induction false} SumUnderSnoc(front: seq<CaseResult>, last: CaseResult, labels: seq<string>)
    requires Distinct(labels)
    ensures SumUnder(front + [last], labels) ==
            if LabelOf(last) in labels then Plus(SumUnder(front, labels), Worth(last)) else SumUnder(front, labels)
  {
    hide Tally, Worth;
    if labels == [] {
    } else {
      var labels', key := labels[..|labels| - 1], labels[|labels| - 1];
      assert labels == labels' + [key];
      SumUnderSnoc(front, last, labels');
      TallySnoc(front, last, Some(key));
      assert key !in labels';
    }
  }

  lemma {:induction false} AllUnder(results: seq<CaseResult>, labels: seq<string>)
    requires Distinct(labels) && forall i :: 0 <= i < |results| ==> LabelOf(results[i]) in labels
    ensures SumUnder(results, labels) == Tally(results, None)
  {
    hide Tally, SumUnder, Distinct, Worth;
    if results == [] {
      SumUnderNothing(labels);
      NothingWeighed();
    } else {
      var front, last := results[..|results| - 1], results[|results| - 1];
      assert results == front + [last];
      AllUnder(front, labels);
      SumUnderSnoc(front, last, labels);
      TallySnoc(front, last, None);
    }
  }

  /** The rubric's groups have distinct labels and add up to the whole. */
  lemma GroupsConserve(results: seq<CaseResult>)
    ensures forall i, j :: 0 <= i < j < |GroupsOf(results)| ==>
              GroupsOf(results)[i].groupLabel != GroupsOf(results)[j].groupLabel
    ensures SumGroups(GroupsOf(results)) == Tally(results, None)
  {
    hide Tally, LabelsOf, SumGroups, SumUnder;
    var labels := LabelsOf(results);
    LabelsShape(results);
    SumsAreGroups(results, |labels|);
    assert GroupsOf(results)[..|labels|] == GroupsOf(results);
    assert labels[..|labels|] == labels;
    AllUnder(results, labels);
  }

  lemma {:induction false} TallyWithout(results: seq<CaseResult>, i: nat, under: Option<string>)
    requires i < |results|
    ensures Tally(results, under) ==
            Plus(Tally(Counting.Without(results, i), under),
                 if under.None? || under.value == LabelOf(results[i]) then Worth(results[i]) else ZERO)
  {
    hide Tally, Worth;
    var front, last := results[..|results| - 1], results[|results| - 1];
    assert results == front + [last];
    TallySnoc(front, last, under);
    if i == |results| - 1 {
      assert Counting.Without(results, i) == front;
    } else {
      TallyWithout(front, i, under);
      TallySnoc(Counting.Without(front, i), last, under);
      assert Counting.Without(results, i) == Counting.Without(front, i) + [last];
    }
  }

  /** Reordering the results changes no total and no group's score. */
  lemma {:induction false} OrderDoesNotMatter(a: seq<CaseResult>, b: seq<CaseResult>, under: Option<string>)
    requires multiset(a) == multiset(b)
    ensures Tally(a, under) == Tally(b, under)
  {
    hide Counting.Without, Worth, Tally;
    if a == [] {
      assert |b| == |multiset(b)| == 0;
    } else {
      var front, last := a[..|a| - 1], a[|a| - 1];
      assert a == front + [last];
      var i := Counting.MatchLast(a, b);
      TallyWithout(b, i, under);
      TallySnoc(front, last, under);
      OrderDoesNotMatter(front, Counting.Without(b, i), under);
    }
  }

  /** With unit weights the weighted score is the count it replaces. */
  lemma {:induction false} UnitWeights(results: seq<CaseResult>, under: Option<string>)
    requires forall i :: 0 <= i < |results| ==> WeightOf(results[i].weight) == 1.0
    ensures Tally(results, under).earned == Tally(results, under).passed as real
    ensures Tally(results, under).total == Tally(results, under).count as real
  {
    if results == [] {
    } else {
      UnitWeights(results[..|results| - 1], under);
    }
  }

  lemma {:induction false} EarnedWithinTotal(results: seq<CaseResult>, under: Option<string>)
    ensures 0.0 <= Tally(results, under).earned <= Tally(results, under).total
    ensures Tally(results, under).passed <= Tally(results, under).count <= |results|
    ensures under.None? ==> Tally(results, under).count == |results|
  {
    if results == [] {
    } else {
      EarnedWithinTotal(results[..|results| - 1], under);
    }
  }

  // ---------------------------------------------------------------------------
  // Running all test cases
  // ---------------------------------------------------------------------------

  /** The first thing that went wrong. */
  function Summarize(results: seq<CaseResult>, compileError: bool): Verdict {
    if compileError then CompileError
    else if results == [] then Accepted
    else if results[0].verdict != Accepted then results[0].verdict
    else Summarize(results[1..], false)
  }

  lemma {:induction false} SummaryIsFirstFailure(results: seq<CaseResult>, k: nat)
    requires k < |results| && results[k].verdict != Accepted
    requires forall i :: 0 <= i < k ==> results[i].verdict == Accepted
    ensures Summarize(results, false) == results[k].verdict
  {
    if k > 0 {
      SummaryIsFirstFailure(results[1..], k - 1);
    }
  }

  lemma {:induction false} SummaryAccepts(results: seq<CaseResult>)
    ensures Summarize(results, false) == Accepted <==> forall i :: 0 <= i < |results| ==> results[i].verdict == Accepted
  {
    if results == [] {
    } else {
      SummaryAccepts(results[1..]);
      assert forall i :: 1 <= i < |results| ==> results[i] == results[1..][i - 1];
    }
  }

  /** The problem's own checker and configuration. */
  datatype Settings = Settings(checker: Option<Kind>, config: Option<Config>)

  datatype Report = Report(
    results: seq<CaseResult>, passedCount: nat, totalCount: nat,
    earnedWeight: real, totalWeight: real, groups: seq<Group>, compileError: bool, verdict: Verdict)

  function ResultFor(tc: TestCase, verdict: Verdict): CaseResult {
    CaseResult(tc.id, verdict == Accepted, verdict, Some(Finite(WeightOf(tc.weight))),
               Some(if tc.groupLabel.Some? then tc.groupLabel.value else ""))
  }

  /** The run was clean and the case's own checker accepts what it printed. */
  predicate Deserves(tc: TestCase, settings: Settings, host: Host, r: RunResult) {
    RanCleanly(r) && IsRight(tc, settings, host, r)
  }

  /** The case's own checker accepts what the run printed. */
  predicate IsRight(tc: TestCase, settings: Settings, host: Host, r: RunResult) {
    var judge := CheckerFor(tc, settings.checker, settings.config);
    Accepts(judge.checker, host, ToleranceOf(judge.config), r.stdout, tc.expected)
  }

  /** The verdict is the gravest thing to be said of the run. */
  predicate IsVerdictOf(v: Verdict, tc: TestCase, settings: Settings, host: Host, r: RunResult) {
    HasFault(v, r, IsRight(tc, settings, host, r)) && !HasWorse(v, r)
  }

  /** What a paper of test cases is worth, whatever happens to the submission. */
  function CaseWeights(cases: seq<TestCase>): real {
    if cases == [] then 0.0 else CaseWeights(cases[..|cases| - 1]) + WeightOf(cases[|cases| - 1].weight)
  }

  function CountPassed(results: seq<CaseResult>): nat {
    if results == [] then 0
    else CountPassed(results[..|results| - 1]) + if results[|results| - 1].passed then 1 else 0
  }

  lemma {:induction false} PassedIsTallied(results: seq<CaseResult>)
    ensures Tally(results, None).passed == CountPassed(results) <= |results|
    ensures CountPassed(results) == |results| <==> forall i :: 0 <= i < |results| ==> results[i].passed
  {
    if results == [] {
    } else {
      PassedIsTallied(results[..|results| - 1]);
    }
  }

  /** These are the results of these cases, in order, each carrying its case's weight and label. */
  ghost predicate ResultsFor(results: seq<CaseResult>, cases: seq<TestCase>) {
    |results| == |cases| &&
    forall i :: 0 <= i < |cases| ==> results[i] == ResultFor(cases[i], results[i].verdict)
  }

  lemma {:induction false} SameTotal(results: seq<CaseResult>, cases: seq<TestCase>)
    requires ResultsFor(results, cases)
    ensures Tally(results, None).total == CaseWeights(cases)
  {
    if results == [] {
    } else {
      SameTotal(results[..|results| - 1], cases[..|cases| - 1]);
    }
  }

  lemma AcceptedWhenAllPassed(results: seq<CaseResult>, cases: seq<TestCase>)
    requires ResultsFor(results, cases)
    ensures Summarize(results, false) == Accepted <==> CountPassed(results) == |cases|
  {
    hide Summarize, CountPassed;
    SummaryAccepts(results);
    PassedIsTallied(results);
    forall i | 0 <= i < |results| ensures results[i].passed <==> results[i].verdict == Accepted {
      assert results[i] == ResultFor(cases[i], results[i].verdict);
    }
  }

  /**
   * Grades a submission: the total worth is the same whether or not it compiles, a case is passed
   * exactly when its run deserves it, and without a compile error the submission is accepted
   * exactly when every case is passed.
   */
  method RunTestCases(cases: seq<TestCase>, settings: Settings, host: Host, compiles: bool, run: nat -> RunResult)
    returns (report: Report)
    ensures ResultsFor(report.results, cases)
    ensures forall i :: 0 <= i < |cases| ==>
              (report.results[i].passed <==> compiles && Deserves(cases[i], settings, host, run(i)))
    ensures forall i :: 0 <= i < |cases| ==>
              if compiles then IsVerdictOf(report.results[i].verdict, cases[i], settings, host, run(i))
              else report.results[i].verdict == CompileError
    ensures report.passedCount == CountPassed(report.results) && report.totalCount == |cases|
    ensures report.totalWeight == CaseWeights(cases)
    ensures report.earnedWeight == Tally(report.results, None).earned
    ensures report.groups == if compiles then GroupsOf(report.results) else []
    ensures report.compileError == !compiles
    ensures !compiles ==> report.verdict == CompileError && report.passedCount == 0 && report.earnedWeight == 0.0
    ensures compiles ==> (report.verdict == Accepted <==> report.passedCount == report.totalCount)
  {
    hide Accepts, Tally, CountPassed, GroupsOf, Summarize, Classify, HasFault, HasWorse, RanCleanly;
    var results: seq<CaseResult> := [];
    if !compiles {
      var totalWeight := 0.0;
      for n := 0 to |cases|
        invariant ResultsFor(results, cases[..n])
        invariant forall i :: 0 <= i < n ==> results[i].verdict == CompileError
        invariant totalWeight == CaseWeights(cases[..n])
      {
        assert cases[..n + 1][..n] == cases[..n];
        results := results + [ResultFor(cases[n], CompileError)];
        totalWeight := totalWeight + WeightOf(cases[n].weight);
      }
      assert cases[..|cases|] == cases;
      NothingPassed(results);
      return Report(results, 0, |cases|, 0.0, totalWeight, [], true, CompileError);
    }
    for n := 0 to |cases|
      invariant ResultsFor(results, cases[..n])
      invariant forall i :: 0 <= i < n ==> (results[i].passed <==> Deserves(cases[i], settings, host, run(i)))
      invariant forall i :: 0 <= i < n ==> IsVerdictOf(results[i].verdict, cases[i], settings, host, run(i))
    {
      var r := run(n);
      var judge := CheckerFor(cases[n], settings.checker, settings.config);
      var passed := Check(judge.checker, host, ToleranceOf(judge.config), r.stdout, cases[n].expected);
      VerdictIsGravest(r, passed, Classify(r, passed));
      AcceptedWhenClean(r, passed);
      results := results + [ResultFor(cases[n], Classify(r, passed))];
    }
    assert cases[..|cases|] == cases;
    var weighed := Weigh(results);
    SameTotal(results, cases);
    AcceptedWhenAllPassed(results, cases);
    report := Report(results, CountPassed(results), |cases|, weighed.earnedWeight, weighed.totalWeight,
                     weighed.groups, false, Summarize(results, false));
  }

  lemma {:induction false} NothingPassed(results: seq<CaseResult>)
    requires forall i :: 0 <= i < |results| ==> !results[i].passed
    ensures CountPassed(results) == 0 && Tally(results, None).earned == 0.0
  {
    if results == [] {
    } else {
      NothingPassed(results[..|results| - 1]);
    }
  }
}
