/**
 * When choosing the best attempt by cases passed also chooses the most weight: exactly when the
 * cases of the problem all weigh the same.
 */
module AttemptWeights {
  import opened Options
  import opened ExamModel
  import opened ExamResults
  import Grading

  /** What an attempt can come to: how many cases it passes, and the weight they carry. */
  datatype Pass = Pass(count: nat, weight: nat)

  /** A graded attempt that came to one of the possible results. */
  predicate IsGraded(row: Submission, possible: set<Pass>, total: nat) {
    row.earnedWeight.Some? && row.totalWeight == Some(total) && Pass(row.passed, row.earnedWeight.value) in possible
  }

  /** No list of attempts hides one that earned more weight than the automatic score shows. */
  ghost predicate NeverLoses(possible: set<Pass>, total: nat) {
    forall attempts: seq<Submission>, k: nat {:trigger attempts[k]} ::
      k < |attempts| && (forall i :: 0 <= i < |attempts| ==> IsGraded(attempts[i], possible, total)) ==>
        EarnedBy(attempts[k]) <= MarkOf(attempts, None).autoScore
  }

  /** Passing at least as many cases never means earning less. */
  predicate Monotone(possible: set<Pass>) {
    forall a, b :: a in possible && b in possible && a.count <= b.count ==> a.weight <= b.weight
  }

  function RowFor(o: Pass, total: nat): Submission {
    Submission(0, 0, 0, None, false, 0, 0, Completed, o.count, 0, Some(o.weight), Some(total))
  }

  /** An attempt that passes as many cases with more weight loses to one made before it. */
  lemma LosesWhenNotMonotone(a: Pass, b: Pass, total: nat)
    requires total > 0 && a.count <= b.count && a.weight > b.weight
    ensures MarkOf([RowFor(b, total), RowFor(a, total)], None).autoScore < EarnedBy(RowFor(a, total))
  {
    hide MaxPassed, MaxTotal, Penalised;
    var list := [RowFor(b, total), RowFor(a, total)];
    assert IsFirstBest(list, 0);
    BestIsUnique(list, 0);
  }

  /** For every set of results a problem's attempts can come to. */
  lemma NeverLosesExactlyWhen(possible: set<Pass>, total: nat)
    requires total > 0
    ensures NeverLoses(possible, total) <==> Monotone(possible)
  {
    hide MarkOf;
    if Monotone(possible) {
      forall attempts: seq<Submission>, k: nat {:trigger attempts[k]} |
        k < |attempts| && forall i :: 0 <= i < |attempts| ==> IsGraded(attempts[i], possible, total)
        ensures EarnedBy(attempts[k]) <= MarkOf(attempts, None).autoScore
      {
        MostWeightWins(possible, total, attempts, k);
      }
    } else {
      var a, b :| a in possible && b in possible && a.count <= b.count && a.weight > b.weight;
      LosesWhenNotMonotone(a, b, total);
      var list := [RowFor(b, total), RowFor(a, total)];
      assert list[1] == RowFor(a, total);
    }
  }

  lemma MostWeightWins(possible: set<Pass>, total: nat, attempts: seq<Submission>, k: nat)
    requires total > 0 && Monotone(possible) && k < |attempts|
    requires forall i :: 0 <= i < |attempts| ==> IsGraded(attempts[i], possible, total)
    ensures EarnedBy(attempts[k]) <= MarkOf(attempts, None).autoScore
  {
    hide MarkOf, MaxPassed, Best;
    var i := BestIsFirstBest(attempts);
    assert IsGraded(attempts[i], possible, total);
    BestWeightWins(attempts, k);
  }

  // ---------------------------------------------------------------------------
  // The weights of a problem's cases
  // ---------------------------------------------------------------------------

  /** Every result the cases of a problem allow. */
  function PassesOf(weights: seq<nat>): set<Pass> {
    if weights == [] then {Pass(0, 0)}
    else OneMoreCase(PassesOf(weights[..|weights| - 1]), weights[|weights| - 1])
  }

  /** The further case is failed or passed. */
  function OneMoreCase(passes: set<Pass>, w: nat): set<Pass> {
    passes + set o | o in passes :: Pass(o.count + 1, o.weight + w)
  }

  lemma OneMoreCaseExact(passes: set<Pass>, w: nat, o: Pass)
    ensures o in OneMoreCase(passes, w) <==>
            o in passes || (o.count > 0 && o.weight >= w && Pass(o.count - 1, o.weight - w) in passes)
  {
    if o.count > 0 && o.weight >= w && Pass(o.count - 1, o.weight - w) in passes {
      var o' := Pass(o.count - 1, o.weight - w);
      assert o == Pass(o'.count + 1, o'.weight + w);
    }
  }

  function SumOf(weights: seq<nat>): nat {
    if weights == [] then 0 else SumOf(weights[..|weights| - 1]) + weights[|weights| - 1]
  }

  predicate AllEqual(weights: seq<nat>) {
    forall i, j :: 0 <= i < j < |weights| ==> weights[i] == weights[j]
  }

  lemma PassesSnoc(front: seq<nat>, w: nat, o: Pass)
    ensures o in PassesOf(front + [w]) <==>
            o in PassesOf(front) ||
            (o.count > 0 && o.weight >= w && Pass(o.count - 1, o.weight - w) in PassesOf(front))
  {
    hide OneMoreCase;
    assert (front + [w])[..|front|] == front;
    OneMoreCaseExact(PassesOf(front), w, o);
  }

  lemma {:induction false} NothingPassed(weights: seq<nat>)
    ensures Pass(0, 0) in PassesOf(weights)
  {
    if weights == [] {
    } else {
      hide PassesOf;
      var front, w := weights[..|weights| - 1], weights[|weights| - 1];
      assert weights == front + [w];
      NothingPassed(front);
      PassesSnoc(front, w, Pass(0, 0));
    }
  }

  lemma {:induction false} OnePassed(weights: seq<nat>, i: nat)
    requires i < |weights|
    ensures Pass(1, weights[i]) in PassesOf(weights)
  {
    hide PassesOf;
    var front, w := weights[..|weights| - 1], weights[|weights| - 1];
    assert weights == front + [w];
    PassesSnoc(front, w, Pass(1, weights[i]));
    if i < |front| {
      OnePassed(front, i);
    } else {
      NothingPassed(front);
    }
  }

  lemma {:induction false} EqualWeights(weights: seq<nat>, w: nat, o: Pass)
    requires (forall i :: 0 <= i < |weights| ==> weights[i] == w) && o in PassesOf(weights)
    ensures o.weight == o.count * w
  {
    hide PassesOf;
    if weights == [] {
      NoCases(o);
    } else {
      var front := weights[..|weights| - 1];
      assert weights == front + [w];
      PassesSnoc(front, w, o);
      if o in PassesOf(front) {
        EqualWeights(front, w, o);
      } else {
        var o' := Pass(o.count - 1, o.weight - w);
        EqualWeights(front, w, o');
        OneMoreTime(o'.count, w);
      }
    }
  }

  lemma OneMoreTime(n: nat, w: nat)
    ensures (n + 1) * w == n * w + w
  {
  }

  lemma MonotoneExactlyWhenEqual(weights: seq<nat>)
    ensures Monotone(PassesOf(weights)) <==> AllEqual(weights)
  {
    hide PassesOf;
    if Monotone(PassesOf(weights)) {
      forall i, j | 0 <= i < j < |weights| ensures weights[i] == weights[j] {
        OnePassed(weights, i);
        OnePassed(weights, j);
        assert Pass(1, weights[i]).count == Pass(1, weights[j]).count;
      }
    }
    if AllEqual(weights) {
      var w := if weights == [] then 0 else weights[0];
      forall a, b | a in PassesOf(weights) && b in PassesOf(weights) && a.count <= b.count
        ensures a.weight <= b.weight
      {
        EqualWeights(weights, w, a);
        EqualWeights(weights, w, b);
        Products(w, a.count, b.count);
      }
    }
  }

  /**
   * What a teacher can check before the exam: whatever is submitted, the automatic score is the
   * largest weight earned exactly when all cases of the problem weigh the same.
   */
  lemma BestWeightWinsExactlyWhen(weights: seq<nat>)
    requires SumOf(weights) > 0
    ensures NeverLoses(PassesOf(weights), SumOf(weights)) <==> AllEqual(weights)
  {
    hide NeverLoses, Monotone, PassesOf, AllEqual;
    NeverLosesExactlyWhen(PassesOf(weights), SumOf(weights));
    MonotoneExactlyWhenEqual(weights);
  }

  // ---------------------------------------------------------------------------
  // Those are the results grading can give
  // ---------------------------------------------------------------------------

  ghost predicate Weighs(results: seq<Grading.CaseResult>, weights: seq<nat>) {
    |results| == |weights| &&
    forall i :: 0 <= i < |weights| ==> Grading.WeightOf(results[i].weight) == weights[i] as real
  }

  /** Whatever cases pass, the score is one of the possible results, over the sum of the weights. */
  lemma {:induction false} GradingGives(results: seq<Grading.CaseResult>, weights: seq<nat>) returns (o: Pass)
    requires Weighs(results, weights)
    ensures o in PassesOf(weights) && ComesTo(results, weights, o)
  {
    hide PassesOf, Grading.Tally;
    if results == [] {
      o := Pass(0, 0);
      NothingPassed(weights);
      Grading.NothingWeighed();
    } else {
      var front, last := results[..|results| - 1], results[|results| - 1];
      var ws, w := weights[..|weights| - 1], weights[|weights| - 1];
      assert results == front + [last] && weights == ws + [w];
      var o' := GradingGives(front, ws);
      o := if last.passed then Pass(o'.count + 1, o'.weight + w) else o';
      PassesSnoc(ws, w, o);
      Grading.TallySnoc(front, last, None);
    }
  }

  /** The results are those of cases with these weights, and come to this. */
  ghost predicate ComesTo(results: seq<Grading.CaseResult>, weights: seq<nat>, o: Pass) {
    var score := Grading.Tally(results, None);
    Weighs(results, weights) &&
    score.passed == o.count && score.earned == o.weight as real && score.total == SumOf(weights) as real
  }

  lemma OneMoreResult(results: seq<Grading.CaseResult>, weights: seq<nat>, o: Pass, w: nat, passed: bool)
    requires ComesTo(results, weights, o)
    ensures ComesTo(results + [ResultWeighing(w, passed)], weights + [w],
                    if passed then Pass(o.count + 1, o.weight + w) else o)
  {
    hide Grading.Tally, Grading.WeightOf;
    Grading.TallySnoc(results, ResultWeighing(w, passed), None);
    assert (weights + [w])[..|weights|] == weights;
  }

  lemma NoCases(o: Pass)
    ensures o in PassesOf([]) <==> o == Pass(0, 0)
    ensures ComesTo([], [], Pass(0, 0))
  {
  }

  /** And each of them is the score of some outcome of the cases. */
  lemma {:induction false} GradingCanGive(weights: seq<nat>, o: Pass) returns (results: seq<Grading.CaseResult>)
    requires o in PassesOf(weights)
    ensures ComesTo(results, weights, o)
  {
    hide PassesOf, ComesTo, ResultWeighing;
    if weights == [] {
      results := [];
      NoCases(o);
    } else {
      var front, w := weights[..|weights| - 1], weights[|weights| - 1];
      assert weights == front + [w];
      PassesSnoc(front, w, o);
      var passed := o !in PassesOf(front);
      var o' := if passed then Pass(o.count - 1, o.weight - w) else o;
      var rest := GradingCanGive(front, o');
      OneMoreResult(rest, front, o', w, passed);
      results := rest + [ResultWeighing(w, passed)];
    }
  }

  function ResultWeighing(w: nat, passed: bool): (r: Grading.CaseResult)
    ensures Grading.WeightOf(r.weight) == w as real && r.passed == passed
  {
    Grading.CaseResult(0, passed, if passed then Grading.Accepted else Grading.WrongAnswer,
                       Some(Grading.Checker.Finite(w as real)), None)
  }
}
