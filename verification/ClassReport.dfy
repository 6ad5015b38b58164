/** The pairwise report over a class, and the baseline that keeps it from flagging everybody. */
module ClassReport {
  import opened Text
  import opened Keywords
  import opened Sorting
  import opened Counting
  import opened Tokenizer
  import opened Winnowing
  import opened Similarity

  datatype Submission = Submission(submissionId: int, userId: int, userName: string, language: Language, code: Text)

  datatype Pair = Pair(
    submissionIdA: int, submissionIdB: int, userIdA: int, userIdB: int, userNameA: string, userNameB: string,
    similarity: real, percentA: real, percentB: real, isNotable: bool)

  const ABSOLUTE_FLOOR: real := 60.0
  const MARGIN_OVER_BASELINE: real := 20.0

  /** `Math.round(x * 10) / 10` in exact arithmetic. */
  function Round1(x: real): real {
    (x * 10.0 + 0.5).Floor as real / 10.0
  }

  function Identity(x: real): real {
    x
  }

  function Median(values: seq<real>): real {
    if values == [] then 0.0
    else
      var sorted := SortBy(values, Identity);
      var mid := |sorted| / 2;
      if |sorted| % 2 == 1 then sorted[mid] else (sorted[mid - 1] + sorted[mid]) / 2.0
  }

  /** The lower half of the sorted values, or all but the upper half, lies at or below the median. */
  lemma NotAboveMedian(sorted: seq<real>, m: real, k: nat)
    requires SortedBy(sorted, Identity) && 0 < k <= |sorted|
    requires sorted[k - 1] <= m
    ensures CountBy(sorted, v => v > m) <= |sorted| - k
  {
    forall i | 0 <= i < k ensures sorted[i] <= m {
      assert i < k - 1 ==> Identity(sorted[i]) <= Identity(sorted[k - 1]);
    }
    CountSkipping(sorted, v => v > m, k);
  }

  /** At most half of the values lie above the median. */
  lemma MedianSplits(values: seq<real>)
    ensures 2 * CountBy(values, v => v > Median(values)) <= |values|
  {
    hide SortBy, CountBy, Median, SortedBy;
    var m := Median(values);
    var above := (v: real) => v > Median(values);
    assert above == (v => v > m);
    var sorted := SortBy(values, Identity);
    SortBySorted(values, Identity);
    CountPermuted(values, sorted, above);
    if sorted != [] {
      MedianAt(values);
      NotAboveMedian(sorted, m, (|sorted| - 1) / 2 + 1);
    }
  }

  /** The upper end of the lower half of the sorted values lies at or below the median. */
  lemma MedianAt(values: seq<real>)
    requires values != []
    ensures SortBy(values, Identity)[(|values| - 1) / 2] <= Median(values)
  {
    hide SortBy, SortedBy;
    var sorted := SortBy(values, Identity);
    SortBySorted(values, Identity);
    var mid := |sorted| / 2;
    if |sorted| % 2 == 0 {
      InOrder(sorted, mid - 1, mid);
      Midpoint(sorted[mid - 1], sorted[mid]);
    }
  }

  lemma InOrder(sorted: seq<real>, i: nat, j: nat)
    requires SortedBy(sorted, Identity) && i < j < |sorted|
    ensures sorted[i] <= sorted[j]
  {
    assert Identity(sorted[i]) <= Identity(sorted[j]);
  }

  lemma Midpoint(x: real, y: real)
    requires x <= y
    ensures x <= (x + y) / 2.0
  {
  }

  lemma MedianOfEqual(values: seq<real>, v: real)
    requires values != [] && forall i :: 0 <= i < |values| ==> values[i] == v
    ensures Median(values) == v
  {
    var sorted := SortBy(values, Identity);
    forall i | 0 <= i < |sorted| ensures sorted[i] == v {
      assert sorted[i] in multiset(sorted);
      assert sorted[i] in values;
    }
  }

  /** Fewer than `k + 1` values lie below `x` and fewer than `n - k` above it: `x` has rank `k`. */
  ghost predicate HasRank(values: seq<real>, k: nat, x: real) {
    x in values && CountBy(values, v => v < x) <= k && CountBy(values, v => v > x) + k < |values|
  }

  lemma SortedRank(values: seq<real>, k: nat)
    requires k < |values|
    ensures HasRank(values, k, SortBy(values, Identity)[k])
  {
    hide SortBy, CountBy, SortedBy;
    var sorted := SortBy(values, Identity);
    var x := sorted[k];
    var below, above := (v: real) => v < x, (v: real) => v > x;
    SortBySorted(values, Identity);
    CountPermuted(values, sorted, below);
    CountPermuted(values, sorted, above);
    assert x in multiset(sorted);
    RankBounds(sorted, k, below, above);
    assert below == (v => v < sorted[k]) && above == (v => v > sorted[k]);
  }

  lemma RankBounds(sorted: seq<real>, k: nat, below: real -> bool, above: real -> bool)
    requires SortedBy(sorted, Identity) && k < |sorted|
    requires forall v :: (below(v) <==> v < sorted[k]) && (above(v) <==> v > sorted[k])
    ensures CountBy(sorted, below) <= k && CountBy(sorted, above) + k < |sorted|
  {
    hide CountBy;
    forall i | 0 <= i < |sorted| ensures i <= k ==> sorted[i] <= sorted[k] ensures i >= k ==> sorted[k] <= sorted[i] {
      if i < k {
        InOrder(sorted, i, k);
      } else if i > k {
        InOrder(sorted, k, i);
      }
    }
    CountSkipping(sorted, above, k + 1);
    assert sorted == sorted[..k] + sorted[k..];
    CountConcat(sorted[..k], sorted[k..], below);
    CountSkipping(sorted[k..], below, |sorted| - k);
  }

  lemma {:induction false} CountRest(values: seq<real>, x: real, y: real)
    requires x < y
    ensures CountBy(values, v => v < y) + CountBy(values, v => v > x) >= |values|
  {
    if values == [] {
    } else {
      CountRest(values[1..], x, y);
    }
  }

  /** Only one value has a given rank. */
  lemma RankIsUnique(values: seq<real>, k: nat, x: real, y: real)
    requires HasRank(values, k, x) && HasRank(values, k, y)
    ensures x == y
  {
    hide CountBy;
    if x < y {
      CountRest(values, x, y);
    } else if y < x {
      CountRest(values, y, x);
    }
  }

  lemma MedianIsMiddle(values: seq<real>)
    requires values != []
    ensures var sorted := SortBy(values, Identity);
            Median(values) == (sorted[(|values| - 1) / 2] + sorted[|values| / 2]) / 2.0
  {
    hide SortBy;
    if |values| % 2 == 1 {
      assert (|values| - 1) / 2 == |values| / 2;
    } else {
      assert (|values| - 1) / 2 == |values| / 2 - 1;
    }
  }

  /** Halfway between the two middle values, which are one for an odd number of them; 0 for none. */
  lemma MedianExact(values: seq<real>) returns (lo: real, hi: real)
    ensures values == [] ==> Median(values) == 0.0
    ensures values != [] ==>
              HasRank(values, (|values| - 1) / 2, lo) && HasRank(values, |values| / 2, hi) &&
              Median(values) == (lo + hi) / 2.0
  {
    lo, hi := 0.0, 0.0;
    if values != [] {
      hide SortBy, HasRank, Median;
      var sorted := SortBy(values, Identity);
      SortedRank(values, (|values| - 1) / 2);
      SortedRank(values, |values| / 2);
      MedianIsMiddle(values);
      lo, hi := sorted[(|values| - 1) / 2], sorted[|values| / 2];
    }
  }

  // ---------------------------------------------------------------------------
  // The pairs
  // ---------------------------------------------------------------------------

  ghost function PrintsOf(s: Submission): seq<Gram> {
    Fingerprints(Tokens(s.code, s.language), K_GRAM_SIZE, WINDOW_SIZE)
  }

  function PairFor(a: Submission, b: Submission, cmp: Comparison): Pair {
    Pair(a.submissionId, b.submissionId, a.userId, b.userId, a.userName, b.userName,
         Round1(cmp.similarity), Round1(cmp.percentA), Round1(cmp.percentB), false)
  }

  ghost function PairOf(s: seq<Submission>, i: nat, j: nat): Pair
    requires i < |s| && j < |s|
  {
    PairFor(s[i], s[j], CompareFingerprints(PrintsOf(s[i]), PrintsOf(s[j])))
  }

  /** The pairs of submission `i` with those after it and before `n`. */
  ghost function Row(s: seq<Submission>, i: nat, n: nat): seq<Pair>
    requires i < n <= |s|
    decreases n
  {
    if n == i + 1 then [] else Row(s, i, n - 1) + [PairOf(s, i, n - 1)]
  }

  ghost function Rows(s: seq<Submission>, n: nat): seq<Pair>
    requires n <= |s|
  {
    if n == 0 then [] else Rows(s, n - 1) + Row(s, n - 1, |s|)
  }

  /** Between the submissions with these two ids, in either order. */
  predicate Links(p: Pair, x: int, y: int) {
    (p.submissionIdA == x && p.submissionIdB == y) || (p.submissionIdA == y && p.submissionIdB == x)
  }

  predicate DistinctIds(s: seq<Submission>) {
    forall i, j :: 0 <= i < j < |s| ==> s[i].submissionId != s[j].submissionId
  }

  lemma {:induction false} RowLinks(s: seq<Submission>, r: nat, n: nat, i: nat, j: nat)
    requires DistinctIds(s) && r < n <= |s| && i < j < |s|
    ensures CountBy(Row(s, r, n), (p: Pair) => Links(p, s[i].submissionId, s[j].submissionId))
         == if r == i && j < n then 1 else 0
    decreases n
  {
    hide PairOf;
    var links := (p: Pair) => Links(p, s[i].submissionId, s[j].submissionId);
    if n == r + 1 {
    } else {
      RowLinks(s, r, n - 1, i, j);
      var p := PairOf(s, r, n - 1);
      CountConcat(Row(s, r, n - 1), [p], links);
      PairIds(s, r, n - 1);
      assert links(p) <==> r == i && n - 1 == j;
    }
  }

  lemma PairIds(s: seq<Submission>, i: nat, j: nat)
    requires i < |s| && j < |s|
    ensures PairOf(s, i, j).submissionIdA == s[i].submissionId
    ensures PairOf(s, i, j).submissionIdB == s[j].submissionId
  {
  }

  lemma {:induction false} RowsLink(s: seq<Submission>, n: nat, i: nat, j: nat)
    requires DistinctIds(s) && n <= |s| && i < j < |s|
    ensures CountBy(Rows(s, n), (p: Pair) => Links(p, s[i].submissionId, s[j].submissionId))
         == if i < n then 1 else 0
  {
    hide Row;
    var links := (p: Pair) => Links(p, s[i].submissionId, s[j].submissionId);
    if n == 0 {
    } else {
      RowsLink(s, n - 1, i, j);
      RowLinks(s, n - 1, |s|, i, j);
      CountConcat(Rows(s, n - 1), Row(s, n - 1, |s|), links);
    }
  }

  lemma {:induction false} RowSize(s: seq<Submission>, i: nat, n: nat)
    requires i < n <= |s|
    ensures |Row(s, i, n)| == n - i - 1
    decreases n
  {
    hide PairOf;
    if n == i + 1 {
    } else {
      RowSize(s, i, n - 1);
    }
  }

  lemma {:induction false} RowsSize(s: seq<Submission>, n: nat)
    requires n <= |s|
    ensures 2 * |Rows(s, n)| == n * (2 * |s| - n - 1)
  {
    hide Row;
    if n == 0 {
    } else {
      RowsSize(s, n - 1);
      RowSize(s, n - 1, |s|);
      var m := 2 * |s| - n - 1;
      assert (n - 1) * (m + 1) + 2 * (|s| - n) == n * m;
    }
  }

  // ---------------------------------------------------------------------------
  // The report
  // ---------------------------------------------------------------------------

  function Similarities(pairs: seq<Pair>): (r: seq<real>)
    ensures |r| == |pairs|
    ensures forall i :: 0 <= i < |pairs| ==> r[i] == pairs[i].similarity
  {
    seq(|pairs|, i requires 0 <= i < |pairs| => pairs[i].similarity)
  }

  predicate Notable(p: Pair, baseline: real) {
    p.similarity >= ABSOLUTE_FLOOR && p.similarity >= baseline + MARGIN_OVER_BASELINE
  }

  function Marked(pairs: seq<Pair>, baseline: real): (r: seq<Pair>)
    ensures |r| == |pairs|
  {
    seq(|pairs|, i requires 0 <= i < |pairs| => pairs[i].(isNotable := Notable(pairs[i], baseline)))
  }

  function Falling(p: Pair): real {
    -p.similarity
  }

  /** The whole report, before its baseline is rounded for display. */
  ghost function Report(s: seq<Submission>): (r: seq<Pair>) {
    var pairs := Rows(s, |s|);
    SortBy(Marked(pairs, Median(Similarities(pairs))), Falling)
  }

  method ComputeClassReport(submissions: seq<Submission>) returns (baseline: real, pairs: seq<Pair>)
    ensures pairs == Report(submissions)
    ensures baseline == Round1(Median(Similarities(Rows(submissions, |submissions|))))
  {
    hide CompareFingerprints, PrintsOf, Marked, Similarities;
    var prints: seq<seq<Gram>> := [];
    for i := 0 to |submissions|
      invariant |prints| == i
      invariant forall j :: 0 <= j < i ==> prints[j] == PrintsOf(submissions[j])
    {
      var fingerprints := Print(submissions[i]);
      prints := prints + [fingerprints];
    }
    pairs := [];
    for i := 0 to |submissions|
      invariant pairs == Rows(submissions, i)
    {
      for j := i + 1 to |submissions|
        invariant pairs == Rows(submissions, i) + Row(submissions, i, j)
      {
        var cmp := CompareFingerprints(prints[i], prints[j]);
        pairs := pairs + [PairFor(submissions[i], submissions[j], cmp)];
      }
    }
    baseline := Median(Similarities(pairs));
    pairs := MarkNotable(pairs, baseline);
    pairs := SortBy(pairs, Falling);
    baseline := Round1(baseline);
  }

  method Print(s: Submission) returns (fingerprints: seq<Gram>)
    ensures fingerprints == PrintsOf(s)
  {
    var tokenCount;
    tokenCount, fingerprints := ComputeFingerprint(s.code, s.language);
  }

  /** The marking loop, one pair after another in place. */
  method MarkNotable(pairs: seq<Pair>, baseline: real) returns (marked: seq<Pair>)
    ensures marked == Marked(pairs, baseline)
  {
    marked := pairs;
    for i := 0 to |pairs|
      invariant |marked| == |pairs|
      invariant forall j :: 0 <= j < |pairs| ==>
                  marked[j] == if j < i then Marked(pairs, baseline)[j] else pairs[j]
    {
      var p := marked[i];
      marked := marked[i := p.(isNotable :=
        p.similarity >= ABSOLUTE_FLOOR && p.similarity >= baseline + MARGIN_OVER_BASELINE)];
    }
  }

  /** Every unordered pair of submissions appears exactly once, and nothing else does. */
  lemma EachPairOnce(s: seq<Submission>, i: nat, j: nat)
    requires DistinctIds(s) && i < j < |s|
    ensures CountBy(Report(s), (p: Pair) => Links(p, s[i].submissionId, s[j].submissionId)) == 1
    ensures 2 * |Report(s)| == |s| * (|s| - 1)
  {
    hide Row, Rows;
    hide Median, CountBy, Notable;
    var links := (p: Pair) => Links(p, s[i].submissionId, s[j].submissionId);
    var pairs := Rows(s, |s|);
    var marked := Marked(pairs, Median(Similarities(pairs)));
    CountPermuted(marked, Report(s), links);
    CountMapped(marked, pairs, links, links);
    CountMapped(pairs, marked, links, links);
    RowsLink(s, |s|, i, j);
    RowsSize(s, |s|);
  }

  /** The report never marks more than half of all pairs. */
  lemma AtMostHalfNotable(s: seq<Submission>)
    ensures 2 * CountBy(Report(s), (p: Pair) => p.isNotable) <= |Report(s)|
  {
    hide Row, Rows, Median;
    var pairs := Rows(s, |s|);
    var values := Similarities(pairs);
    var m := Median(values);
    var marked := Marked(pairs, m);
    var notable, above := (p: Pair) => p.isNotable, (v: real) => v > m;
    CountPermuted(marked, Report(s), notable);
    CountMapped(marked, values, notable, above);
    MedianSplits(values);
  }

  /** When every pair scores the same, none is notable, however high the score. */
  lemma NoneNotableWhenEqual(s: seq<Submission>, v: real)
    requires forall p :: p in Report(s) ==> p.similarity == v
    ensures forall p :: p in Report(s) ==> !p.isNotable
  {
    hide Row, Rows, Median, SortBy;
    var pairs := Rows(s, |s|);
    var values := Similarities(pairs);
    var marked := Marked(pairs, Median(values));
    if pairs != [] {
      forall i | 0 <= i < |values| ensures values[i] == v {
        assert marked[i] in multiset(marked);
        assert marked[i] in Report(s);
      }
      MedianOfEqual(values, v);
    }
    forall p | p in Report(s) ensures !p.isNotable {
      assert p in multiset(Report(s));
      assert p in marked;
    }
  }

  /**
   * Highest similarity first; notable are exactly the pairs with at least 60 percent that lie at least
   * 20 above the median of all pairs.
   */
  lemma ReportShape(s: seq<Submission>)
    ensures forall i, j :: 0 <= i < j < |Report(s)| ==> Report(s)[i].similarity >= Report(s)[j].similarity
    ensures forall p :: p in Report(s) ==>
              (p.isNotable <==>
               p.similarity >= 60.0 && p.similarity >= Median(Similarities(Rows(s, |s|))) + 20.0)
  {
    hide Row, Rows;
    var pairs := Rows(s, |s|);
    var m := Median(Similarities(pairs));
    var marked := Marked(pairs, m);
    SortBySorted(marked, Falling);
    forall i, j | 0 <= i < j < |Report(s)| ensures Report(s)[i].similarity >= Report(s)[j].similarity {
      assert Falling(Report(s)[i]) <= Falling(Report(s)[j]);
    }
    forall p | p in Report(s) ensures p.isNotable <==> Notable(p, m) {
      assert p in multiset(Report(s));
      assert p in marked;
    }
  }

  // ---------------------------------------------------------------------------
  // What a line of the report says
  // ---------------------------------------------------------------------------

  /** The nearest tenth, halves up. */
  ghost predicate IsRounded(shown: real, exact: real) {
    shown - 0.05 <= exact < shown + 0.05 && (shown * 10.0).Floor as real == shown * 10.0
  }

  lemma Round1Rounds(x: real)
    ensures IsRounded(Round1(x), x)
  {
    var n := (x * 10.0 + 0.5).Floor;
    assert Round1(x) * 10.0 == n as real;
    assert n as real <= x * 10.0 + 0.5 < n as real + 1.0;
  }

  /** The line names these two submissions and their authors, and shows their comparison rounded. */
  ghost predicate Describes(p: Pair, a: Submission, b: Submission) {
    p.submissionIdA == a.submissionId && p.submissionIdB == b.submissionId &&
    p.userIdA == a.userId && p.userIdB == b.userId && p.userNameA == a.userName && p.userNameB == b.userName &&
    var cmp := CompareFingerprints(PrintsOf(a), PrintsOf(b));
    IsRounded(p.similarity, cmp.similarity) && IsRounded(p.percentA, cmp.percentA) &&
    IsRounded(p.percentB, cmp.percentB)
  }

  ghost predicate DescribesSome(p: Pair, s: seq<Submission>) {
    exists i, j :: 0 <= i < j < |s| && Describes(p, s[i], s[j])
  }

  lemma PairDescribes(s: seq<Submission>, i: nat, j: nat)
    requires i < j < |s|
    ensures DescribesSome(PairOf(s, i, j), s)
  {
    hide CompareFingerprints, PrintsOf, Round1, IsRounded;
    var cmp := CompareFingerprints(PrintsOf(s[i]), PrintsOf(s[j]));
    Round1Rounds(cmp.similarity);
    Round1Rounds(cmp.percentA);
    Round1Rounds(cmp.percentB);
    assert Describes(PairOf(s, i, j), s[i], s[j]);
  }

  lemma {:induction false} RowDescribes(s: seq<Submission>, i: nat, n: nat)
    requires i < n <= |s|
    ensures forall p :: p in Row(s, i, n) ==> DescribesSome(p, s)
    decreases n
  {
    hide DescribesSome, PairOf;
    if n > i + 1 {
      RowDescribes(s, i, n - 1);
      PairDescribes(s, i, n - 1);
    }
  }

  lemma {:induction false} RowsDescribe(s: seq<Submission>, n: nat)
    requires n <= |s|
    ensures forall p :: p in Rows(s, n) ==> DescribesSome(p, s)
  {
    hide DescribesSome, Row;
    if n > 0 {
      RowsDescribe(s, n - 1);
      RowDescribes(s, n - 1, |s|);
    }
  }

  lemma MarkingDescribes(p: Pair, s: seq<Submission>, notable: bool)
    requires DescribesSome(p, s)
    ensures DescribesSome(p.(isNotable := notable), s)
  {
    hide CompareFingerprints, PrintsOf, IsRounded;
    var i, j :| 0 <= i < j < |s| && Describes(p, s[i], s[j]);
    assert Describes(p.(isNotable := notable), s[i], s[j]);
  }

  /**
   * Every line of the report is about an earlier and a later submission: their ids, their authors, and
   * their similarity and shares to the nearest tenth.
   */
  lemma ReportDescribes(s: seq<Submission>)
    ensures forall p :: p in Report(s) ==> DescribesSome(p, s)
  {
    hide DescribesSome, Rows, Median, Notable;
    RowsDescribe(s, |s|);
    var pairs := Rows(s, |s|);
    var m := Median(Similarities(pairs));
    var marked := Marked(pairs, m);
    forall p | p in Report(s) ensures DescribesSome(p, s) {
      assert p in multiset(Report(s));
      assert p in marked;
      var i :| 0 <= i < |marked| && marked[i] == p;
      assert pairs[i] in pairs;
      MarkingDescribes(pairs[i], s, Notable(pairs[i], m));
    }
  }
}
