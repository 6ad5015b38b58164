/**
 * pickRandom: a Fisher-Yates shuffle, cut and sorted. Its fairness is that choice vectors and
 * arrangements correspond one to one, that every subset of the size asked for is dealt, and that
 * any two of them are dealt by equally many choice vectors.
 */
module Dealing {
  import opened Lists
  import opened Sorting

  /** The draws of one shuffle: draw `i` picks a position in 0..i. */
  predicate IsChoice(js: seq<nat>, n: nat) {
    |js| == n && forall i :: 0 <= i < n ==> js[i] <= i
  }

  function Swap<T>(s: seq<T>, i: nat, j: nat): (t: seq<T>)
    requires i < |s| && j < |s|
    ensures |t| == |s|
  {
    s[i := s[j]][j := s[i]]
  }

  lemma SwapMultiset<T>(s: seq<T>, i: nat, j: nat)
    requires i < |s| && j < |s|
    ensures multiset(Swap(s, i, j)) == multiset(s)
  {
  }

  /** The swap loop from the last position down, on values. */
  function Shuffle<T>(s: seq<T>, js: seq<nat>): (t: seq<T>)
    requires IsChoice(js, |s|)
    ensures |t| == |s|
    decreases |s|
  {
    if |s| <= 1 then s
    else
      var i := |s| - 1;
      var t := Swap(s, i, js[i]);
      Shuffle(t[..i], js[..i]) + [t[i]]
  }

  /** `Array.prototype.slice(0, count)`: a negative count leaves off that many at the end. */
  function SliceTo<T>(s: seq<T>, count: int): seq<T> {
    if count < 0 then s[..if |s| + count < 0 then 0 else |s| + count]
    else s[..if count > |s| then |s| else count]
  }

  function AsReal(x: int): real {
    x as real
  }

  function Deal(items: seq<int>, count: int, js: seq<nat>): seq<int>
    requires IsChoice(js, |items|)
  {
    SortBy(SliceTo(Shuffle(items, js), count), AsReal)
  }

  /** The positions that `Math.floor(random() * (i + 1))` picks, from draws in [0, 1). */
  function ChoicesOf(draws: seq<real>, n: nat): (js: seq<nat>)
    requires |draws| + 1 >= n && forall i :: 0 <= i < |draws| ==> 0.0 <= draws[i] < 1.0
    ensures IsChoice(js, n)
  {
    seq(n, i requires 0 <= i < n => if i == 0 then 0 else PositionFor(draws[n - 1 - i], i))
  }

  lemma ChoiceAt(draws: seq<real>, n: nat, i: nat)
    requires |draws| + 1 >= n && forall i :: 0 <= i < |draws| ==> 0.0 <= draws[i] < 1.0
    requires 0 < i < n
    ensures ChoicesOf(draws, n)[i] == PositionFor(draws[n - 1 - i], i)
  {
  }

  function PositionFor(draw: real, i: nat): (j: nat)
    requires 0.0 <= draw < 1.0
    ensures j <= i
  {
    assert 0.0 <= draw * (i + 1) as real < (i + 1) as real by { Scaled(draw, (i + 1) as real); }
    (draw * (i + 1) as real).Floor
  }

  lemma Scaled(d: real, m: real)
    requires 0.0 <= d < 1.0 && m > 0.0
    ensures 0.0 <= d * m < m
  {
  }

  method PickRandom(items: seq<int>, count: int, draws: seq<real>) returns (chosen: seq<int>)
    requires |draws| + 1 >= |items| && forall i :: 0 <= i < |draws| ==> 0.0 <= draws[i] < 1.0
    ensures chosen == Deal(items, count, ChoicesOf(draws, |items|))
  {
    hide Shuffle, ChoicesOf, PositionFor, Swap, SliceTo, SortBy;
    ghost var js := ChoicesOf(draws, |items|);
    var n := |items|;
    var copy := new int[n](i requires 0 <= i < n => items[i]);
    var i := n - 1;
    WholeShuffle(items, copy[..], js);
    while i > 0
      invariant i < n && (n > 0 ==> i >= 0)
      invariant Shuffle(items, js) == Shuffle(copy[..][..i + 1], js[..i + 1]) + copy[..][i + 1..]
    {
      ghost var before := copy[..];
      var j := PositionFor(draws[n - 1 - i], i);
      copy[i], copy[j] := copy[j], copy[i];
      ChoiceAt(draws, n, i);
      SwapIs(before, copy[..], i, js[i]);
      ShuffleStep(before, js, i);
      i := i - 1;
    }
    ShuffleShort(copy[..][..i + 1], js[..i + 1]);
    assert copy[..][..i + 1] + copy[..][i + 1..] == copy[..];
    chosen := SortBy(SliceTo(copy[..], count), AsReal);
  }

  lemma SwapIs(before: seq<int>, after: seq<int>, i: nat, j: nat)
    requires i < |before| && j < |before| && |after| == |before|
    requires after[i] == before[j] && after[j] == before[i]
    requires forall k :: 0 <= k < |before| && k != i && k != j ==> after[k] == before[k]
    ensures after == Swap(before, i, j)
  {
  }

  lemma WholeShuffle(items: seq<int>, copy: seq<int>, js: seq<nat>)
    requires IsChoice(js, |items|) && copy == items
    ensures Shuffle(items, js) == Shuffle(copy[..|items|], js[..|items|]) + copy[|items|..]
  {
    assert copy[..|items|] == items && js[..|items|] == js && copy[|items|..] == [];
  }

  lemma ShuffleShort<T>(s: seq<T>, js: seq<nat>)
    requires IsChoice(js, |s|) && |s| <= 1
    ensures Shuffle(s, js) == s
  {
  }

  /** One turn of the loop settles position `i`. */
  lemma ShuffleStep(s: seq<int>, js: seq<nat>, i: nat)
    requires IsChoice(js, |s|) && 0 < i < |s|
    ensures var t := Swap(s, i, js[i]);
            Shuffle(s[..i + 1], js[..i + 1]) + s[i + 1..] == Shuffle(t[..i], js[..i]) + t[i..]
  {
    hide Shuffle;
    var t := Swap(s, i, js[i]);
    assert Swap(s[..i + 1], i, js[i]) == t[..i + 1] && js[..i + 1][..i] == js[..i];
    ShuffleUnfold(s[..i + 1], js[..i + 1]);
    assert t[..i + 1][..i] == t[..i] && t[i..] == [t[i]] + s[i + 1..];
  }

  /** The last position is settled by the first swap. */
  lemma ShuffleUnfold<T>(s: seq<T>, js: seq<nat>)
    requires IsChoice(js, |s|) && s != []
    ensures var i := |s| - 1;
            var t := Swap(s, i, js[i]);
            Shuffle(s, js) == Shuffle(t[..i], js[..i]) + [t[i]] && t[i] == s[js[i]]
  {
  }

  /**
   * Followed back through the swaps: whose item stands at position `q` before turn `i`, when the turns
   * run from the last position down. A turn puts the item of its own position where it drew from.
   */
  function Origin(js: seq<nat>, i: nat, q: nat): (r: nat)
    requires IsChoice(js, |js|) && q <= i < |js|
    ensures r < |js|
    decreases |js| - i
  {
    if i == |js| - 1 then q
    else if q == js[i + 1] then Origin(js, i + 1, i + 1)
    else Origin(js, i + 1, q)
  }

  lemma {:induction false} OriginFront(js: seq<nat>, i: nat, q: nat)
    requires IsChoice(js, |js|) && q <= i < |js| - 1
    ensures var n := |js| - 1;
            var r := Origin(js[..n], i, q);
            Origin(js, i, q) == if r == js[n] then n else r
    decreases |js| - i
  {
    var n := |js| - 1;
    if i < n - 1 {
      OriginFront(js, i + 1, if q == js[i + 1] then i + 1 else q);
    }
  }

  /** Position `p` ends up with the item that stood where its turn drew from. */
  lemma {:induction false} ShuffleTraces<T>(s: seq<T>, js: seq<nat>, p: nat)
    requires IsChoice(js, |s|) && p < |s|
    ensures Shuffle(s, js)[p] == s[Origin(js, p, js[p])]
    decreases |s|
  {
    hide Shuffle;
    var i := |s| - 1;
    var t := Swap(s, i, js[i]);
    ShuffleUnfold(s, js);
    if p < i {
      ShuffleTraces(t[..i], js[..i], p);
      OriginFront(js, p, js[p]);
    }
  }

  // ---------------------------------------------------------------------------
  // What is dealt
  // ---------------------------------------------------------------------------

  ghost predicate IsArrangement<T>(p: seq<T>, items: seq<T>) {
    multiset(p) == multiset(items)
  }

  lemma {:induction false} ShuffleIsArrangement<T>(s: seq<T>, js: seq<nat>)
    requires IsChoice(js, |s|)
    ensures IsArrangement(Shuffle(s, js), s)
    decreases |s|
  {
    hide Shuffle, Swap;
    if s == [] {
      ShuffleShort(s, js);
    } else {
      var i := |s| - 1;
      var t := Swap(s, i, js[i]);
      ShuffleUnfold(s, js);
      SwapMultiset(s, i, js[i]);
      ShuffleIsArrangement(t[..i], js[..i]);
      SplitLast(t);
    }
  }

  lemma SplitLast<T>(s: seq<T>)
    requires s != []
    ensures multiset(s) == multiset(s[..|s| - 1]) + multiset{s[|s| - 1]}
    ensures multiset(s[..|s| - 1]) == multiset(s) - multiset{s[|s| - 1]}
  {
    assert s == s[..|s| - 1] + [s[|s| - 1]];
  }

  lemma SwapLast<T>(s: seq<T>, j: nat)
    requires j < |s|
    ensures Swap(s, |s| - 1, j)[|s| - 1] == s[j]
  {
  }

  lemma TwiceThere<T>(t: seq<T>, i: nat, j: nat)
    requires i < j < |t| && t[i] == t[j]
    ensures multiset(t)[t[i]] >= 2
  {
    assert t == t[..i] + [t[i]] + t[i + 1..j] + [t[j]] + t[j + 1..];
  }

  lemma DistinctByMultiset<T>(s: seq<T>, t: seq<T>)
    requires Distinct(s) && IsArrangement(t, s)
    ensures Distinct(t)
  {
    forall i, j | 0 <= i < j < |t| ensures t[i] != t[j] {
      AtMostOnce(s, t[i]);
      if t[i] == t[j] {
        TwiceThere(t, i, j);
      }
    }
  }

  lemma {:induction false} AtMostOnce<T>(s: seq<T>, x: T)
    requires Distinct(s)
    ensures multiset(s)[x] <= 1
  {
    if s == [] {
    } else {
      AtMostOnce(s[1..], x);
      assert s == [s[0]] + s[1..];
      if s[0] == x {
        assert x !in s[1..];
        assert x !in multiset(s[1..]);
      }
    }
  }

  lemma DealWithinItems(items: seq<int>, count: int, js: seq<nat>)
    requires IsChoice(js, |items|)
    ensures forall x :: x in Deal(items, count, js) ==> x in items
  {
    var shuffled := Shuffle(items, js);
    ShuffleIsArrangement(items, js);
    forall x | x in Deal(items, count, js) ensures x in items {
      assert x in multiset(Deal(items, count, js));
      assert x in SliceTo(shuffled, count);
      assert x in multiset(shuffled);
    }
  }

  /** A deal from distinct items is increasing, of the size asked for, and drawn from the items. */
  lemma DealShape(items: seq<int>, count: int, js: seq<nat>)
    requires Distinct(items) && IsChoice(js, |items|)
    ensures var d := Deal(items, count, js);
            |d| == |SliceTo(items, count)| &&
            (forall i, j :: 0 <= i < j < |d| ==> d[i] < d[j]) &&
            (forall x :: x in d ==> x in items)
  {
    var shuffled := Shuffle(items, js);
    var cut := SliceTo(shuffled, count);
    var d := Deal(items, count, js);
    ShuffleIsArrangement(items, js);
    DistinctByMultiset(items, shuffled);
    SortBySorted(cut, AsReal);
    DistinctByMultiset(cut, d);
    forall i, j | 0 <= i < j < |d| ensures d[i] < d[j] {
      assert AsReal(d[i]) <= AsReal(d[j]);
    }
    DealWithinItems(items, count, js);
  }

  // ---------------------------------------------------------------------------
  // One choice vector for every arrangement
  // ---------------------------------------------------------------------------

  function IndexOf<T(==)>(s: seq<T>, x: T): (i: nat)
    requires x in s
    ensures i < |s| && s[i] == x
  {
    if s[0] == x then 0 else 1 + IndexOf(s[1..], x)
  }

  /** The draws that lead from `s` to the arrangement `p`. */
  function Unshuffle<T(==)>(s: seq<T>, p: seq<T>): (js: seq<nat>)
    requires IsArrangement(p, s)
    ensures IsChoice(js, |s|)
    decreases |s|
  {
    assert |p| == |multiset(p)| == |multiset(s)| == |s|;
    if s == [] then []
    else
      var i := |s| - 1;
      LastIsThere(s, p);
      var j := IndexOf(s, p[i]);
      UnshuffleStep(s, p, j);
      Unshuffle(Swap(s, i, j)[..i], p[..i]) + [j]
  }

  lemma LastIsThere<T>(s: seq<T>, p: seq<T>)
    requires IsArrangement(p, s) && s != []
    ensures |p| == |s| && p[|s| - 1] in s
  {
    assert |p| == |multiset(p)| == |multiset(s)| == |s|;
    assert p[|s| - 1] in multiset(s);
  }

  lemma UnshuffleStep<T>(s: seq<T>, p: seq<T>, j: nat)
    requires IsArrangement(p, s) && |p| == |s| > 0
    requires j < |s| && s[j] == p[|s| - 1]
    ensures IsArrangement(p[..|s| - 1], Swap(s, |s| - 1, j)[..|s| - 1])
  {
    hide Swap;
    var t := Swap(s, |s| - 1, j);
    SwapLast(s, j);
    SwapMultiset(s, |s| - 1, j);
    SplitLast(t);
    SplitLast(p);
  }

  lemma {:induction false} ShuffleUnshuffle<T>(s: seq<T>, p: seq<T>)
    requires IsArrangement(p, s)
    ensures Shuffle(s, Unshuffle(s, p)) == p
    decreases |s|
  {
    hide Shuffle, Swap;
    assert |p| == |multiset(p)| == |multiset(s)| == |s|;
    if s == [] {
      ShuffleShort(s, []);
    } else {
      var i := |s| - 1;
      LastIsThere(s, p);
      var j := IndexOf(s, p[i]);
      UnshuffleStep(s, p, j);
      var t, js := Swap(s, i, j), Unshuffle(s, p);
      assert js[..i] == Unshuffle(t[..i], p[..i]) && js[i] == j;
      ShuffleUnfold(s, js);
      ShuffleUnshuffle(t[..i], p[..i]);
      assert p == p[..i] + [p[i]];
    }
  }

  lemma {:induction false} IndexUnique<T>(s: seq<T>, j: nat)
    requires Distinct(s) && j < |s|
    ensures s[j] in s && IndexOf(s, s[j]) == j
  {
    if j == 0 {
    } else {
      IndexUnique(s[1..], j - 1);
    }
  }

  lemma {:induction false} UnshuffleShuffle<T>(s: seq<T>, js: seq<nat>)
    requires Distinct(s) && IsChoice(js, |s|)
    ensures IsArrangement(Shuffle(s, js), s)
    ensures Unshuffle(s, Shuffle(s, js)) == js
    decreases |s|
  {
    hide Shuffle, Swap, Distinct, IndexOf;
    ShuffleIsArrangement(s, js);
    if s == [] {
    } else {
      var i := |s| - 1;
      var t, p := Swap(s, i, js[i]), Shuffle(s, js);
      ShuffleUnfold(s, js);
      IndexUnique(s, js[i]);
      SwapMultiset(s, i, js[i]);
      DistinctByMultiset(s, t);
      DistinctFront(t, i);
      assert p[..i] == Shuffle(t[..i], js[..i]);
      UnshuffleShuffle(t[..i], js[..i]);
      LastIsThere(s, p);
      UnshuffleStep(s, p, js[i]);
      assert js == js[..i] + [js[i]];
    }
  }

  lemma DistinctFront<T>(s: seq<T>, n: nat)
    requires Distinct(s) && n <= |s|
    ensures Distinct(s[..n])
  {
  }

  /** Choice vectors and arrangements correspond one to one. */
  lemma ShuffleIsBijection<T>(s: seq<T>)
    requires Distinct(s)
    ensures forall js, ks :: IsChoice(js, |s|) && IsChoice(ks, |s|) && Shuffle(s, js) == Shuffle(s, ks) ==> js == ks
    ensures forall js :: IsChoice(js, |s|) ==> IsArrangement(Shuffle(s, js), s)
    ensures forall p: seq<T> :: IsArrangement(p, s) ==> exists js :: IsChoice(js, |s|) && Shuffle(s, js) == p
  {
    forall js | IsChoice(js, |s|)
      ensures IsArrangement(Shuffle(s, js), s) && Unshuffle(s, Shuffle(s, js)) == js
    {
      UnshuffleShuffle(s, js);
    }
    forall p: seq<T> | IsArrangement(p, s) ensures exists js :: IsChoice(js, |s|) && Shuffle(s, js) == p {
      ShuffleUnshuffle(s, p);
      var js := Unshuffle(s, p);
      assert IsChoice(js, |s|) && Shuffle(s, js) == p;
    }
  }

  // ---------------------------------------------------------------------------
  // Every subset of a size is dealt by equally many choice vectors
  // ---------------------------------------------------------------------------

  /** All choice vectors for `n` items. */
  function ChoiceVectors(n: nat): set<seq<nat>> {
    if n == 0 then {[]}
    else set js, j: nat | js in ChoiceVectors(n - 1) && j < n :: js + [j]
  }

  lemma {:induction false} ChoiceVectorsExact(n: nat, js: seq<nat>)
    ensures js in ChoiceVectors(n) <==> IsChoice(js, n)
  {
    if n == 0 {
    } else {
      if js in ChoiceVectors(n) {
        var ks, j :| ks in ChoiceVectors(n - 1) && j < n && js == ks + [j];
        ChoiceVectorsExact(n - 1, ks);
      }
      if IsChoice(js, n) {
        ChoiceVectorsExact(n - 1, js[..n - 1]);
        assert js == js[..n - 1] + [js[n - 1]];
      }
    }
  }

  function Elements(s: seq<int>): set<int> {
    set x | x in s
  }

  /** The problems dealt, as a set. */
  function Dealt(items: seq<int>, count: int, js: seq<nat>): set<int>
    requires IsChoice(js, |items|)
  {
    Elements(Deal(items, count, js))
  }

  /** Sorting what was cut off leaves the same problems. */
  lemma DealtIsCut(items: seq<int>, count: int, js: seq<nat>)
    requires IsChoice(js, |items|)
    ensures Dealt(items, count, js) == Elements(SliceTo(Shuffle(items, js), count))
  {
    SameElements(Deal(items, count, js), SliceTo(Shuffle(items, js), count));
  }

  lemma SameElements(s: seq<int>, t: seq<int>)
    requires multiset(s) == multiset(t)
    ensures Elements(s) == Elements(t)
  {
    assert forall x :: x in s <==> x in multiset(s);
    assert forall x :: x in t <==> x in multiset(t);
  }

  ghost function VectorsDealing(items: seq<int>, count: int, subset: set<int>): set<seq<nat>> {
    set js | js in ChoiceVectors(|items|) && IsChoice(js, |items|) && Dealt(items, count, js) == subset
  }

  function Trade(x: int, a: int, b: int): int {
    if x == a then b else if x == b then a else x
  }

  function TradeAll(s: seq<int>, a: int, b: int): (t: seq<int>)
    ensures |t| == |s| && forall i :: 0 <= i < |s| ==> t[i] == Trade(s[i], a, b)
  {
    seq(|s|, i requires 0 <= i < |s| => Trade(s[i], a, b))
  }

  lemma {:induction false} TradeMultiset(s: seq<int>, a: int, b: int, x: int)
    ensures multiset(TradeAll(s, a, b))[x] == multiset(s)[Trade(x, a, b)]
  {
    if s == [] {
    } else {
      TradeMultiset(s[1..], a, b, x);
      assert s == [s[0]] + s[1..];
      assert TradeAll(s, a, b) == [Trade(s[0], a, b)] + TradeAll(s[1..], a, b);
    }
  }

  lemma {:induction false} ExactlyOnce(s: seq<int>, x: int)
    requires Distinct(s) && x in s
    ensures multiset(s)[x] == 1
  {
    AtMostOnce(s, x);
    assert x in multiset(s);
  }

  /** Trading two of the items makes another arrangement of them. */
  lemma TradeIsArrangement(items: seq<int>, p: seq<int>, a: int, b: int)
    requires Distinct(items) && a in items && b in items && IsArrangement(p, items)
    ensures IsArrangement(TradeAll(p, a, b), items)
  {
    ExactlyOnce(items, a);
    ExactlyOnce(items, b);
    forall x ensures multiset(TradeAll(p, a, b))[x] == multiset(items)[x] {
      TradeMultiset(p, a, b, x);
    }
  }

  /** The draws that deal the same with `a` and `b` traded. */
  ghost function Traded(items: seq<int>, a: int, b: int, js: seq<nat>): (ks: seq<nat>) {
    if IsChoice(js, |items|) && IsArrangement(TradeAll(Shuffle(items, js), a, b), items)
    then Unshuffle(items, TradeAll(Shuffle(items, js), a, b))
    else js
  }

  lemma TradedShuffle(items: seq<int>, a: int, b: int, js: seq<nat>)
    requires Distinct(items) && a in items && b in items && IsChoice(js, |items|)
    ensures IsChoice(Traded(items, a, b, js), |items|)
    ensures Shuffle(items, Traded(items, a, b, js)) == TradeAll(Shuffle(items, js), a, b)
  {
    ShuffleIsArrangement(items, js);
    TradeIsArrangement(items, Shuffle(items, js), a, b);
    ShuffleUnshuffle(items, TradeAll(Shuffle(items, js), a, b));
  }

  /** Trading twice leads back, so no two vectors trade to the same one. */
  lemma TradedTwice(items: seq<int>, a: int, b: int, js: seq<nat>)
    requires Distinct(items) && a in items && b in items && IsChoice(js, |items|)
    ensures Traded(items, a, b, Traded(items, a, b, js)) == js
  {
    var ks := Traded(items, a, b, js);
    TradedShuffle(items, a, b, js);
    TradedShuffle(items, a, b, ks);
    assert TradeAll(TradeAll(Shuffle(items, js), a, b), a, b) == Shuffle(items, js);
    UnshuffleShuffle(items, js);
    UnshuffleShuffle(items, Traded(items, a, b, ks));
  }

  lemma SliceTraded(s: seq<int>, count: int, a: int, b: int)
    ensures SliceTo(TradeAll(s, a, b), count) == TradeAll(SliceTo(s, count), a, b)
  {
  }

  lemma TradedDeal(items: seq<int>, count: int, a: int, b: int, js: seq<nat>, s: set<int>)
    requires Distinct(items) && a in items && b in items && IsChoice(js, |items|)
    requires Dealt(items, count, js) == s && a in s && b !in s
    ensures IsChoice(Traded(items, a, b, js), |items|)
    ensures Dealt(items, count, Traded(items, a, b, js)) == s - {a} + {b}
  {
    hide Shuffle, SliceTo, Dealt, Traded, TradeAll, Distinct, Elements;
    TradedShuffle(items, a, b, js);
    DealtIsCut(items, count, js);
    DealtIsCut(items, count, Traded(items, a, b, js));
    SliceTraded(Shuffle(items, js), count, a, b);
    InElements(SliceTo(Shuffle(items, js), count), a);
    InElements(SliceTo(Shuffle(items, js), count), b);
    TradeElements(SliceTo(Shuffle(items, js), count), a, b);
  }

  lemma InElements(s: seq<int>, x: int)
    ensures x in Elements(s) <==> x in s
  {
  }

  lemma TradeElements(s: seq<int>, a: int, b: int)
    requires a in s && b !in s
    ensures Elements(TradeAll(s, a, b)) == Elements(s) - {a} + {b}
  {
  }

  lemma {:induction false} InjectionSize<A, B>(xs: set<A>, ys: set<B>, f: A -> B)
    requires forall x :: x in xs ==> f(x) in ys
    requires forall x, x' :: x in xs && x' in xs && f(x) == f(x') ==> x == x'
    ensures |xs| <= |ys|
  {
    if xs == {} {
    } else {
      var x :| x in xs;
      InjectionSize(xs - {x}, ys - {f(x)}, f);
    }
  }

  /** Exchanging one problem of a subset for another costs no vectors. */
  lemma ExchangeKeepsCount(items: seq<int>, count: int, s: set<int>, a: int, b: int)
    requires Distinct(items) && a in items && b in items && a in s && b !in s
    ensures |VectorsDealing(items, count, s)| <= |VectorsDealing(items, count, s - {a} + {b})|
  {
    var xs, ys := VectorsDealing(items, count, s), VectorsDealing(items, count, s - {a} + {b});
    var f := (js: seq<nat>) => Traded(items, a, b, js);
    forall js | js in xs ensures f(js) in ys && Traded(items, a, b, f(js)) == js {
      TradedDeal(items, count, a, b, js, s);
      ChoiceVectorsExact(|items|, f(js));
      TradedTwice(items, a, b, js);
    }
    InjectionSize(xs, ys, f);
  }

  /**
   * Fairness of the deal: any two subsets of the items of the same size are dealt by the same
   * number of choice vectors.
   */
  lemma {:induction false} SubsetsEquallyLikely(items: seq<int>, count: int, s: set<int>, t: set<int>)
    requires Distinct(items) && s <= Elements(items) && t <= Elements(items) && |s| == |t|
    ensures |VectorsDealing(items, count, s)| == |VectorsDealing(items, count, t)|
    decreases |s - t|
  {
    if s - t == {} {
      SubsetOfSameSize(s, t);
    } else {
      var a :| a in s - t;
      if t - s == {} {
        SubsetOfSameSize(t, s);
        assert false;
      }
      var b :| b in t - s;
      var u := s - {a} + {b};
      assert u - {b} + {a} == s;
      ExchangeKeepsCount(items, count, s, a, b);
      ExchangeKeepsCount(items, count, u, b, a);
      assert u - t == (s - t) - {a};
      SubsetsEquallyLikely(items, count, u, t);
    }
  }

  lemma {:induction false} SubsetOfSameSize(s: set<int>, t: set<int>)
    requires s - t == {} && |s| == |t|
    ensures s == t
  {
    assert |t - s| == |t| - |s| by {
      assert t == s + (t - s);
    }
  }

  // ---------------------------------------------------------------------------
  // Every subset of the right size is dealt
  // ---------------------------------------------------------------------------

  lemma Pick<T>(s: set<T>) returns (x: T)
    requires s != {}
    ensures x in s
  {
    x :| x in s;
  }

  /** An enumeration of a set. */
  lemma {:induction false} Listing(s: set<int>) returns (list: seq<int>)
    ensures multiset(list) == multiset(s) && |list| == |s| && Elements(list) == s
  {
    if s == {} {
      list := [];
      assert Elements(list) == {};
    } else {
      var x := Pick(s);
      var rest := Listing(s - {x});
      list := rest + [x];
      assert multiset(s) == multiset(s - {x}) + multiset{x};
      assert Elements(list) == Elements(rest) + {x};
    }
  }

  lemma DistinctMultiset(items: seq<int>)
    requires Distinct(items)
    ensures multiset(items) == multiset(Elements(items))
  {
    forall x ensures multiset(items)[x] == multiset(Elements(items))[x] {
      if x in items {
        ExactlyOnce(items, x);
      } else {
        assert x !in multiset(items);
      }
    }
  }

  /** An arrangement of the items that begins with the subset. */
  lemma SubsetFirst(items: seq<int>, s: set<int>) returns (first: seq<int>, rest: seq<int>)
    requires Distinct(items) && s <= Elements(items)
    ensures IsArrangement(first + rest, items) && |first| == |s| && Elements(first) == s
  {
    first := Listing(s);
    rest := Listing(Elements(items) - s);
    hide Distinct, Elements;
    DistinctMultiset(items);
    MultisetSplits(s, Elements(items));
  }

  lemma MultisetSplits(s: set<int>, all: set<int>)
    requires s <= all
    ensures multiset(all) == multiset(s) + multiset(all - s)
  {
  }

  lemma SliceFirst(first: seq<int>, rest: seq<int>, items: seq<int>, count: int)
    requires |first + rest| == |items| && |first| == |SliceTo(items, count)|
    ensures SliceTo(first + rest, count) == first
  {
  }

  /** The arrangement that begins with the subset deals it. */
  lemma DealsSubset(items: seq<int>, count: int, s: set<int>) returns (js: seq<nat>)
    requires Distinct(items) && s <= Elements(items) && |s| == |SliceTo(items, count)|
    ensures IsChoice(js, |items|) && Dealt(items, count, js) == s
  {
    hide Shuffle, SliceTo, Dealt, Distinct, Elements, Unshuffle;
    var first, rest := SubsetFirst(items, s);
    js := Unshuffle(items, first + rest);
    ShuffleUnshuffle(items, first + rest);
    assert |first + rest| == |multiset(first + rest)| == |items|;
    SliceFirst(first, rest, items, count);
    DealtIsCut(items, count, js);
  }

  /** A draw that picks position `j` among 0..i. */
  function DrawFor(j: nat, i: nat): (draw: real)
    requires j <= i
    ensures 0.0 <= draw < 1.0
  {
    j as real / (i + 1) as real
  }

  lemma PicksPosition(j: nat, i: nat)
    requires j <= i
    ensures PositionFor(DrawFor(j, i), i) == j
  {
    assert j as real / (i + 1) as real * (i + 1) as real == j as real;
  }

  /** Draws that pick these positions. */
  function DrawsFor(js: seq<nat>): (draws: seq<real>)
    requires IsChoice(js, |js|)
    ensures |draws| + 1 >= |js| && forall i :: 0 <= i < |draws| ==> 0.0 <= draws[i] < 1.0
  {
    var n := |js|;
    seq(if n == 0 then 0 else n - 1, d requires 0 <= d < n - 1 => DrawFor(js[n - 1 - d], n - 1 - d))
  }

  /** Every choice vector comes from some draws in [0, 1). */
  lemma ChoicesOnto(js: seq<nat>)
    requires IsChoice(js, |js|)
    ensures ChoicesOf(DrawsFor(js), |js|) == js
  {
    hide PositionFor, DrawFor;
    var n := |js|;
    var draws := DrawsFor(js);
    forall i | 0 <= i < n ensures ChoicesOf(draws, n)[i] == js[i] {
      if i > 0 {
        ChoiceAt(draws, n, i);
        PicksPosition(js[i], i);
        assert draws[n - 1 - i] == DrawFor(js[i], i);
      }
    }
  }

  ghost predicate AreDraws(draws: seq<real>, n: nat) {
    |draws| + 1 >= n && forall i :: 0 <= i < |draws| ==> 0.0 <= draws[i] < 1.0
  }

  /** For some draws the answer holds exactly this subset of the items, in increasing order. */
  lemma EverySubsetIsDealt(items: seq<int>, count: int, s: set<int>)
    requires Distinct(items) && s <= Elements(items) && |s| == |SliceTo(items, count)|
    ensures exists draws ::
              AreDraws(draws, |items|) && Elements(Deal(items, count, ChoicesOf(draws, |items|))) == s
  {
    var js := DealsSubset(items, count, s);
    ChoicesOnto(js);
    assert AreDraws(DrawsFor(js), |items|);
  }
}
