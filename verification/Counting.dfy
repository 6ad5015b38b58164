/** How many elements of a list satisfy a predicate, whatever their order. */
module Counting {

  function CountBy<T>(s: seq<T>, p: T -> bool): (n: nat)
    ensures n <= |s|
  {
    if s == [] then 0 else (if p(s[0]) then 1 else 0) + CountBy(s[1..], p)
  }

  lemma {:induction false} CountConcat<T>(a: seq<T>, b: seq<T>, p: T -> bool)
    ensures CountBy(a + b, p) == CountBy(a, p) + CountBy(b, p)
  {
    if a == [] {
      assert a + b == b;
    } else {
      assert (a + b)[1..] == a[1..] + b;
      CountConcat(a[1..], b, p);
    }
  }

  function Without<T>(s: seq<T>, i: nat): seq<T>
    requires i < |s|
  {
    s[..i] + s[i + 1..]
  }

  lemma SplitAround<T>(s: seq<T>, i: nat)
    requires i < |s|
    ensures s == s[..i] + ([s[i]] + s[i + 1..])
  {
  }

  lemma MultisetWithout<T>(s: seq<T>, i: nat)
    requires i < |s|
    ensures multiset(s) == multiset(Without(s, i)) + multiset{s[i]}
  {
    SplitAround(s, i);
  }

  /** Where the last element of a list sits in a rearrangement of it. */
  lemma MatchLast<T>(a: seq<T>, b: seq<T>) returns (i: nat)
    requires a != [] && multiset(a) == multiset(b)
    ensures i < |b| && b[i] == a[|a| - 1] && multiset(a[..|a| - 1]) == multiset(Without(b, i))
  {
    hide Without;
    var front, last := a[..|a| - 1], a[|a| - 1];
    assert a == front + [last];
    assert last in multiset(b);
    i :| 0 <= i < |b| && b[i] == last;
    MultisetWithout(b, i);
    assert multiset(Without(b, i)) == multiset(b) - multiset{last} == multiset(front);
  }

  lemma CountWithout<T>(s: seq<T>, i: nat, p: T -> bool)
    requires i < |s|
    ensures CountBy(s, p) == CountBy(Without(s, i), p) + if p(s[i]) then 1 else 0
  {
    hide CountBy;
    var tail := [s[i]] + s[i + 1..];
    SplitAround(s, i);
    CountConcat(s[..i], tail, p);
    CountConcat(s[..i], s[i + 1..], p);
    CountCons(s[i], s[i + 1..], p);
  }

  lemma CountCons<T>(x: T, s: seq<T>, p: T -> bool)
    ensures CountBy([x] + s, p) == (if p(x) then 1 else 0) + CountBy(s, p)
  {
  }

  lemma {:induction false} CountPermuted<T>(a: seq<T>, b: seq<T>, p: T -> bool)
    requires multiset(a) == multiset(b)
    ensures CountBy(a, p) == CountBy(b, p)
  {
    hide Without;
    if a == [] {
      assert |b| == |multiset(b)| == 0;
    } else {
      assert a[0] in multiset(b);
      var i :| 0 <= i < |b| && b[i] == a[0];
      CountWithout(b, i, p);
      MultisetWithout(b, i);
      assert a == [a[0]] + a[1..];
      assert multiset(Without(b, i)) == multiset(b) - multiset{a[0]} == multiset(a[1..]);
      CountPermuted(a[1..], Without(b, i), p);
    }
  }

  lemma {:induction false} CountSkipping<T>(s: seq<T>, p: T -> bool, k: nat)
    requires k <= |s| && forall i :: 0 <= i < k ==> !p(s[i])
    ensures CountBy(s, p) <= |s| - k
  {
    if k == 0 {
    } else {
      CountSkipping(s[1..], p, k - 1);
    }
  }

  lemma {:induction false} CountMapped<T, U>(s: seq<T>, t: seq<U>, p: T -> bool, q: U -> bool)
    requires |s| == |t| && forall i :: 0 <= i < |s| ==> p(s[i]) ==> q(t[i])
    ensures CountBy(s, p) <= CountBy(t, q)
  {
    if s == [] {
    } else {
      CountMapped(s[1..], t[1..], p, q);
    }
  }
}
