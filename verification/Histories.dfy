/** A fact or a value that events change one after another is what the last change made it. */
module Histories {
  import opened Options

  /** Events that set a fact, events that clear it, and all others, which leave it. */
  lemma {:induction false} LastWins(holds: nat -> bool, sets: nat -> bool, clears: nat -> bool, n: nat)
    requires !holds(0)
    requires forall i: nat :: i < n ==> (holds(i + 1) <==> sets(i) || (holds(i) && !clears(i)))
    ensures holds(n) <==> exists i: nat :: i < n && sets(i) && forall j: nat :: i < j < n ==> !clears(j)
  {
    if n == 0 {
    } else {
      LastWins(holds, sets, clears, n - 1);
      assert holds(n - 1 + 1) <==> sets(n - 1) || (holds(n - 1) && !clears(n - 1));
    }
  }

  /** Event `i` wrote this value and no later one of the first `n` wrote any. */
  ghost predicate IsLastWrite<T(!new)>(writes: nat -> Option<T>, n: nat, i: nat, value: T) {
    i < n && writes(i) == Some(value) && forall j: nat :: i < j < n ==> writes(j).None?
  }

  /** `value` is the one last written, or the first one if none was. */
  ghost predicate IsLatest<T(!new)>(writes: nat -> Option<T>, n: nat, first: T, value: T) {
    (exists i: nat :: IsLastWrite(writes, n, i, value)) ||
    (value == first && forall j: nat :: j < n ==> writes(j).None?)
  }

  /** A value that some events write and the others leave is the one last written. */
  lemma {:induction false} LastWrite<T(!new)>(value: nat -> T, writes: nat -> Option<T>, n: nat)
    requires forall i: nat :: i < n ==>
               value(i + 1) == if writes(i).Some? then writes(i).value else value(i)
    ensures IsLatest(writes, n, value(0), value(n))
  {
    if n == 0 {
    } else {
      var m: nat := n - 1;
      LastWrite(value, writes, m);
      assert value(m + 1) == if writes(m).Some? then writes(m).value else value(m);
      if writes(m).Some? {
        assert IsLastWrite(writes, n, m, value(n));
      } else if exists i: nat :: IsLastWrite(writes, m, i, value(m)) {
        var i: nat :| IsLastWrite(writes, m, i, value(m));
        assert IsLastWrite(writes, n, i, value(n));
      }
    }
  }

  lemma LatestIsUnique<T(!new)>(writes: nat -> Option<T>, n: nat, first: T, a: T, b: T)
    requires IsLatest(writes, n, first, a) && IsLatest(writes, n, first, b)
    ensures a == b
  {
    if exists i: nat :: IsLastWrite(writes, n, i, a) {
      var i: nat :| IsLastWrite(writes, n, i, a);
      if exists j: nat :: IsLastWrite(writes, n, j, b) {
        var j: nat :| IsLastWrite(writes, n, j, b);
        assert i == j;
      }
    }
  }
}
