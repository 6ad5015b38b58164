/** Facts about the order and repetition of list elements. */
module Lists {
  predicate Distinct<T(==)>(s: seq<T>) {
    forall i, j :: 0 <= i < j < |s| ==> s[i] != s[j]
  }

  /** Somewhere in the list, `x` stands before `y`. */
  ghost predicate Precedes<T>(list: seq<T>, x: T, y: T) {
    exists i, j :: 0 <= i < j < |list| && list[i] == x && list[j] == y
  }

  lemma PrecedesMembers<T>(list: seq<T>, x: T, y: T)
    ensures Precedes(list, x, y) ==> x in list && y in list
  {
  }

  lemma NothingPrecedes<T>(x: T, y: T)
    ensures !Precedes([], x, y)
  {
  }

  lemma PrecedesCons<T>(head: T, rest: seq<T>, x: T, y: T)
    ensures Precedes([head] + rest, x, y) <==> (head == x && y in rest) || Precedes(rest, x, y)
  {
    var list := [head] + rest;
    if Precedes(list, x, y) {
      var i, j :| 0 <= i < j < |list| && list[i] == x && list[j] == y;
      assert rest[j - 1] == y;
      if i > 0 {
        assert rest[i - 1] == x;
      }
    }
    if head == x && y in rest {
      var j :| 0 <= j < |rest| && rest[j] == y;
      assert list[0] == x && list[j + 1] == y;
    }
    if Precedes(rest, x, y) {
      var i, j :| 0 <= i < j < |rest| && rest[i] == x && rest[j] == y;
      assert list[i + 1] == x && list[j + 1] == y;
    }
  }
}
