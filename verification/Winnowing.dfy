/** Hashing and winnowing of a token stream, and the comparison of two fingerprint sets. */
module Winnowing {
  import opened Text
  import opened Tokenizer

  datatype Gram = Gram(hash: int, start: nat, end: nat, index: nat)

  const K_GRAM_SIZE: nat := 5
  const WINDOW_SIZE: nat := 4

  // ---------------------------------------------------------------------------
  // The 32-bit string hash
  // ---------------------------------------------------------------------------

  const TWO_32: int := 0x1_0000_0000

  /** JavaScript's `x | 0`: the signed 32-bit integer congruent to `x`. */
  function ToInt32(x: int): (r: int)
    ensures -0x8000_0000 <= r < 0x8000_0000
    ensures (x - r) % TWO_32 == 0
  {
    (x + 0x8000_0000) % TWO_32 - 0x8000_0000
  }

  /** The unbounded polynomial s[0]*31^(n-1) + ... + s[n-1]. */
  function Polynomial(s: Text): int {
    if s == [] then 0 else 31 * Polynomial(s[..|s| - 1]) + s[|s| - 1]
  }

  function Hash(s: Text): int {
    ToInt32(Polynomial(s))
  }

  lemma ToInt32Shift(x: int, k: int)
    ensures ToInt32(x + k * TWO_32) == ToInt32(x)
  {
  }

  /** Wrapping at every step wraps the exact polynomial once. */
  lemma HornerWraps(p: int, c: int)
    ensures ToInt32(ToInt32(ToInt32(p) * 31) + c) == ToInt32(31 * p + c)
  {
    var h := ToInt32(p);
    var m := ToInt32(h * 31);
    var a, b := (p - h) / TWO_32, (h * 31 - m) / TWO_32;
    assert m + c == 31 * p + c + (-(31 * a + b)) * TWO_32;
    ToInt32Shift(31 * p + c, -(31 * a + b));
  }

  method HashString(str: Text) returns (h: int)
    ensures h == Hash(str)
  {
    h := 0;
    for i := 0 to |str|
      invariant h == Hash(str[..i])
    {
      HornerWraps(Polynomial(str[..i]), str[i]);
      assert str[..i + 1][..i] == str[..i];
      h := ToInt32(ToInt32(h * 31) + str[i]);
    }
    assert str[..|str|] == str;
  }

  // ---------------------------------------------------------------------------
  // k-grams
  // ---------------------------------------------------------------------------

  /** `join(' ')` of the normalized tokens. */
  function Joined(tokens: seq<Token>): Text {
    if tokens == [] then []
    else if |tokens| == 1 then tokens[0].normalized
    else tokens[0].normalized + [SPACE] + Joined(tokens[1..])
  }

  function GramAt(tokens: seq<Token>, k: nat, i: nat): Gram
    requires 1 <= k && i + k <= |tokens|
  {
    Gram(Hash(Joined(tokens[i..i + k])), tokens[i].start, tokens[i + k - 1].end, i)
  }

  function Grams(tokens: seq<Token>, k: nat): (grams: seq<Gram>)
    requires k >= 1
  {
    if |tokens| < k then []
    else seq(|tokens| - k + 1, i requires 0 <= i < |tokens| - k + 1 => GramAt(tokens, k, i))
  }

  // ---------------------------------------------------------------------------
  // Selection: a gram is chosen if it is the rightmost minimum of some window
  // ---------------------------------------------------------------------------

  /** `p` is the rightmost minimum of the window [lo, hi). */
  ghost predicate IsRightmostMin(grams: seq<Gram>, lo: nat, hi: nat, p: nat)
    requires hi <= |grams|
  {
    lo <= p < hi &&
    (forall j :: lo <= j < hi ==> grams[p].hash <= grams[j].hash) &&
    (forall j :: p < j < hi ==> grams[p].hash < grams[j].hash)
  }

  /** The window of `w` grams at `i` selects gram `p`. */
  ghost predicate Selects(grams: seq<Gram>, w: nat, i: nat, p: nat) {
    i + w <= |grams| && IsRightmostMin(grams, i, i + w, p)
  }

  ghost predicate IsChosen(grams: seq<Gram>, w: nat, p: nat) {
    exists i: nat :: Selects(grams, w, i, p)
  }

  /** The chosen grams among the first `n`, in order. */
  ghost function Chosen(grams: seq<Gram>, w: nat, n: nat): seq<Gram>
    requires n <= |grams|
  {
    if n == 0 then []
    else Chosen(grams, w, n - 1) + if IsChosen(grams, w, n - 1) then [grams[n - 1]] else []
  }

  ghost function Fingerprints(tokens: seq<Token>, k: nat, w: nat): seq<Gram>
    requires k >= 1
  {
    var grams := Grams(tokens, k);
    if |grams| <= w then grams else Chosen(grams, w, |grams|)
  }

  /** Windows move right, so their rightmost minima never move left. */
  lemma SelectionMonotone(grams: seq<Gram>, w: nat, i: nat, p: nat, j: nat, q: nat)
    requires i <= j && Selects(grams, w, i, p) && Selects(grams, w, j, q)
    ensures p <= q
  {
    var hp, hq := grams[p].hash, grams[q].hash;
    assert q < p ==> hp <= hq;
    assert q < p ==> hq < hp;
  }

  lemma SelectedIsChosen(grams: seq<Gram>, w: nat, i: nat, p: nat)
    requires Selects(grams, w, i, p)
    ensures IsChosen(grams, w, p)
  {
  }

  lemma {:induction false} ChosenSkip(grams: seq<Gram>, w: nat, m: nat, n: nat)
    requires m <= n <= |grams|
    requires forall p :: m <= p < n ==> !IsChosen(grams, w, p)
    ensures Chosen(grams, w, n) == Chosen(grams, w, m)
  {
    if m == n {
    } else {
      ChosenSkip(grams, w, m, n - 1);
    }
  }

  /**
   * Nothing strictly between the selections of two neighbouring windows is chosen, nor anything
   * before the first window's or after the last one's.
   */
  lemma NothingBetween(grams: seq<Gram>, w: nat, i: nat, p: nat, q: nat)
    requires Selects(grams, w, i, p) && Selects(grams, w, i + 1, q)
    ensures forall r :: p < r < q ==> !IsChosen(grams, w, r)
  {
    forall r, j: nat | p < r < q && Selects(grams, w, j, r) ensures false {
      if j <= i {
        SelectionMonotone(grams, w, j, r, i, p);
      } else {
        SelectionMonotone(grams, w, i + 1, q, j, r);
      }
    }
  }

  lemma NothingBefore(grams: seq<Gram>, w: nat, p: nat)
    requires Selects(grams, w, 0, p)
    ensures forall r: nat :: r < p ==> !IsChosen(grams, w, r)
  {
    forall r: nat, j: nat | r < p && Selects(grams, w, j, r) ensures false {
      SelectionMonotone(grams, w, 0, p, j, r);
    }
  }

  lemma NothingAfter(grams: seq<Gram>, w: nat, p: nat)
    requires w <= |grams| && Selects(grams, w, |grams| - w, p)
    ensures forall r :: p < r < |grams| ==> !IsChosen(grams, w, r)
  {
    forall r, j: nat | p < r < |grams| && Selects(grams, w, j, r) ensures false {
      SelectionMonotone(grams, w, j, r, |grams| - w, p);
    }
  }

  method BuildGrams(tokens: seq<Token>, k: nat) returns (grams: seq<Gram>)
    requires 1 <= k <= |tokens|
    ensures grams == Grams(tokens, k)
    ensures forall j :: 0 <= j < |grams| ==> grams[j].index == j
  {
    grams := [];
    for i := 0 to |tokens| - k + 1
      invariant |grams| == i
      invariant forall j :: 0 <= j < i ==> grams[j] == GramAt(tokens, k, j)
    {
      var slice := tokens[i..i + k];
      var hash := HashString(Joined(slice));
      grams := grams + [Gram(hash, slice[0].start, slice[|slice| - 1].end, i)];
    }
  }

  method WindowMin(grams: seq<Gram>, w: nat, i: nat) returns (min: Gram)
    requires w >= 1 && i + w <= |grams|
    requires forall j :: 0 <= j < |grams| ==> grams[j].index == j
    ensures Selects(grams, w, i, min.index) && min.index < |grams| && min == grams[min.index]
  {
    min := grams[i];
    for j := i + 1 to i + w
      invariant i <= min.index < j && min == grams[min.index]
      invariant IsRightmostMin(grams, i, j, min.index)
    {
      if grams[j].hash <= min.hash {
        min := grams[j];
      }
    }
  }

  method Winnow(tokens: seq<Token>, k: nat, w: nat) returns (fingerprints: seq<Gram>)
    requires k >= 1 && w >= 1
    ensures fingerprints == Fingerprints(tokens, k, w)
  {
    hide IsRightmostMin, IsChosen, GramAt;
    if |tokens| < k {
      return [];
    }
    var grams := BuildGrams(tokens, k);
    if |grams| <= w {
      return grams;
    }
    fingerprints := [];
    var prevSelected := -1;
    for i := 0 to |grams| - w + 1
      invariant if i == 0 then prevSelected == -1
                else 0 <= prevSelected && Selects(grams, w, i - 1, prevSelected)
      invariant -1 <= prevSelected < |grams|
      invariant fingerprints == Chosen(grams, w, prevSelected + 1)
    {
      var min := WindowMin(grams, w, i);
      if i == 0 {
        NothingBefore(grams, w, min.index);
      } else {
        SelectionMonotone(grams, w, i - 1, prevSelected, i, min.index);
        NothingBetween(grams, w, i - 1, prevSelected, min.index);
      }
      if min.index != prevSelected {
        ChosenSkip(grams, w, prevSelected + 1, min.index);
        SelectedIsChosen(grams, w, i, min.index);
        fingerprints := fingerprints + [min];
        prevSelected := min.index;
      }
    }
    NothingAfter(grams, w, prevSelected);
    ChosenSkip(grams, w, prevSelected + 1, |grams|);
  }
}
