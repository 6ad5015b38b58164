/**
 * What the screening tells apart: how the hash depends on the text, what a gram's text says about its
 * tokens, and when two submissions score nothing, something or everything.
 */
module Distinguishing {
  import opened Text
  import opened Tokenizer
  import opened Winnowing
  import opened Editing
  import opened Similarity
  import Highlight

  // ---------------------------------------------------------------------------
  // The hash
  // ---------------------------------------------------------------------------

  function Power(base: int, exponent: nat): int {
    if exponent == 0 then 1 else base * Power(base, exponent - 1)
  }

  /** The first `n` terms of the sum of s[i] * 31^(|s| - 1 - i). */
  function Terms(s: Text, n: nat): int
    requires n <= |s|
  {
    if n == 0 then 0 else Terms(s, n - 1) + s[n - 1] * Power(31, |s| - n)
  }

  lemma {:induction false} TermsOfFront(s: Text, n: nat)
    requires s != [] && n <= |s| - 1
    ensures Terms(s, n) == 31 * Terms(s[..|s| - 1], n)
  {
    if n == 0 {
    } else {
      TermsOfFront(s, n - 1);
      var front, c, power := s[..|s| - 1], s[n - 1], Power(31, |s| - 1 - n);
      assert front[n - 1] == c;
      assert Power(31, |s| - n) == 31 * power;
      assert c * (31 * power) == 31 * (c * power);
    }
  }

  /** What is hashed is the sum of the units, each times the power of 31 of its place. */
  lemma {:induction false} PolynomialIsSum(s: Text)
    ensures Polynomial(s) == Terms(s, |s|)
  {
    if s == [] {
    } else {
      PolynomialIsSum(s[..|s| - 1]);
      TermsOfFront(s, |s| - 1);
    }
  }

  /** Equally long, and different at position `i` alone. */
  ghost predicate DifferOnlyAt(s: Text, t: Text, i: nat) {
    |s| == |t| && i < |s| && s[i] != t[i] && forall j :: 0 <= j < |s| && j != i ==> s[j] == t[j]
  }

  lemma {:induction false} TermsDiffer(s: Text, t: Text, i: nat, n: nat)
    requires DifferOnlyAt(s, t, i) && n <= |s|
    ensures Terms(s, n) - Terms(t, n) == if i < n then (s[i] - t[i]) * Power(31, |s| - 1 - i) else 0
  {
    if n == 0 {
    } else {
      TermsDiffer(s, t, i, n - 1);
      if n - 1 == i {
        Distributes(s[i], t[i], Power(31, |s| - n));
      }
    }
  }

  lemma Distributes(x: int, y: int, z: int)
    ensures x * z - y * z == (x - y) * z
  {
  }

  const INVERSE_31: int := 3186588639

  /** 31 has an inverse modulo 2^32, so multiplying by it loses nothing. */
  lemma ThirtyOneCancels(x: int)
    requires (31 * x) % TWO_32 == 0
    ensures x % TWO_32 == 0
  {
    var m := 31 * x / TWO_32;
    assert 31 * INVERSE_31 == 1 + 23 * TWO_32;
    assert x == (INVERSE_31 * m - 23 * x) * TWO_32;
    Multiple(INVERSE_31 * m - 23 * x);
  }

  lemma Multiple(k: int)
    ensures (k * TWO_32) % TWO_32 == 0
  {
  }

  lemma {:induction false} PowersCancel(d: int, k: nat)
    requires (d * Power(31, k)) % TWO_32 == 0
    ensures d % TWO_32 == 0
  {
    if k == 0 {
    } else {
      var power := Power(31, k - 1);
      assert d * (31 * power) == 31 * (d * power);
      ThirtyOneCancels(d * power);
      PowersCancel(d, k - 1);
    }
  }

  lemma SameInt32(x: int, y: int)
    requires ToInt32(x) == ToInt32(y)
    ensures (x - y) % TWO_32 == 0
  {
    var r := ToInt32(x);
    var a, b := (x - r) / TWO_32, (y - r) / TWO_32;
    assert x - y == (a - b) * TWO_32;
    Multiple(a - b);
  }

  /** Two texts of the same length that differ in a single unit never hash alike. */
  lemma OneUnitChangesHash(s: Text, t: Text, i: nat)
    requires DifferOnlyAt(s, t, i)
    ensures Hash(s) != Hash(t)
  {
    hide ToInt32, Polynomial;
    if Hash(s) == Hash(t) {
      SameInt32(Polynomial(s), Polynomial(t));
      PolynomialIsSum(s);
      PolynomialIsSum(t);
      TermsDiffer(s, t, i, |s|);
      var c: int, d: int := s[i], t[i];
      PowersCancel(c - d, |s| - 1 - i);
    }
  }

  /** The hash of the placeholder for an identifier. */
  lemma HashOfId()
    ensures Hash(ID) == 2331
  {
    PolynomialIsSum(ID);
    assert Power(31, 0) == 1 && Power(31, 1) == 31;
    assert Terms(ID, 1) == 73 * 31 && Terms(ID, 2) == 73 * 31 + 68;
  }

  // ---------------------------------------------------------------------------
  // The text of a gram
  // ---------------------------------------------------------------------------

  ghost predicate Spaceless(tokens: seq<Token>) {
    forall i :: 0 <= i < |tokens| ==> SPACE !in tokens[i].normalized
  }

  lemma SpacelessConcat(a: seq<Token>, b: seq<Token>)
    requires Spaceless(a) && Spaceless(b)
    ensures Spaceless(a + b)
  {
  }

  lemma {:induction false} WordIsSpaceless(s: Text)
    ensures SPACE !in s[..WordLen(s)]
  {
    if s == [] || !IsWordUnit(s[0]) {
    } else {
      WordIsSpaceless(s[1..]);
      assert s[..WordLen(s)] == [s[0]] + s[1..][..WordLen(s[1..])];
    }
  }

  /** No placeholder, keyword or operator holds a space. */
  lemma StepSpaceless(s: Text, start: nat, python: bool, keywords: set<Text>)
    requires s != []
    ensures Spaceless(Step(s, start, python, keywords).0)
  {
    hide WordLen, NumberLen, QuotedLen, DelimitedLen, LineEnd;
    var n := MatchLen(s, python);
    if n > 0 {
      var raw := s[..n];
      assert raw[0] == s[0];
      assert SPACE !in STR && SPACE !in NUM && SPACE !in ID;
      if CommentLen(s, python) > 0 {
        CommentIsDropped(s, python);
      } else if TripleLen(s, python) > 0 || StringLen(s) > 0 {
        LiteralStartsQuoted(s, python);
      } else {
        PlainSpaceless(s, python, keywords);
      }
    }
  }

  lemma PlainSpaceless(s: Text, python: bool, keywords: set<Text>)
    requires s != [] && PlainLen(s, python) > 0
    ensures SPACE !in Normalize(s[..PlainLen(s, python)], keywords)
  {
    hide WordLen;
    WordIsSpaceless(s);
    var raw := s[..PlainLen(s, python)];
    assert raw[0] == s[0] && SPACE !in STR && SPACE !in NUM && SPACE !in ID;
    if |s| >= 2 && IsOperator(s[0], s[1], python) {
      assert raw == [s[0], s[1]];
    } else if NumberLen(s) > 0 {
      assert IsWordStart(s[0]) || IsDigit(s[0]);
    }
  }

  lemma CommentIsDropped(s: Text, python: bool)
    requires s != [] && CommentLen(s, python) > 0
    ensures IsDropped(s[..CommentLen(s, python)])
  {
    var raw := s[..CommentLen(s, python)];
    assert raw[0] == s[0];
    if !python && LINE_COMMENT <= s {
      assert LineEnd(s) == 1 + LineEnd(s[1..]) == 2 + LineEnd(s[1..][1..]);
      assert raw[1] == s[1];
    } else if !python {
      assert COMMENT_OPEN <= s && raw[1] == s[1];
    }
  }

  lemma LiteralStartsQuoted(s: Text, python: bool)
    requires s != [] && (TripleLen(s, python) > 0 || StringLen(s) > 0)
    ensures s[0] == DOUBLE_QUOTE || s[0] == SINGLE_QUOTE
  {
  }

  lemma {:induction false} ScanSpaceless(s: Text, start: nat, python: bool, keywords: set<Text>)
    ensures Spaceless(Scan(s, start, python, keywords))
    decreases |s|
  {
    hide Scan, Step;
    if s == [] {
      ScanEmpty(start, python, keywords);
    } else {
      var (head, n) := Step(s, start, python, keywords);
      StepSpaceless(s, start, python, keywords);
      ScanSpaceless(s[n..], start + n, python, keywords);
      SpacelessConcat(head, Scan(s[n..], start + n, python, keywords));
      ScanUnfold(s, start, python, keywords);
    }
  }

  lemma FirstSpace(x: Text, y: Text, u: Text, v: Text)
    requires SPACE !in x && SPACE !in u && x + [SPACE] + y == u + [SPACE] + v
    ensures x == u && y == v
  {
    var t := x + [SPACE] + y;
    assert t[|x|] == SPACE && t[|u|] == SPACE;
    assert forall n :: 0 <= n < |x| ==> t[n] == x[n];
    assert forall n :: 0 <= n < |u| ==> t[n] == u[n];
    assert |x| == |u|;
    assert x == t[..|x|] && u == t[..|u|] && y == t[|x| + 1..] && v == t[|u| + 1..];
  }

  /** Equally many tokens with the same joined text are the same normalized tokens. */
  lemma {:induction false} JoinedTellsApart(a: seq<Token>, b: seq<Token>)
    requires Spaceless(a) && Spaceless(b) && |a| == |b| && Joined(a) == Joined(b)
    ensures Norms(a) == Norms(b)
  {
    if |a| <= 1 {
      assert |a| == 1 ==> Norms(a) == [a[0].normalized] && Norms(b) == [b[0].normalized];
    } else {
      FirstSpace(a[0].normalized, Joined(a[1..]), b[0].normalized, Joined(b[1..]));
      JoinedTellsApart(a[1..], b[1..]);
      assert Norms(a) == [a[0].normalized] + Norms(a[1..]);
      assert Norms(b) == [b[0].normalized] + Norms(b[1..]);
    }
  }

  /** The text that is hashed for a gram of a source stands for exactly its normalized tokens. */
  lemma GramTextExact(x: Text, y: Text, python: bool, keywords: set<Text>, i: nat, j: nat, k: nat)
    requires i + k <= |Scan(x, 0, python, keywords)| && j + k <= |Scan(y, 0, python, keywords)|
    ensures var a, b := Scan(x, 0, python, keywords)[i..i + k], Scan(y, 0, python, keywords)[j..j + k];
            Joined(a) == Joined(b) <==> Norms(a) == Norms(b)
  {
    hide Scan, Joined, Norms;
    ScanSpaceless(x, 0, python, keywords);
    ScanSpaceless(y, 0, python, keywords);
    var a, b := Scan(x, 0, python, keywords)[i..i + k], Scan(y, 0, python, keywords)[j..j + k];
    if Joined(a) == Joined(b) {
      JoinedTellsApart(a, b);
    }
    if Norms(a) == Norms(b) {
      JoinedByNorms(a, b);
    }
  }

  // ---------------------------------------------------------------------------
  // The score
  // ---------------------------------------------------------------------------

  /** The share of the first set that the second has, in percent; of nothing, 0. */
  ghost predicate IsShare(percent: real, part: set<int>, whole: set<int>) {
    if whole == {} then percent == 0.0 else percent * |whole| as real == 100.0 * |part| as real
  }

  lemma PercentIsShare(part: set<int>, whole: set<int>)
    requires part <= whole && whole != {} && |part| <= |whole|
    ensures IsShare(Percent(|part|, |whole|), part, whole)
  {
    var p, w := |part| as real, |whole| as real;
    assert p / w * 100.0 * w == p / w * w * 100.0 == p * 100.0;
  }

  /**
   * The comparison, by the two hash sets: what is shared, how much of each set it is, and the larger
   * of the two shares as the similarity; nothing if either set is empty.
   */
  lemma ComparisonExact(fpA: seq<Gram>, fpB: seq<Gram>)
    ensures var cmp := CompareFingerprints(fpA, fpB);
            var a, b := Hashes(fpA), Hashes(fpB);
            cmp.shared == a * b && cmp.sharedCount == |a * b| &&
            IsShare(cmp.percentA, a * b, a) && IsShare(cmp.percentB, a * b, b) &&
            cmp.percentA <= cmp.similarity && cmp.percentB <= cmp.similarity &&
            (cmp.similarity == cmp.percentA || cmp.similarity == cmp.percentB)
  {
    var a, b := Hashes(fpA), Hashes(fpB);
    if a == {} || b == {} {
      assert a * b == {};
    } else {
      assert (set h | h in a && h in b) == a * b;
      SubsetSize(a * b, a);
      SubsetSize(a * b, b);
      PercentIsShare(a * b, a);
      PercentIsShare(a * b, b);
    }
  }

  lemma NoShare(percent: real, part: set<int>, whole: set<int>)
    requires IsShare(percent, part, whole) && part <= whole
    ensures percent == 0.0 <==> part == {}
  {
    if whole != {} {
      if part == {} {
        Cancels(percent, |whole| as real);
      } else {
        assert |part| > 0;
      }
    }
  }

  lemma Cancels(x: real, n: real)
    requires x * n == 0.0 && n > 0.0
    ensures x == 0.0
  {
  }

  lemma WholeShare(percent: real, part: set<int>, whole: set<int>)
    requires IsShare(percent, part, whole) && part <= whole
    ensures percent == 100.0 <==> whole != {} && part == whole
  {
    if whole != {} {
      var n := |whole| as real;
      if percent == 100.0 {
        assert |part| == |whole|;
        SameSize(part, whole);
      }
      if part == whole {
        assert (percent - 100.0) * n == 0.0;
        Cancels(percent - 100.0, n);
      }
    }
  }

  lemma SameSize(part: set<int>, whole: set<int>)
    requires part <= whole && |part| == |whole|
    ensures part == whole
  {
    assert whole == part + (whole - part);
    assert |whole - part| == 0;
  }

  /** Two submissions score 0 exactly when no hash is shared, and 100 exactly when one set holds the other. */
  lemma ExtremeScores(fpA: seq<Gram>, fpB: seq<Gram>)
    ensures var cmp := CompareFingerprints(fpA, fpB);
            var a, b := Hashes(fpA), Hashes(fpB);
            (cmp.similarity == 0.0 <==> a * b == {}) && (cmp.sharedCount == 0 <==> a * b == {}) &&
            (cmp.similarity == 100.0 <==> a * b != {} && (a <= b || b <= a))
  {
    hide CompareFingerprints, Hashes, IsShare;
    ComparisonExact(fpA, fpB);
    var cmp := CompareFingerprints(fpA, fpB);
    var a, b := Hashes(fpA), Hashes(fpB);
    NoShare(cmp.percentA, a * b, a);
    NoShare(cmp.percentB, a * b, b);
    WholeShare(cmp.percentA, a * b, a);
    WholeShare(cmp.percentB, a * b, b);
    SharesAtMost(cmp.percentA, a * b, a);
    SharesAtMost(cmp.percentB, a * b, b);
    assert a * b == a <==> a <= b;
    assert a * b == b <==> b <= a;
    assert cmp.sharedCount == 0 <==> a * b == {};
    assert cmp.similarity == 0.0 <==> cmp.percentA == 0.0 && cmp.percentB == 0.0;
    assert cmp.similarity == 100.0 <==> cmp.percentA == 100.0 || cmp.percentB == 100.0;
  }

  lemma SharesAtMost(percent: real, part: set<int>, whole: set<int>)
    requires IsShare(percent, part, whole) && part <= whole
    ensures 0.0 <= percent <= 100.0
  {
    if whole != {} {
      SubsetSize(part, whole);
      var n := |whole| as real;
      if percent < 0.0 {
        Grows(percent, 0.0, n);
      } else if percent > 100.0 {
        Grows(100.0, percent, n);
      }
    }
  }

  lemma Grows(x: real, y: real, n: real)
    requires x < y && n > 0.0
    ensures x * n < y * n
  {
  }

  /** Streams none of whose grams hash alike score 0. */
  lemma UnrelatedScoreZero(a: seq<Token>, b: seq<Token>, k: nat, w: nat)
    requires k >= 1
    requires forall i, j :: 0 <= i <= |a| - k && 0 <= j <= |b| - k ==> GramAt(a, k, i).hash != GramAt(b, k, j).hash
    ensures var cmp := CompareFingerprints(Fingerprints(a, k, w), Fingerprints(b, k, w));
            cmp.sharedCount == 0 && cmp.similarity == 0.0
  {
    hide GramAt, Chosen, CompareFingerprints;
    var fa, fb := Fingerprints(a, k, w), Fingerprints(b, k, w);
    Highlight.ChosenFromGrams(Grams(a, k), w, |Grams(a, k)|);
    Highlight.ChosenFromGrams(Grams(b, k), w, |Grams(b, k)|);
    forall f, g | f in fa && g in fb ensures f.hash != g.hash {
      var i :| 0 <= i < |Grams(a, k)| && Grams(a, k)[i] == f;
      var j :| 0 <= j < |Grams(b, k)| && Grams(b, k)[j] == g;
      assert GramAt(a, k, i).hash != GramAt(b, k, j).hash;
    }
    ExtremeScores(fa, fb);
  }

  lemma {:induction false} JoinedDiffer(a: seq<Token>, b: seq<Token>, m: nat) returns (i: nat)
    requires |a| == |b| && m < |a|
    requires |a[m].normalized| == |b[m].normalized| == 1 && a[m].normalized != b[m].normalized
    requires forall n :: 0 <= n < |a| && n != m ==> a[n].normalized == b[n].normalized
    ensures DifferOnlyAt(Joined(a), Joined(b), i)
  {
    if m == 0 {
      i := 0;
      if |a| > 1 {
        SameNormsJoin(a[1..], b[1..]);
      }
    } else {
      var j := JoinedDiffer(a[1..], b[1..], m - 1);
      i := |a[0].normalized| + 1 + j;
      var x, y := Joined(a), Joined(b);
      var head := a[0].normalized + [SPACE];
      assert forall n :: 0 <= n < |x| ==> x[n] == if n < |head| then head[n] else Joined(a[1..])[n - |head|];
      assert forall n :: 0 <= n < |y| ==> y[n] == if n < |head| then head[n] else Joined(b[1..])[n - |head|];
    }
  }

  lemma SameNormsJoin(a: seq<Token>, b: seq<Token>)
    requires |a| == |b| && forall n :: 0 <= n < |a| ==> a[n].normalized == b[n].normalized
    ensures Joined(a) == Joined(b)
  {
    assert Norms(a) == Norms(b);
    JoinedByNorms(a, b);
  }

  /** Replacing one operator of a fragment of `k` tokens by another is not overlooked: it scores 0. */
  lemma OneOperatorChanged(a: seq<Token>, b: seq<Token>, m: nat, k: nat, w: nat)
    requires k >= 1 && |a| == |b| == k && m < k
    requires |a[m].normalized| == |b[m].normalized| == 1 && a[m].normalized != b[m].normalized
    requires forall n :: 0 <= n < k && n != m ==> a[n].normalized == b[n].normalized
    ensures CompareFingerprints(Fingerprints(a, k, w), Fingerprints(b, k, w)).similarity == 0.0
  {
    hide Joined, Hash, Fingerprints, CompareFingerprints;
    var i := JoinedDiffer(a, b, m);
    OneUnitChangesHash(Joined(a), Joined(b), i);
    assert a[0..0 + k] == a && b[0..0 + k] == b;
    UnrelatedScoreZero(a, b, k, w);
  }
}
