/** What winnowing guarantees about the comparison of two submissions. */
module Similarity {
  import opened Text
  import opened Keywords
  import opened Tokenizer
  import opened Winnowing
  import opened Editing
  import opened Edits

  datatype Comparison = Comparison(
    percentA: real, percentB: real, similarity: real, sharedCount: nat, shared: set<int>)

  function Hashes(fingerprints: seq<Gram>): set<int> {
    set f | f in fingerprints :: f.hash
  }

  function Percent(part: nat, whole: nat): (p: real)
    requires part <= whole && whole > 0
    ensures 0.0 <= p <= 100.0
    ensures p == 0.0 <==> part == 0
    ensures p == 100.0 <==> part == whole
  {
    part as real / whole as real * 100.0
  }

  function CompareFingerprints(fpA: seq<Gram>, fpB: seq<Gram>): Comparison {
    var hashesA, hashesB := Hashes(fpA), Hashes(fpB);
    if hashesA == {} || hashesB == {} then Comparison(0.0, 0.0, 0.0, 0, {})
    else
      var shared := set h | h in hashesA && h in hashesB;
      SubsetSize(shared, hashesA);
      SubsetSize(shared, hashesB);
      var percentA := Percent(|shared|, |hashesA|);
      var percentB := Percent(|shared|, |hashesB|);
      Comparison(percentA, percentB, if percentA >= percentB then percentA else percentB, |shared|, shared)
  }

  lemma {:induction false} SubsetSize<T>(a: set<T>, b: set<T>)
    requires a <= b
    ensures |a| <= |b|
  {
    if a == {} {
    } else {
      var x :| x in a;
      SubsetSize(a - {x}, b - {x});
    }
  }

  method ComputeFingerprint(code: Text, language: Language)
    returns (tokenCount: nat, fingerprints: seq<Gram>)
    ensures tokenCount == |Tokens(code, language)|
    ensures fingerprints == Fingerprints(Tokens(code, language), K_GRAM_SIZE, WINDOW_SIZE)
  {
    var tokens := Tokenize(code, language);
    fingerprints := Winnow(tokens, K_GRAM_SIZE, WINDOW_SIZE);
    tokenCount := |tokens|;
  }

  // ---------------------------------------------------------------------------
  // The selection
  // ---------------------------------------------------------------------------

  lemma {:induction false} ChosenContains(grams: seq<Gram>, w: nat, n: nat, p: nat)
    requires p < n <= |grams| && IsChosen(grams, w, p)
    ensures grams[p] in Chosen(grams, w, n)
  {
    if p == n - 1 {
    } else {
      ChosenContains(grams, w, n - 1, p);
    }
  }

  /** In strictly increasing order, and each the rightmost minimum of some window. */
  ghost predicate InOrder(grams: seq<Gram>, w: nat, c: seq<Gram>, n: nat)
    requires n <= |grams|
  {
    (forall i :: 0 <= i < |c| ==>
      c[i].index < n && c[i] == grams[c[i].index] && IsChosen(grams, w, c[i].index)) &&
    (forall i, j :: 0 <= i < j < |c| ==> c[i].index < c[j].index)
  }

  lemma {:induction false} ChosenInOrder(grams: seq<Gram>, w: nat, n: nat)
    requires n <= |grams|
    requires forall j :: 0 <= j < |grams| ==> grams[j].index == j
    ensures InOrder(grams, w, Chosen(grams, w, n), n)
  {
    hide IsChosen;
    if n == 0 {
    } else {
      ChosenInOrder(grams, w, n - 1);
      assert grams[n - 1].index == n - 1;
    }
  }

  /** Some selected position lies in the window of `w` grams at `i`. */
  ghost predicate HoldsSelection(f: seq<Gram>, w: nat, i: nat) {
    exists m :: 0 <= m < |f| && i <= f[m].index < i + w
  }

  /** Every non-empty stretch has a rightmost minimum. */
  lemma {:induction false} RightmostMinExists(grams: seq<Gram>, lo: nat, hi: nat) returns (p: nat)
    requires lo < hi <= |grams|
    ensures IsRightmostMin(grams, lo, hi, p)
  {
    if lo + 1 == hi {
      p := lo;
    } else {
      var q := RightmostMinExists(grams, lo, hi - 1);
      p := if grams[hi - 1].hash <= grams[q].hash then hi - 1 else q;
    }
  }

  /** The rightmost minimum of any window is among the fingerprints. */
  lemma SelectedIsFingerprint(tokens: seq<Token>, k: nat, w: nat, i: nat, p: nat)
    requires k >= 1 && Selects(Grams(tokens, k), w, i, p)
    ensures Grams(tokens, k)[p] in Fingerprints(tokens, k, w)
  {
    var grams := Grams(tokens, k);
    if |grams| > w {
      SelectedIsChosen(grams, w, i, p);
      ChosenContains(grams, w, |grams|, p);
    }
  }

  /**
   * Selected positions strictly increase, every selected gram is the rightmost minimum of some
   * window, and every window of `w` grams holds a selected position.
   */
  lemma SelectionCovers(tokens: seq<Token>, k: nat, w: nat)
    requires k >= 1 && w >= 1 && |Grams(tokens, k)| > w
    ensures InOrder(Grams(tokens, k), w, Fingerprints(tokens, k, w), |Grams(tokens, k)|)
    ensures forall i: nat {:trigger HoldsSelection(Fingerprints(tokens, k, w), w, i)} ::
              i <= |Grams(tokens, k)| - w ==> HoldsSelection(Fingerprints(tokens, k, w), w, i)
  {
    hide IsRightmostMin, IsChosen, GramAt;
    var grams, f := Grams(tokens, k), Fingerprints(tokens, k, w);
    GramIndices(tokens, k);
    ChosenInOrder(grams, w, |grams|);
    forall i: nat {:trigger HoldsSelection(f, w, i)} | i <= |grams| - w ensures HoldsSelection(f, w, i) {
      var p := RightmostMinExists(grams, i, i + w);
      assert i <= p < i + w by { InWindow(grams, i, i + w, p); }
      SelectedIsFingerprint(tokens, k, w, i, p);
      assert grams[p].index == p;
    }
  }

  lemma GramIndices(tokens: seq<Token>, k: nat)
    requires k >= 1
    ensures forall j :: 0 <= j < |Grams(tokens, k)| ==> Grams(tokens, k)[j].index == j
  {
  }

  lemma InWindow(grams: seq<Gram>, lo: nat, hi: nat, p: nat)
    requires hi <= |grams| && IsRightmostMin(grams, lo, hi, p)
    ensures lo <= p < hi
  {
  }

  /** Consecutive selections are at most `w` apart, and none is missing at either end. */
  lemma SelectionGaps(tokens: seq<Token>, k: nat, w: nat)
    requires k >= 1 && w >= 1 && |Grams(tokens, k)| > w
    ensures var grams, f := Grams(tokens, k), Fingerprints(tokens, k, w);
            |f| > 0 && f[0].index < w && f[|f| - 1].index >= |grams| - w &&
            forall m :: 0 <= m < |f| - 1 ==> f[m + 1].index <= f[m].index + w
  {
    hide Fingerprints, Grams, IsChosen;
    var grams, f := Grams(tokens, k), Fingerprints(tokens, k, w);
    SelectionCovers(tokens, k, w);
    assert HoldsSelection(f, w, 0);
    assert HoldsSelection(f, w, |grams| - w);
    forall m | 0 <= m < |f| - 1 ensures f[m + 1].index <= f[m].index + w {
      var i := f[m].index + 1;
      if i <= |grams| - w {
        assert HoldsSelection(f, w, i);
      }
    }
  }

  // ---------------------------------------------------------------------------
  // The detection guarantee
  // ---------------------------------------------------------------------------

  /** `n` equal normalized tokens, at offset `p` of one stream and `q` of the other. */
  ghost predicate SharesRun(a: seq<Token>, b: seq<Token>, p: nat, q: nat, n: nat) {
    p + n <= |a| && q + n <= |b| &&
    forall x :: p <= x < p + n ==> a[x].normalized == b[x - p + q].normalized
  }

  lemma {:induction false} JoinedByNorms(a: seq<Token>, b: seq<Token>)
    requires Norms(a) == Norms(b)
    ensures Joined(a) == Joined(b)
  {
    if a == [] {
    } else {
      assert a[0].normalized == Norms(a)[0] == b[0].normalized;
      assert Norms(a[1..]) == Norms(a)[1..] == Norms(b[1..]);
      JoinedByNorms(a[1..], b[1..]);
    }
  }

  /** The `w` grams at `p` and at `q` hash alike, in order. */
  ghost predicate HashesAligned(ga: seq<Gram>, gb: seq<Gram>, p: nat, q: nat, w: nat) {
    p + w <= |ga| && q + w <= |gb| &&
    forall x :: p <= x < p + w ==> ga[x].hash == gb[x - p + q].hash
  }

  lemma GramHashesAgree(a: seq<Token>, b: seq<Token>, k: nat, x: nat, y: nat)
    requires k >= 1 && x + k <= |a| && y + k <= |b|
    requires forall z :: x <= z < x + k ==> a[z].normalized == b[z - x + y].normalized
    ensures GramAt(a, k, x).hash == GramAt(b, k, y).hash
  {
    hide Joined, Hash;
    var sa, sb := a[x..x + k], b[y..y + k];
    forall i | 0 <= i < k ensures Norms(sa)[i] == Norms(sb)[i] {
      assert a[x + i].normalized == b[x + i - x + y].normalized;
    }
    assert Norms(sa) == Norms(sb);
    JoinedByNorms(sa, sb);
  }

  /** Inside a shared run, corresponding grams hash alike. */
  lemma RunHashesAligned(a: seq<Token>, b: seq<Token>, p: nat, q: nat, n: nat, k: nat, w: nat)
    requires k >= 1 && SharesRun(a, b, p, q, n) && (w == 0 || w + k - 1 <= n)
    requires w == 0 ==> p <= |Grams(a, k)| && q <= |Grams(b, k)|
    ensures HashesAligned(Grams(a, k), Grams(b, k), p, q, w)
  {
    hide GramAt;
    forall x | p <= x < p + w ensures Grams(a, k)[x].hash == Grams(b, k)[x - p + q].hash {
      forall z | x <= z < x + k ensures a[z].normalized == b[z - x + (x - p + q)].normalized {
        assert a[z].normalized == b[z - p + q].normalized;
      }
      GramHashesAgree(a, b, k, x, x - p + q);
    }
  }

  lemma WindowsAgree(ga: seq<Gram>, gb: seq<Gram>, p: nat, q: nat, w: nat, x: nat)
    requires HashesAligned(ga, gb, p, q, w)
    requires IsRightmostMin(ga, p, p + w, x)
    ensures IsRightmostMin(gb, q, q + w, x - p + q)
  {
    var y := x - p + q;
    forall j | q <= j < q + w
      ensures gb[y].hash <= gb[j].hash && (y < j ==> gb[y].hash < gb[j].hash)
    {
      assert ga[j - q + p].hash == gb[j].hash;
    }
  }

  /**
   * Winnowing's guarantee: two streams sharing k + w - 1 equal tokens, at any offsets, share a
   * fingerprint, also when either document is too short for a full window.
   */
  lemma DetectionGuarantee(a: seq<Token>, b: seq<Token>, p: nat, q: nat, n: nat, k: nat, w: nat)
    requires k >= 1 && w >= 1 && n >= k + w - 1
    requires SharesRun(a, b, p, q, n)
    ensures CompareFingerprints(Fingerprints(a, k, w), Fingerprints(b, k, w)).sharedCount > 0
  {
    hide Fingerprints, Grams, CompareFingerprints, SharesRun;
    var ga, gb := Grams(a, k), Grams(b, k);
    RunHashesAligned(a, b, p, q, n, k, w);
    var x := RightmostMinExists(ga, p, p + w);
    var y := x - p + q;
    WindowsAgree(ga, gb, p, q, w, x);
    SelectedIsFingerprint(a, k, w, p, x);
    SelectedIsFingerprint(b, k, w, q, y);
    SharedHash(Fingerprints(a, k, w), Fingerprints(b, k, w), ga[x], gb[y]);
  }

  lemma SharedHash(fpA: seq<Gram>, fpB: seq<Gram>, f: Gram, g: Gram)
    requires f in fpA && g in fpB && f.hash == g.hash
    ensures f.hash in CompareFingerprints(fpA, fpB).shared
    ensures CompareFingerprints(fpA, fpB).sharedCount > 0
  {
  }

  // ---------------------------------------------------------------------------
  // Robustness: what a disguised copy scores
  // ---------------------------------------------------------------------------

  lemma {:induction false} ChosenByHashes(ga: seq<Gram>, gb: seq<Gram>, w: nat, n: nat)
    requires |ga| == |gb| && n <= |ga|
    requires forall j :: 0 <= j < |ga| ==> ga[j].hash == gb[j].hash
    ensures var ca, cb := Chosen(ga, w, n), Chosen(gb, w, n);
            |ca| == |cb| && forall i :: 0 <= i < |ca| ==> ca[i].hash == cb[i].hash
  {
    if n == 0 {
    } else {
      ChosenByHashes(ga, gb, w, n - 1);
      ChosenByHash(ga, gb, w, n - 1);
    }
  }

  lemma ChosenByHash(ga: seq<Gram>, gb: seq<Gram>, w: nat, p: nat)
    requires |ga| == |gb|
    requires forall j :: 0 <= j < |ga| ==> ga[j].hash == gb[j].hash
    ensures IsChosen(ga, w, p) <==> IsChosen(gb, w, p)
  {
    if IsChosen(ga, w, p) {
      var i: nat :| Selects(ga, w, i, p);
      assert Selects(gb, w, i, p);
    }
    if IsChosen(gb, w, p) {
      var i: nat :| Selects(gb, w, i, p);
      assert Selects(ga, w, i, p);
    }
  }

  /** The fingerprint hashes depend on the normalized stream alone. */
  lemma HashesByNorms(a: seq<Token>, b: seq<Token>, k: nat, w: nat)
    requires k >= 1 && Norms(a) == Norms(b)
    ensures Hashes(Fingerprints(a, k, w)) == Hashes(Fingerprints(b, k, w))
  {
    hide GramAt, IsChosen;
    var ga, gb := Grams(a, k), Grams(b, k);
    assert |a| == |Norms(a)| == |b|;
    forall x | 0 <= x < |a| ensures a[x].normalized == b[x].normalized {
      assert Norms(a)[x] == Norms(b)[x];
    }
    RunHashesAligned(a, b, 0, 0, |a|, k, |ga|);
    forall j | 0 <= j < |ga| ensures ga[j].hash == gb[j].hash {
      assert ga[j].hash == gb[j - 0 + 0].hash;
    }
    ChosenByHashes(ga, gb, w, |ga|);
    SameHashSets(Fingerprints(a, k, w), Fingerprints(b, k, w));
  }

  lemma SameHashSets(fa: seq<Gram>, fb: seq<Gram>)
    requires |fa| == |fb| && forall i :: 0 <= i < |fa| ==> fa[i].hash == fb[i].hash
    ensures Hashes(fa) == Hashes(fb)
  {
  }

  /** One of the two texts is an edit of the other. */
  ghost predicate OneEditApart(x: Text, y: Text, python: bool, keywords: set<Text>) {
    (exists e :: CanEdit(x, python, keywords, e) && ApplyEdit(x, python, keywords, e) == y) ||
    (exists e :: CanEdit(y, python, keywords, e) && ApplyEdit(y, python, keywords, e) == x)
  }

  /** From the first text to the last, each step makes an edit or takes one back. */
  ghost predicate IsDisguise(texts: seq<Text>, python: bool, keywords: set<Text>) {
    texts != [] && forall i :: 0 <= i < |texts| - 1 ==> OneEditApart(texts[i], texts[i + 1], python, keywords)
  }

  lemma OneEditNorms(x: Text, y: Text, python: bool, keywords: set<Text>)
    requires OneEditApart(x, y, python, keywords)
    ensures Norms(Scan(x, 0, python, keywords)) == Norms(Scan(y, 0, python, keywords))
  {
    hide Scan, CanEdit, ApplyEdit;
    if e :| CanEdit(x, python, keywords, e) && ApplyEdit(x, python, keywords, e) == y {
      EditKeepsNorms(x, python, keywords, e);
    } else {
      var e :| CanEdit(y, python, keywords, e) && ApplyEdit(y, python, keywords, e) == x;
      EditKeepsNorms(y, python, keywords, e);
    }
  }

  lemma {:induction false} DisguiseKeepsNorms(texts: seq<Text>, python: bool, keywords: set<Text>)
    requires IsDisguise(texts, python, keywords)
    ensures Norms(Scan(texts[|texts| - 1], 0, python, keywords)) == Norms(Scan(texts[0], 0, python, keywords))
  {
    hide Scan, OneEditApart;
    if |texts| > 1 {
      DisguiseKeepsNorms(texts[..|texts| - 1], python, keywords);
      OneEditNorms(texts[|texts| - 2], texts[|texts| - 1], python, keywords);
    }
  }

  /**
   * However many identifiers are renamed, blanks added, removed or replaced and comment lines put in
   * or taken out, a copy long enough to have a fingerprint at all scores 100% in both directions.
   */
  lemma DisguisedCopyScores100(texts: seq<Text>, python: bool, keywords: set<Text>, k: nat, w: nat)
    requires k >= 1 && w >= 1 && IsDisguise(texts, python, keywords)
    requires |Scan(texts[0], 0, python, keywords)| >= k
    ensures var cmp := CompareFingerprints(
              Fingerprints(Scan(texts[0], 0, python, keywords), k, w),
              Fingerprints(Scan(texts[|texts| - 1], 0, python, keywords), k, w));
            cmp.percentA == 100.0 && cmp.percentB == 100.0 && cmp.similarity == 100.0
  {
    hide Scan, Fingerprints, OneEditApart;
    DisguiseKeepsNorms(texts, python, keywords);
    var a, b := Scan(texts[0], 0, python, keywords), Scan(texts[|texts| - 1], 0, python, keywords);
    HashesByNorms(a, b, k, w);
    FingerprintExists(a, k, w);
    var fa, fb := Fingerprints(a, k, w), Fingerprints(b, k, w);
    assert fa[0].hash in Hashes(fa);
    assert (set h | h in Hashes(fa) && h in Hashes(fb)) == Hashes(fa);
  }

  /** A stream has a fingerprint exactly when it is long enough for one gram. */
  lemma FingerprintExists(tokens: seq<Token>, k: nat, w: nat)
    requires k >= 1 && w >= 1
    ensures Fingerprints(tokens, k, w) != [] <==> |tokens| >= k
  {
    if |Grams(tokens, k)| > w {
      SelectionGaps(tokens, k, w);
    }
  }

  /** As shipped: eight equal tokens in a row, anywhere in two sources, always show. */
  lemma EightTokensSuffice(x: Text, y: Text, a: Language, b: Language, p: nat, q: nat)
    requires SharesRun(Tokens(x, a), Tokens(y, b), p, q, 8)
    ensures CompareFingerprints(Fingerprints(Tokens(x, a), K_GRAM_SIZE, WINDOW_SIZE),
                                Fingerprints(Tokens(y, b), K_GRAM_SIZE, WINDOW_SIZE)).sharedCount > 0
  {
    hide Tokens, Fingerprints, SharesRun, CompareFingerprints;
    DetectionGuarantee(Tokens(x, a), Tokens(y, b), p, q, 8, K_GRAM_SIZE, WINDOW_SIZE);
  }
}
