/** What each checker accepts, in terms of the words, lines and numbers of the two outputs. */
module Judging {
  import opened Lists
  import opened Text
  import opened Normalizing
  import opened Checker
  import Counting

  // ---------------------------------------------------------------------------
  // The words of a text
  // ---------------------------------------------------------------------------

  predicate AllSpace(t: Text) {
    forall i :: 0 <= i < |t| ==> IsSpace(t[i])
  }

  predicate IsWord(t: Text) {
    t != [] && forall i :: 0 <= i < |t| ==> !IsSpace(t[i])
  }

  /** The first word stands at [i, j), between white space or the ends of the text. */
  ghost predicate StartsWith(t: Text, word: Text, i: nat, j: nat) {
    i < j <= |t| && AllSpace(t[..i]) && t[i..j] == word && IsWord(word) && (j == |t| || IsSpace(t[j]))
  }

  /** The text is these words, with white space between them and perhaps around them. */
  ghost predicate Reads(t: Text, words: seq<Text>)
    decreases |words|
  {
    if words == [] then AllSpace(t)
    else exists i: nat, j: nat :: StartsWith(t, words[0], i, j) && Reads(t[j..], words[1..])
  }

  lemma {:induction false} GapHasNoWords(gap: Text, y: Text)
    requires AllSpace(gap)
    ensures Words(gap + y) == Words(y)
  {
    hide Words, IsSpace;
    if gap == [] {
      assert gap + y == y;
    } else {
      GapHasNoWords(gap[1..], y);
      WordsAround([], gap[0], gap[1..] + y);
      NoWords();
      assert gap + y == [] + [gap[0]] + (gap[1..] + y);
    }
  }

  lemma OneWord(word: Text)
    requires IsWord(word)
    ensures Words(word) == [word]
  {
    hide IsSpace;
    SplitClean(word, IsSpace);
    assert [word][..0] == [];
    assert NonEmpty([word]) == NonEmpty([]) + [word];
  }

  /** A word, and then nothing or white space. */
  lemma WordThenRest(word: Text, rest: Text)
    requires IsWord(word) && (rest == [] || IsSpace(rest[0]))
    ensures Words(word + rest) == [word] + Words(rest)
  {
    hide Words, IsSpace, IsWord;
    OneWord(word);
    NoWords();
    if rest == [] {
      assert word + rest == word;
    } else {
      var more := rest[1..];
      assert rest == [] + [rest[0]] + more && word + rest == word + [rest[0]] + more;
      WordsAround(word, rest[0], more);
      WordsAround([], rest[0], more);
    }
  }

  lemma FirstWord(t: Text, words: seq<Text>) returns (i: nat, j: nat)
    requires words != [] && Reads(t, words)
    ensures i < j <= |t| && StartsWith(t, words[0], i, j) && Reads(t[j..], words[1..])
  {
    hide IsWord, AllSpace;
    i, j :| StartsWith(t, words[0], i, j) && Reads(t[j..], words[1..]);
  }

  lemma AroundFirstWord(t: Text, word: Text, i: nat, j: nat)
    requires i < j <= |t| && StartsWith(t, word, i, j)
    ensures t == t[..i] + (word + t[j..]) && AllSpace(t[..i]) && IsWord(word)
    ensures t[j..] == [] || IsSpace(t[j..][0])
  {
    hide IsSpace, IsWord, AllSpace;
    assert t == t[..i] + (t[i..j] + t[j..]);
  }

  lemma {:induction false} ReadsAreWords(t: Text, words: seq<Text>)
    requires Reads(t, words)
    ensures Words(t) == words
    decreases |words|
  {
    hide Words, IsSpace, IsWord, StartsWith, AllSpace;
    if words == [] {
      GapHasNoWords(t, []);
      NoWords();
      assert t + [] == t;
    } else {
      hide Reads;
      var i, j := FirstWord(t, words);
      AroundFirstWord(t, words[0], i, j);
      ReadsAreWords(t[j..], words[1..]);
      GapHasNoWords(t[..i], words[0] + t[j..]);
      WordThenRest(words[0], t[j..]);
      assert words == [words[0]] + words[1..];
    }
  }

  function WordEnd(t: Text): (n: nat)
    ensures n <= |t| && (forall i :: 0 <= i < n ==> !IsSpace(t[i])) && (n == |t| || IsSpace(t[n]))
  {
    if t == [] || IsSpace(t[0]) then 0 else 1 + WordEnd(t[1..])
  }

  lemma SpaceInFront(t: Text, word: Text, i: nat, j: nat)
    requires t != [] && IsSpace(t[0]) && i < j < |t| && StartsWith(t[1..], word, i, j)
    ensures StartsWith(t, word, i + 1, j + 1) && t[1..][j..] == t[j + 1..]
  {
    hide IsSpace, IsWord;
    assert t[..i + 1] == [t[0]] + t[1..][..i];
    assert t[i + 1..j + 1] == t[1..][i..j];
  }

  lemma GapInFront(t: Text, words: seq<Text>)
    requires t != [] && IsSpace(t[0]) && Reads(t[1..], words)
    ensures Reads(t, words)
  {
    hide IsSpace, StartsWith;
    if words != [] {
      var i, j := FirstWord(t[1..], words);
      SpaceInFront(t, words[0], i, j);
      assert Reads(t[j + 1..], words[1..]);
    }
  }

  /** Every text can be read so. */
  lemma {:induction false} EveryTextReads(t: Text) returns (words: seq<Text>)
    ensures Reads(t, words)
    decreases |t|
  {
    hide IsSpace, Reads;
    if t == [] {
      words := [];
      EmptyReads();
    } else if IsSpace(t[0]) {
      words := EveryTextReads(t[1..]);
      GapInFront(t, words);
    } else {
      var n := WordEnd(t);
      var rest := EveryTextReads(t[n..]);
      words := [t[..n]] + rest;
      assert StartsWith(t, t[..n], 0, n);
      WordInFront(t, n, rest);
    }
  }

  lemma EmptyReads()
    ensures Reads([], [])
  {
  }

  lemma WordInFront(t: Text, n: nat, rest: seq<Text>)
    requires n <= |t| && StartsWith(t, t[..n], 0, n) && Reads(t[n..], rest)
    ensures Reads(t, [t[..n]] + rest)
  {
    hide IsSpace, StartsWith;
    var words := [t[..n]] + rest;
    assert words[0] == t[..n] && words[1..] == rest;
    assert StartsWith(t, words[0], 0, n) && Reads(t[n..], words[1..]);
  }

  /** The words of a text are those it reads as, and it reads as no others. */
  lemma WordsExact(t: Text, words: seq<Text>)
    ensures Words(t) == words <==> Reads(t, words)
  {
    hide Words, Reads;
    var own := EveryTextReads(t);
    ReadsAreWords(t, own);
    if Reads(t, words) {
      ReadsAreWords(t, words);
    }
  }

  // ---------------------------------------------------------------------------
  // Rearrangements
  // ---------------------------------------------------------------------------

  /** Each element of `xs` stands in `ys`, at a place of its own. */
  ghost predicate Matches(xs: seq<Text>, ys: seq<Text>, places: seq<nat>) {
    |places| == |xs| == |ys| && Distinct(places) &&
    forall i :: 0 <= i < |xs| ==> places[i] < |ys| && xs[i] == ys[places[i]]
  }

  lemma {:induction false} MatchOf(xs: seq<Text>, ys: seq<Text>) returns (places: seq<nat>)
    requires multiset(xs) == multiset(ys)
    ensures Matches(xs, ys, places)
  {
    assert |xs| == |multiset(xs)| == |multiset(ys)| == |ys|;
    if xs == [] {
      places := [];
    } else {
      var front := xs[..|xs| - 1];
      var i := Counting.MatchLast(xs, ys);
      var rest := MatchOf(front, Counting.Without(ys, i));
      places := Shifted(rest, i) + [i];
      MatchGrows(xs, ys, rest, i);
    }
  }

  /** The places in a list that has one more element, at `i`. */
  function Shifted(places: seq<nat>, i: nat): (r: seq<nat>)
    ensures |r| == |places|
    ensures forall k :: 0 <= k < |r| ==> r[k] == if places[k] < i then places[k] else places[k] + 1
  {
    seq(|places|, k requires 0 <= k < |places| => if places[k] < i then places[k] else places[k] + 1)
  }

  lemma MatchGrows(xs: seq<Text>, ys: seq<Text>, rest: seq<nat>, i: nat)
    requires xs != [] && |xs| == |ys| && i < |ys| && ys[i] == xs[|xs| - 1]
    requires Matches(xs[..|xs| - 1], Counting.Without(ys, i), rest)
    ensures Matches(xs, ys, Shifted(rest, i) + [i])
  {
    var places, front, fewer := Shifted(rest, i) + [i], xs[..|xs| - 1], Counting.Without(ys, i);
    forall k | 0 <= k < |xs| ensures places[k] < |ys| && xs[k] == ys[places[k]] {
      if k < |front| {
        assert front[k] == fewer[rest[k]];
      }
    }
  }

  lemma {:induction false} MatchedBags(xs: seq<Text>, ys: seq<Text>, places: seq<nat>)
    requires Matches(xs, ys, places)
    ensures multiset(xs) == multiset(ys)
  {
    if xs == [] {
    } else {
      var front, i := xs[..|xs| - 1], places[|xs| - 1];
      var rest := Lowered(places[..|xs| - 1], i);
      assert Matches(front, Counting.Without(ys, i), rest);
      MatchedBags(front, Counting.Without(ys, i), rest);
      Counting.MultisetWithout(ys, i);
      assert xs == front + [xs[|xs| - 1]];
    }
  }

  function Lowered(places: seq<nat>, i: nat): (r: seq<nat>)
    requires forall k :: 0 <= k < |places| ==> places[k] != i
    ensures |r| == |places|
    ensures forall k :: 0 <= k < |r| ==> r[k] == if places[k] < i then places[k] else places[k] - 1
  {
    seq(|places|, k requires 0 <= k < |places| => if places[k] < i then places[k] else places[k] - 1)
  }

  ghost predicate IsRearrangement(xs: seq<Text>, ys: seq<Text>) {
    exists places :: Matches(xs, ys, places)
  }

  lemma RearrangedExactlyWhen(xs: seq<Text>, ys: seq<Text>)
    ensures multiset(xs) == multiset(ys) <==> IsRearrangement(xs, ys)
  {
    hide Matches;
    if multiset(xs) == multiset(ys) {
      var places := MatchOf(xs, ys);
    }
    if places :| Matches(xs, ys, places) {
      MatchedBags(xs, ys, places);
    }
  }

  // ---------------------------------------------------------------------------
  // Numbers
  // ---------------------------------------------------------------------------

  /** The larger of the two magnitudes. */
  predicate IsScale(m: real, x: real, y: real) {
    -m <= x <= m && -m <= y <= m && (m == x || m == -x || m == y || m == -y)
  }

  function ScaleOf(x: real, y: real): (m: real)
    ensures m >= 0.0 && IsScale(m, x, y)
  {
    var a, b := if x < 0.0 then -x else x, if y < 0.0 then -y else y;
    if a >= b then a else b
  }

  lemma ScaleIsUnique(m: real, x: real, y: real)
    requires IsScale(m, x, y)
    ensures m == ScaleOf(x, y)
  {
  }

  /** No further apart than this fraction of the larger magnitude. */
  ghost predicate WithinShare(x: real, y: real, t: real) {
    exists m :: IsScale(m, x, y) && -(t * m) <= x - y <= t * m
  }

  /** No further apart than the tolerance, or than that fraction of the larger magnitude. */
  ghost predicate Within(x: real, y: real, tolerance: Number) {
    match tolerance
    case Finite(t) => -t <= x - y <= t || ((x != 0.0 || y != 0.0) && WithinShare(x, y, t))
    case PosInf => true
    case NegInf => false
    case NaN => false
  }

  lemma ShareExact(x: real, y: real, t: real)
    ensures WithinShare(x, y, t) <==> -(t * ScaleOf(x, y)) <= x - y <= t * ScaleOf(x, y)
  {
    hide IsScale, ScaleOf;
    forall m | IsScale(m, x, y) ensures m == ScaleOf(x, y) {
      ScaleIsUnique(m, x, y);
    }
  }

  lemma Quotient(d: real, m: real, t: real)
    requires m > 0.0
    ensures d / m <= t <==> d <= t * m
  {
    if d / m <= t {
      assert d / m * m <= t * m;
    }
    if d <= t * m {
      assert d / m <= t * m / m;
    }
  }

  lemma ScaleByMagnitude(x: real, y: real)
    ensures ScaleOf(x, y) == if Abs(x) >= Abs(y) then Abs(x) else Abs(y)
    ensures ScaleOf(x, y) > 0.0 <==> x != 0.0 || y != 0.0
  {
  }

  lemma AbsAtMost(d: real, bound: real)
    ensures Abs(d) <= bound <==> -bound <= d <= bound
  {
  }

  /** For finite numbers the checker's comparison, which divides, is this one. */
  lemma FiniteClose(x: real, y: real, tolerance: Number)
    ensures NumbersClose(Finite(x), Finite(y), tolerance) <==> Within(x, y, tolerance)
  {
    hide WithinShare, ScaleOf, Abs;
    ScaleByMagnitude(x, y);
    if tolerance.Finite? {
      var t, m := tolerance.value, ScaleOf(x, y);
      AbsAtMost(x - y, t);
      AbsAtMost(x - y, t * m);
      ShareExact(x, y, t);
      if m > 0.0 {
        Quotient(Abs(x - y), m, t);
      }
    }
  }

  /** Finite numbers as above, infinities only with themselves. */
  ghost predicate Near(a: Number, b: Number, tolerance: Number) {
    if a.Finite? && b.Finite? then Within(a.value, b.value, tolerance) else a == b
  }

  lemma CloseExact(a: Number, b: Number, tolerance: Number)
    ensures NumbersClose(a, b, tolerance) <==> Near(a, b, tolerance)
  {
    if a.Finite? && b.Finite? {
      FiniteClose(a.value, b.value, tolerance);
    }
  }

  // ---------------------------------------------------------------------------
  // The float checker
  // ---------------------------------------------------------------------------

  /** A label stands for itself, a number for every number near it. */
  ghost predicate Stands(number: Text -> Number, word: Text, expected: Text, tolerance: Number) {
    if number(expected).NaN? then word == expected
    else !number(word).NaN? && Near(number(word), number(expected), tolerance)
  }

  /**
   * The float checker accepts an output exactly when it has as many words as the expected one, each
   * the same label or a number within the tolerance.
   */
  lemma FloatExact(host: Host, tolerance: Number, actual: Text, expected: Text, a: seq<Text>, e: seq<Text>)
    requires Reads(Normalize(actual), a) && Reads(Normalize(expected), e)
    ensures Accepts(Float, host, tolerance, actual, expected) <==>
            |a| == |e| && forall i :: 0 <= i < |e| ==> Stands(host.number, a[i], e[i], tolerance)
  {
    hide Normalize, Words, Reads, NumbersClose, Near;
    WordsExact(Normalize(actual), a);
    WordsExact(Normalize(expected), e);
    forall i | 0 <= i < |a| && i < |e|
      ensures TokenAgrees(host.number, a[i], e[i], tolerance) <==> Stands(host.number, a[i], e[i], tolerance)
    {
      CloseExact(host.number(a[i]), host.number(e[i]), tolerance);
    }
  }

  lemma WordReadsItself(word: Text)
    requires IsWord(word)
    ensures Normalize(word) == word && Reads(word, [word])
  {
    assert IsTidy(word) by {
      assert forall i :: 0 <= i < |word| ==> word[i] != LF && !IsBlank(word[i]);
    }
    TidyExactlyWhenFixed(word);
    hide Normalize, IsSpace;
    EmptyReads();
    var words := [word];
    assert StartsWith(word, words[0], 0, |word|);
    assert word[|word|..] == [] && words[1..] == [];
    assert Reads(word[|word|..], words[1..]);
  }

  /** One number printed for one number expected. */
  lemma OneNumber(host: Host, tolerance: Number, actual: Text, expected: Text)
    requires IsWord(actual) && IsWord(expected)
    requires host.number(actual).Finite? && host.number(expected).Finite?
    ensures Accepts(Float, host, tolerance, actual, expected) <==>
            Within(host.number(actual).value, host.number(expected).value, tolerance)
  {
    hide Normalize, Reads, IsWord, Within;
    WordReadsItself(actual);
    WordReadsItself(expected);
    FloatExact(host, tolerance, actual, expected, [actual], [expected]);
    assert Stands(host.number, [actual][0], [expected][0], tolerance) <==>
           Within(host.number(actual).value, host.number(expected).value, tolerance);
  }

  /** Under a tolerance of zero numbers have to be equal. */
  lemma ZeroToleranceIsEquality(
    host: Host, actual: Text, expected: Text, a: seq<Text>, e: seq<Text>)
    requires Reads(Normalize(actual), a) && Reads(Normalize(expected), e)
    ensures Accepts(Float, host, Finite(0.0), actual, expected) <==>
            |a| == |e| && forall i :: 0 <= i < |e| ==>
              if host.number(e[i]).NaN? then a[i] == e[i] else host.number(a[i]) == host.number(e[i])
  {
    hide Normalize, Reads;
    FloatExact(host, Finite(0.0), actual, expected, a, e);
    forall x: real, y: real ensures Within(x, y, Finite(0.0)) <==> x == y {
      WithinNothing(x, y);
    }
  }

  lemma WithinNothing(x: real, y: real)
    ensures Within(x, y, Finite(0.0)) <==> x == y
  {
    hide WithinShare, ScaleOf;
    ShareExact(x, y, 0.0);
    assert 0.0 * ScaleOf(x, y) == 0.0;
  }

  predicate NoTighter(t: Number, u: Number) {
    match t
    case Finite(x) => u.PosInf? || (u.Finite? && x <= u.value)
    case PosInf => u.PosInf?
    case NegInf => true
    case NaN => true
  }

  lemma Product(x: real, y: real, m: real)
    requires x <= y && m >= 0.0
    ensures x * m <= y * m
  {
  }

  lemma ShareMore(x: real, y: real, t: real, u: real)
    requires t <= u && WithinShare(x, y, t)
    ensures WithinShare(x, y, u)
  {
    var m :| IsScale(m, x, y) && -(t * m) <= x - y <= t * m;
    var a, b := t * m, u * m;
    Product(t, u, m);
    assert a <= b;
    assert -(u * m) <= x - y <= u * m;
  }

  lemma WithinMore(x: real, y: real, t: Number, u: Number)
    requires NoTighter(t, u) && Within(x, y, t)
    ensures Within(x, y, u)
  {
    hide WithinShare;
    if t.Finite? && u.Finite? && WithinShare(x, y, t.value) {
      ShareMore(x, y, t.value, u.value);
    }
  }

  /** Raising the tolerance never rejects what was accepted. */
  lemma RaisingNeverRejects(host: Host, t: Number, u: Number, a: Text, b: Text)
    requires NoTighter(t, u) && Accepts(Float, host, t, a, b)
    ensures Accepts(Float, host, u, a, b)
  {
    hide Normalize, Words, NumbersClose, Within, NoTighter;
    var x, y := Tokens(a), Tokens(b);
    forall i | 0 <= i < |y| ensures TokenAgrees(host.number, x[i], y[i], u) {
      var p, q := host.number(x[i]), host.number(y[i]);
      assert TokenAgrees(host.number, x[i], y[i], t);
      if !q.NaN? {
        CloseExact(p, q, t);
        CloseExact(p, q, u);
        if p.Finite? && q.Finite? {
          WithinMore(p.value, q.value, t, u);
        }
      }
    }
  }

  /** 2.71 is not accepted for 3.14 under the default tolerance, nor under any below 0.13. */
  lemma FarIsRejected(t: real)
    requires t <= 0.13
    ensures !Within(2.71, 3.14, Finite(t))
  {
    ShareExact(2.71, 3.14, t);
    assert ScaleOf(2.71, 3.14) == 3.14;
  }

  // ---------------------------------------------------------------------------
  // The other checkers
  // ---------------------------------------------------------------------------

  /** `unordered_tokens` wants the same words, rearranged. */
  lemma UnorderedTokensExact(host: Host, tolerance: Number, actual: Text, expected: Text, a: seq<Text>, e: seq<Text>)
    requires Reads(Normalize(actual), a) && Reads(Normalize(expected), e)
    ensures Accepts(UnorderedTokens, host, tolerance, actual, expected) <==> IsRearrangement(a, e)
  {
    hide Normalize, Words, Reads, IsRearrangement;
    WordsExact(Normalize(actual), a);
    WordsExact(Normalize(expected), e);
    RearrangedExactlyWhen(a, e);
  }

  /** The text between the white space at its ends. */
  ghost predicate IsTrimmed(t: Text, core: Text) {
    (core == [] || (!IsSpace(core[0]) && !IsSpace(core[|core| - 1]))) &&
    exists i: nat, j: nat :: i <= j <= |t| && AllSpace(t[..i]) && t[i..j] == core && AllSpace(t[j..])
  }

  lemma AllSpaceConcat(a: Text, b: Text)
    requires AllSpace(a) && AllSpace(b)
    ensures AllSpace(a + b)
  {
  }

  lemma OneSpace(c: Unit)
    ensures AllSpace([]) && (IsSpace(c) ==> AllSpace([c]))
  {
  }

  lemma {:induction false} StripStartSplits(t: Text) returns (i: nat)
    ensures i <= |t| && AllSpace(t[..i]) && StripStart(t) == t[i..]
    ensures StripStart(t) != [] ==> !IsSpace(StripStart(t)[0])
  {
    hide IsSpace, AllSpace;
    if t != [] && IsSpace(t[0]) {
      var k := StripStartSplits(t[1..]);
      i := k + 1;
      assert t[..i] == [t[0]] + t[1..][..k];
      OneSpace(t[0]);
      AllSpaceConcat([t[0]], t[1..][..k]);
    } else {
      i := 0;
      OneSpace(SPACE);
      assert t[..0] == [];
    }
  }

  lemma {:induction false} StripEndSplits(t: Text) returns (j: nat)
    ensures j <= |t| && AllSpace(t[j..]) && StripEnd(t, IsSpace) == t[..j]
    ensures j > 0 ==> !IsSpace(t[j - 1])
  {
    hide IsSpace, AllSpace;
    if t != [] && IsSpace(t[|t| - 1]) {
      j := StripEndSplits(t[..|t| - 1]);
      assert t[j..] == t[..|t| - 1][j..] + [t[|t| - 1]];
      OneSpace(t[|t| - 1]);
      AllSpaceConcat(t[..|t| - 1][j..], [t[|t| - 1]]);
    } else {
      j := |t|;
      OneSpace(SPACE);
      assert t[j..] == [];
    }
  }

  lemma TrimExact(t: Text)
    ensures IsTrimmed(t, Trim(t))
  {
    hide IsSpace, StripStart, StripEnd;
    var i := StripStartSplits(t);
    var s := StripStart(t);
    var j := StripEndSplits(s);
    assert t[i..][j..] == t[i + j..] && t[i..i + j] == s[..j];
    assert Trim(t) == s[..j];
    assert j > 0 ==> s[..j][0] == s[0];
  }

  /** `unordered_lines` wants the same lines without the white space around them, rearranged. */
  lemma UnorderedLinesExact(host: Host, tolerance: Number, actual: Text, expected: Text)
    ensures var a, e := Split(Normalize(actual), IsBreak), Split(Normalize(expected), IsBreak);
            Join(a) == Normalize(actual) && Clean(a) && Join(e) == Normalize(expected) && Clean(e) &&
            (forall i :: 0 <= i < |a| ==> IsTrimmed(a[i], Lines(actual)[i])) && |Lines(actual)| == |a| &&
            (forall i :: 0 <= i < |e| ==> IsTrimmed(e[i], Lines(expected)[i])) && |Lines(expected)| == |e| &&
            (Accepts(UnorderedLines, host, tolerance, actual, expected) <==>
             IsRearrangement(Lines(actual), Lines(expected)))
  {
    hide Normalize, Split, Join, IsTrimmed, IsRearrangement, Trim;
    LinesShape(actual);
    LinesShape(expected);
    RearrangedExactlyWhen(Lines(actual), Lines(expected));
  }

  lemma LinesShape(t: Text)
    ensures var lines := Split(Normalize(t), IsBreak);
            Join(lines) == Normalize(t) && Clean(lines) && |Lines(t)| == |lines| &&
            forall i :: 0 <= i < |lines| ==> IsTrimmed(lines[i], Lines(t)[i])
  {
    hide Normalize, Split, Join, IsTrimmed, Trim;
    var lines := Split(Normalize(t), IsBreak);
    JoinSplit(Normalize(t));
    SplitIsClean(Normalize(t));
    forall i | 0 <= i < |lines| ensures IsTrimmed(lines[i], Lines(t)[i]) {
      TrimExact(lines[i]);
    }
  }

  /** `exact`, and every unknown name, wants the same canonical lines; `case_insensitive` up to case. */
  lemma ExactExact(host: Host, tolerance: Number, actual: Text, expected: Text)
    ensures Accepts(Exact, host, tolerance, actual, expected) <==> CanonLines(actual) == CanonLines(expected)
    ensures Accepts(OtherName, host, tolerance, actual, expected) <==> CanonLines(actual) == CanonLines(expected)
    ensures Accepts(CaseInsensitive, host, tolerance, actual, expected) <==>
            host.lower(Join(CanonLines(actual))) == host.lower(Join(CanonLines(expected)))
  {
    hide Normalize, CanonLines;
    SameWhenLinesAgree(actual, expected);
    NormalizeIsCanonical(actual);
    NormalizeIsCanonical(expected);
  }
}
