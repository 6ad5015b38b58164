/**
 * Is this output the right answer? The checkers, what each one decides, and how they relate.
 *
 * Two things of the host language are parameters: `number`, which reads a token as a number, and
 * `lower`, which folds case. The regex checker's match is a parameter as well.
 */
module Checker {
  import opened Text
  import opened Normalizing
  import Counting

  // ---------------------------------------------------------------------------
  // Words and lines
  // ---------------------------------------------------------------------------

  function NonEmpty(pieces: seq<Text>): seq<Text> {
    if pieces == [] then []
    else if pieces[|pieces| - 1] == [] then NonEmpty(pieces[..|pieces| - 1])
    else NonEmpty(pieces[..|pieces| - 1]) + [pieces[|pieces| - 1]]
  }

  /** The maximal runs of units that are not white space. */
  function Words(t: Text): seq<Text> {
    NonEmpty(Split(t, IsSpace))
  }

  function Tokens(t: Text): seq<Text> {
    Words(Normalize(t))
  }

  function StripStart(t: Text): Text {
    if t != [] && IsSpace(t[0]) then StripStart(t[1..]) else t
  }

  function Trim(t: Text): Text {
    StripEnd(StripStart(t), IsSpace)
  }

  function TrimAll(lines: seq<Text>): (r: seq<Text>)
    ensures |r| == |lines| && forall i :: 0 <= i < |lines| ==> r[i] == Trim(lines[i])
  {
    seq(|lines|, i requires 0 <= i < |lines| => Trim(lines[i]))
  }

  function Lines(t: Text): seq<Text> {
    TrimAll(Split(Normalize(t), IsBreak))
  }

  // ---------------------------------------------------------------------------
  // Multisets
  // ---------------------------------------------------------------------------

  function Count(counts: map<Text, nat>, x: Text): nat {
    if x in counts then counts[x] else 0
  }

  ghost predicate Tallies(counts: map<Text, nat>, bag: multiset<Text>) {
    forall x :: Count(counts, x) == bag[x]
  }

  lemma TallyUp(counts: map<Text, nat>, a: seq<Text>, i: nat)
    requires i < |a| && Tallies(counts, multiset(a[..i]))
    ensures Tallies(counts[a[i] := Count(counts, a[i]) + 1], multiset(a[..i + 1]))
  {
    assert a[..i + 1] == a[..i] + [a[i]];
    assert multiset(a[..i + 1]) == multiset(a[..i]) + multiset{a[i]};
    var counts' := counts[a[i] := Count(counts, a[i]) + 1];
    forall x ensures Count(counts', x) == multiset(a[..i + 1])[x] {
      assert Count(counts, x) == multiset(a[..i])[x];
    }
  }

  lemma TallyDown(counts: map<Text, nat>, a: multiset<Text>, b: seq<Text>, i: nat)
    requires i < |b| && multiset(b[..i]) <= a && Tallies(counts, a - multiset(b[..i]))
    requires Count(counts, b[i]) > 0
    ensures multiset(b[..i + 1]) <= a
    ensures Tallies(counts[b[i] := Count(counts, b[i]) - 1], a - multiset(b[..i + 1]))
  {
    var seen := multiset(b[..i]);
    assert b[..i + 1] == b[..i] + [b[i]];
    assert multiset(b[..i + 1]) == seen + multiset{b[i]};
    assert Count(counts, b[i]) == (a - seen)[b[i]];
    var counts' := counts[b[i] := Count(counts, b[i]) - 1];
    forall x ensures Count(counts', x) == (a - multiset(b[..i + 1]))[x] {
      assert Count(counts, x) == (a - seen)[x];
    }
  }

  lemma TallySpent(counts: map<Text, nat>, a: multiset<Text>, b: seq<Text>, i: nat)
    requires i < |b| && multiset(b[..i]) <= a && Tallies(counts, a - multiset(b[..i]))
    requires Count(counts, b[i]) == 0
    ensures a != multiset(b)
  {
    assert b == b[..i] + ([b[i]] + b[i + 1..]);
    assert (a - multiset(b[..i]))[b[i]] == 0;
    assert a[b[i]] == multiset(b[..i])[b[i]];
  }

  /** Same elements, each the same number of times, in whatever order. */
  method SameMultiset(a: seq<Text>, b: seq<Text>) returns (same: bool)
    ensures same <==> multiset(a) == multiset(b)
  {
    hide Tallies;
    if |a| != |b| {
      assert |multiset(a)| != |multiset(b)|;
      return false;
    }
    var counts: map<Text, nat> := map[];
    NothingTallied();
    for i := 0 to |a|
      invariant Tallies(counts, multiset(a[..i]))
    {
      TallyUp(counts, a, i);
      counts := counts[a[i] := Count(counts, a[i]) + 1];
    }
    assert a[..|a|] == a;
    ghost var bag := multiset(a);
    assert bag - multiset(b[..0]) == bag;
    for i := 0 to |b|
      invariant multiset(b[..i]) <= bag && Tallies(counts, bag - multiset(b[..i]))
    {
      if Count(counts, b[i]) == 0 {
        TallySpent(counts, bag, b, i);
        return false;
      }
      TallyDown(counts, bag, b, i);
      counts := counts[b[i] := Count(counts, b[i]) - 1];
    }
    assert b[..|b|] == b;
    WithinAndAsMany(multiset(b), bag);
    return true;
  }

  lemma NothingTallied()
    ensures Tallies(map[], multiset{})
  {
  }

  lemma WithinAndAsMany(small: multiset<Text>, large: multiset<Text>)
    requires small <= large && |small| == |large|
    ensures small == large
  {
    assert large == small + (large - small);
    assert |large - small| == 0;
  }

  // ---------------------------------------------------------------------------
  // Numbers
  // ---------------------------------------------------------------------------

  /** A double, with exact reals for the finite values. */
  datatype Number = NaN | PosInf | NegInf | Finite(value: real)

  predicate AtMost(d: real, tolerance: Number) {
    match tolerance
    case NaN => false
    case PosInf => true
    case NegInf => false
    case Finite(t) => d <= t
  }

  function Abs(x: real): (r: real)
    ensures r >= 0.0 && (r == x || r == -x)
  {
    if x < 0.0 then -x else x
  }

  /** Within the tolerance, absolutely or relative to the larger of the two. */
  predicate NumbersClose(a: Number, b: Number, tolerance: Number) {
    if a.NaN? && b.NaN? then true
    else if !a.Finite? || !b.Finite? then a == b
    else
      var diff := Abs(a.value - b.value);
      if AtMost(diff, tolerance) then true
      else
        var scale := if Abs(a.value) >= Abs(b.value) then Abs(a.value) else Abs(b.value);
        scale > 0.0 && AtMost(diff / scale, tolerance)
  }

  datatype Reason = WrongCount | NotTheLabel(at: nat) | NotANumber(at: nat) | TooFar(at: nat)

  datatype FloatVerdict = Passes | Fails(reason: Reason)

  /** What a pair of tokens has to satisfy: labels literally, numbers within the tolerance. */
  predicate TokenAgrees(number: Text -> Number, actual: Text, expected: Text, tolerance: Number) {
    if number(expected).NaN? then actual == expected
    else !number(actual).NaN? && NumbersClose(number(actual), number(expected), tolerance)
  }

  predicate FloatAgrees(number: Text -> Number, a: seq<Text>, e: seq<Text>, tolerance: Number) {
    |a| == |e| && forall i :: 0 <= i < |e| ==> TokenAgrees(number, a[i], e[i], tolerance)
  }

  /** Stops at the first token that disagrees and says in what way. */
  method CheckFloat(number: Text -> Number, actual: Text, expected: Text, tolerance: Number) returns (r: FloatVerdict)
    ensures r == Passes <==> FloatAgrees(number, Tokens(actual), Tokens(expected), tolerance)
    ensures r.Fails? ==>
              var a, e := Tokens(actual), Tokens(expected);
              match r.reason
              case WrongCount => |a| != |e|
              case NotTheLabel(i) => FirstDisagreement(number, a, e, tolerance, i) && number(e[i]).NaN?
              case NotANumber(i) =>
                FirstDisagreement(number, a, e, tolerance, i) && !number(e[i]).NaN? && number(a[i]).NaN?
              case TooFar(i) =>
                FirstDisagreement(number, a, e, tolerance, i) && !number(e[i]).NaN? && !number(a[i]).NaN?
  {
    hide Tokens, NumbersClose;
    var a, e := Tokens(actual), Tokens(expected);
    if |a| != |e| {
      return Fails(WrongCount);
    }
    for i := 0 to |e|
      invariant forall j :: 0 <= j < i ==> TokenAgrees(number, a[j], e[j], tolerance)
    {
      var expectedNumber, actualNumber := number(e[i]), number(a[i]);
      if expectedNumber.NaN? {
        if a[i] != e[i] {
          return Fails(NotTheLabel(i));
        }
        continue;
      }
      if actualNumber.NaN? {
        return Fails(NotANumber(i));
      }
      if !NumbersClose(actualNumber, expectedNumber, tolerance) {
        return Fails(TooFar(i));
      }
    }
    return Passes;
  }

  predicate FirstDisagreement(number: Text -> Number, a: seq<Text>, e: seq<Text>, tolerance: Number, i: nat) {
    i < |a| && |a| == |e| && !TokenAgrees(number, a[i], e[i], tolerance) &&
    forall j :: 0 <= j < i ==> TokenAgrees(number, a[j], e[j], tolerance)
  }

  // ---------------------------------------------------------------------------
  // The checkers
  // ---------------------------------------------------------------------------

  datatype Kind = Exact | CaseInsensitive | Float | UnorderedLines | UnorderedTokens | Regex | OtherName

  /** What of the host language a check uses. */
  datatype Host = Host(number: Text -> Number, lower: Text -> Text, matches: (Text, Text) -> bool)

  /** When a checker accepts `actual` for `expected`; a name nobody knows judges exactly. */
  predicate Accepts(kind: Kind, host: Host, tolerance: Number, actual: Text, expected: Text) {
    match kind
    case CaseInsensitive => host.lower(Normalize(actual)) == host.lower(Normalize(expected))
    case Float => FloatAgrees(host.number, Tokens(actual), Tokens(expected), tolerance)
    case UnorderedLines => multiset(Lines(actual)) == multiset(Lines(expected))
    case UnorderedTokens => multiset(Tokens(actual)) == multiset(Tokens(expected))
    case Regex => host.matches(Normalize(actual), expected)
    case Exact => Normalize(actual) == Normalize(expected)
    case OtherName => Normalize(actual) == Normalize(expected)
  }

  method Check(kind: Kind, host: Host, tolerance: Number, actual: Text, expected: Text) returns (passed: bool)
    ensures passed <==> Accepts(kind, host, tolerance, actual, expected)
  {
    hide Normalize, Tokens, Lines;
    match kind {
      case CaseInsensitive => passed := host.lower(Normalize(actual)) == host.lower(Normalize(expected));
      case Float =>
        var verdict := CheckFloat(host.number, actual, expected, tolerance);
        passed := verdict == Passes;
      case UnorderedLines => passed := SameMultiset(Lines(actual), Lines(expected));
      case UnorderedTokens => passed := SameMultiset(Tokens(actual), Tokens(expected));
      case Regex => passed := host.matches(Normalize(actual), expected);
      case _ => passed := Normalize(actual) == Normalize(expected);
    }
  }

  // ---------------------------------------------------------------------------
  // The same lines in any order have the same words in any order
  // ---------------------------------------------------------------------------

  lemma {:induction false} NonEmptyConcat(a: seq<Text>, b: seq<Text>)
    ensures NonEmpty(a + b) == NonEmpty(a) + NonEmpty(b)
  {
    if b == [] {
      assert a + b == a;
    } else {
      var b' := b[..|b| - 1];
      assert (a + b)[..|a + b| - 1] == a + b';
      NonEmptyConcat(a, b');
    }
  }

  /** White space separates words wherever it stands. */
  lemma WordsAround(x: Text, c: Unit, y: Text)
    requires IsSpace(c)
    ensures Words(x + [c] + y) == Words(x) + Words(y)
  {
    hide Split, NonEmpty, IsSpace;
    SplitAtSeparator(x, c, y, IsSpace);
    NonEmptyConcat(Split(x, IsSpace), Split(y, IsSpace));
  }

  lemma NoWords()
    ensures Words([]) == []
  {
    var none: Text := [];
    assert Split([], IsSpace) == [none] && [none][..0] == [];
    assert NonEmpty([none]) == [];
  }

  lemma {:induction false} StripStartWords(t: Text)
    ensures Words(StripStart(t)) == Words(t)
  {
    hide Words, IsSpace;
    if t != [] && IsSpace(t[0]) {
      StripStartWords(t[1..]);
      WordsAround([], t[0], t[1..]);
      NoWords();
      assert t == [] + [t[0]] + t[1..];
    }
  }

  lemma {:induction false} StripEndWords(t: Text)
    ensures Words(StripEnd(t, IsSpace)) == Words(t)
  {
    hide Words, IsSpace;
    if t != [] && IsSpace(t[|t| - 1]) {
      StripEndWords(t[..|t| - 1]);
      WordsAround(t[..|t| - 1], t[|t| - 1], []);
      NoWords();
      assert t == t[..|t| - 1] + [t[|t| - 1]] + [];
    }
  }

  lemma TrimWords(t: Text)
    ensures Words(Trim(t)) == Words(t)
  {
    hide Words, StripStart, StripEnd;
    StripStartWords(t);
    StripEndWords(StripStart(t));
  }

  /** The words of a list of lines, as a bag. */
  function WordBag(lines: seq<Text>): multiset<Text> {
    if lines == [] then multiset{} else WordBag(lines[..|lines| - 1]) + multiset(Words(lines[|lines| - 1]))
  }

  lemma {:induction false} BagOfJoined(lines: seq<Text>)
    ensures multiset(Words(Join(lines))) == WordBag(lines)
  {
    hide Words;
    if lines == [] {
      NoWords();
    } else {
      var front, last := lines[..|lines| - 1], lines[|lines| - 1];
      BagOfJoined(front);
      if front == [] {
        NoWords();
      } else {
        WordsAround(Join(front), LF, last);
      }
    }
  }

  lemma {:induction false} BagOfTrimmed(lines: seq<Text>)
    ensures WordBag(TrimAll(lines)) == WordBag(lines)
  {
    hide Words, Trim;
    if lines == [] {
    } else {
      var front, last := lines[..|lines| - 1], lines[|lines| - 1];
      BagOfTrimmed(front);
      TrimWords(last);
      assert TrimAll(lines)[..|lines| - 1] == TrimAll(front);
    }
  }

  lemma BagSnoc(front: seq<Text>, last: Text)
    ensures WordBag(front + [last]) == WordBag(front) + multiset(Words(last))
  {
  }

  lemma {:induction false} BagWithout(lines: seq<Text>, i: nat)
    requires i < |lines|
    ensures WordBag(lines) == WordBag(Counting.Without(lines, i)) + multiset(Words(lines[i]))
  {
    hide Words, WordBag;
    var front, last := lines[..|lines| - 1], lines[|lines| - 1];
    assert lines == front + [last];
    BagSnoc(front, last);
    if i == |lines| - 1 {
      assert Counting.Without(lines, i) == front;
    } else {
      BagWithout(front, i);
      BagSnoc(Counting.Without(front, i), last);
      assert Counting.Without(lines, i) == Counting.Without(front, i) + [last];
    }
  }

  lemma {:induction false} BagPermuted(a: seq<Text>, b: seq<Text>)
    requires multiset(a) == multiset(b)
    ensures WordBag(a) == WordBag(b)
  {
    hide Words, Counting.Without;
    if a == [] {
      assert |b| == |multiset(b)| == 0;
    } else {
      var front, last := a[..|a| - 1], a[|a| - 1];
      assert a == front + [last];
      var i := Counting.MatchLast(a, b);
      BagWithout(b, i);
      BagPermuted(front, Counting.Without(b, i));
    }
  }

  /** The words of an output are those of its lines. */
  lemma TokensOfLines(t: Text)
    ensures multiset(Tokens(t)) == WordBag(Lines(t))
  {
    hide Words, Split, Join, Normalize, WordBag, TrimAll;
    var split := Split(Normalize(t), IsBreak);
    JoinSplit(Normalize(t));
    BagOfJoined(split);
    BagOfTrimmed(split);
  }

  /** Accepted by `unordered_lines` implies accepted by `unordered_tokens`. */
  lemma LinesImplyTokens(host: Host, tolerance: Number, a: Text, b: Text)
    requires Accepts(UnorderedLines, host, tolerance, a, b)
    ensures Accepts(UnorderedTokens, host, tolerance, a, b)
  {
    hide Tokens, Lines, WordBag;
    TokensOfLines(a);
    TokensOfLines(b);
    BagPermuted(Lines(a), Lines(b));
  }

  /** Does this tolerance accept a number against itself? */
  predicate Forgiving(tolerance: Number) {
    AtMost(0.0, tolerance)
  }

  /** Equal tokens agree unless they are a finite number and the tolerance rejects even equality. */
  lemma TokenAgreesWithItself(number: Text -> Number, t: Text, tolerance: Number)
    ensures TokenAgrees(number, t, t, tolerance) <==> Forgiving(tolerance) || !number(t).Finite?
  {
  }

  /** What `exact` accepts, every other checker accepts; `float` under a tolerance of at least zero. */
  lemma ExactImplies(kind: Kind, host: Host, tolerance: Number, a: Text, b: Text)
    requires kind != Regex && Accepts(Exact, host, tolerance, a, b)
    requires kind == Float ==> Forgiving(tolerance)
    ensures Accepts(kind, host, tolerance, a, b)
  {
    hide Normalize, Words, TokenAgrees;
    if kind == Float {
      forall i | 0 <= i < |Tokens(a)| ensures TokenAgrees(host.number, Tokens(a)[i], Tokens(b)[i], tolerance) {
        TokenAgreesWithItself(host.number, Tokens(a)[i], tolerance);
      }
    }
  }

  /**
   * `float` accepts an output against itself exactly when its tolerance is not below zero or no
   * token is a finite number.
   */
  lemma FloatReflexive(host: Host, tolerance: Number, a: Text)
    ensures Accepts(Float, host, tolerance, a, a) <==>
            Forgiving(tolerance) || forall i :: 0 <= i < |Tokens(a)| ==> !host.number(Tokens(a)[i]).Finite?
  {
    hide Tokens, TokenAgrees, Forgiving;
    forall i | 0 <= i < |Tokens(a)|
      ensures TokenAgrees(host.number, Tokens(a)[i], Tokens(a)[i], tolerance) <==>
              Forgiving(tolerance) || !host.number(Tokens(a)[i]).Finite?
    {
      TokenAgreesWithItself(host.number, Tokens(a)[i], tolerance);
    }
  }

  lemma CloseSymmetric(a: Number, b: Number, tolerance: Number)
    requires NumbersClose(a, b, tolerance)
    ensures NumbersClose(b, a, tolerance)
  {
  }

  /** Every checker but `regex` judges expected against actual as it judges actual against expected. */
  lemma Symmetric(kind: Kind, host: Host, tolerance: Number, a: Text, b: Text)
    requires kind != Regex && Accepts(kind, host, tolerance, a, b)
    ensures Accepts(kind, host, tolerance, b, a)
  {
    hide Normalize, Tokens, Lines, NumbersClose;
    if kind == Float {
      var x, y := Tokens(a), Tokens(b);
      forall i | 0 <= i < |y| ensures TokenAgrees(host.number, y[i], x[i], tolerance) {
        if !host.number(y[i]).NaN? {
          CloseSymmetric(host.number(x[i]), host.number(y[i]), tolerance);
        }
      }
    }
  }

  /** Outputs with the same canonical lines are interchangeable for every checker. */
  lemma OnlyCanonicalLinesMatter(kind: Kind, host: Host, tolerance: Number, a: Text, a': Text, b: Text)
    requires CanonLines(a) == CanonLines(a')
    ensures Accepts(kind, host, tolerance, a, b) <==> Accepts(kind, host, tolerance, a', b)
  {
    hide Normalize, CanonLines, Words, TokenAgrees;
    SameWhenLinesAgree(a, a');
  }
}
