/**
 * When one ending of a text can stand in for another.
 *
 * A source text is split as `a + c`, where `c` begins at a token, and `c` is swapped for `c'`.
 * Every alternative of the scanner looks ahead, so the lemmas show that whatever is matched inside
 * `a` in the first text is matched there in the second, unless a lookahead from inside `a` can tell.
 */
module Editing {
  import opened Text
  import opened Tokenizer

  predicate IsWord(x: Text) {
    x != [] && IsWordStart(x[0]) && forall i :: 0 <= i < |x| ==> IsWordUnit(x[i])
  }

  /** A unit that occurs in no delimiter or operator. */
  predicate IsInert(c: Unit) {
    IsWordUnit(c) || IsSpace(c)
  }

  predicate NoInert(pat: Text) {
    forall i :: 0 <= i < |pat| ==> !IsInert(pat[i])
  }

  /** What ends a triple-quoted string or a block comment. */
  predicate IsCloser(pat: Text) {
    pat == TRIPLE_DOUBLE || pat == TRIPLE_SINGLE || pat == COMMENT_CLOSE
  }

  predicate IsQuote(q: Unit) {
    q == DOUBLE_QUOTE || q == SINGLE_QUOTE
  }

  /** No search that fails in `c` succeeds in `c'`. */
  ghost predicate FailsWith(c: Text, c': Text) {
    (forall pat: Text :: IsCloser(pat) && EndOf(c, pat) == 0 ==> EndOf(c', pat) == 0) &&
    (forall q: Unit :: IsQuote(q) && QuotedBody(c, q) == 0 ==> QuotedBody(c', q) == 0)
  }

  /** What follows may stand in place of `c` without a search from before it finding more. */
  ghost predicate Interchangeable(c: Text, c': Text) {
    c != [] && c' != [] && c[0] != LF && IsInert(c'[0]) && !IsDigit(c'[0]) &&
    (IsWordUnit(c'[0]) ==> IsWordUnit(c[0])) && FailsWith(c, c')
  }

  /** Read as the body of a literal, `a` is passed over up to its last unit, a backslash that escapes. */
  predicate EscapesAtEnd(a: Text, q: Unit) {
    if a == [] || a[0] == q || a[0] == LF then false
    else if a[0] != BACKSLASH then EscapesAtEnd(a[1..], q)
    else |a| == 1 || (!IsLineTerminator(a[1]) && EscapesAtEnd(a[2..], q))
  }

  /** With its first unit escaped, `c` does not close the literal, and `c'` does. */
  predicate EscapeMends(c: Text, c': Text, q: Unit) {
    QuotedBody([BACKSLASH] + c, q) == 0 && QuotedBody([BACKSLASH] + c', q) > 0
  }

  /**
   * The one way in which `c'` can be told from `c`: `a` begins with a quote that opens no literal
   * before `c`, and opens one before `c'`.
   */
  predicate IsTrap(a: Text, c: Text, c': Text, python: bool) {
    a != [] && IsQuote(a[0]) && TripleLen(a + c, python) == 0 &&
    EscapesAtEnd(a[1..], a[0]) && EscapeMends(c, c', a[0])
  }

  /** A match of the first text that ends by `k`, or fails, does the same in the second. */
  predicate Kept(n: nat, m: nat, k: nat) {
    n <= k ==> m == n
  }

  // ---------------------------------------------------------------------------
  // The alternatives, one by one
  // ---------------------------------------------------------------------------

  lemma {:induction false} LineEndSplit(a: Text, c: Text)
    ensures LineEnd(a + c) == if LineEnd(a) < |a| then LineEnd(a) else |a| + LineEnd(c)
  {
    if a == [] {
      assert a + c == c;
    } else {
      assert (a + c)[1..] == a[1..] + c;
      LineEndSplit(a[1..], c);
    }
  }

  lemma PrefixInside(a: Text, c: Text, pat: Text)
    requires a != [] && c != [] && IsInert(c[0]) && NoInert(pat)
    ensures pat <= a + c <==> pat <= a
  {
    assert (a + c)[|a|] == c[0];
    if |pat| <= |a| {
      assert (a + c)[..|pat|] == a[..|pat|];
    } else {
      assert !IsInert(pat[|a|]);
    }
  }

  lemma PrefixShort(a: Text, c: Text, pat: Text)
    requires pat <= a + c && |pat| <= |a|
    ensures pat <= a
  {
  }

  lemma FailsAlike(c: Text, c': Text, pat: Text)
    requires FailsWith(c, c') && IsCloser(pat)
    ensures EndOf(c, pat) == 0 ==> EndOf(c', pat) == 0
  {
  }

  lemma {:induction false} EndOfKept(a: Text, c: Text, c': Text, pat: Text)
    requires Interchangeable(c, c') && IsCloser(pat)
    ensures Kept(EndOf(a + c, pat), EndOf(a + c', pat), |a|)
  {
    hide FailsWith;
    if a == [] {
      assert a + c == c && a + c' == c';
      FailsAlike(c, c', pat);
    } else {
      PrefixInside(a, c', pat);
      assert (a + c)[1..] == a[1..] + c && (a + c')[1..] == a[1..] + c';
      EndOfKept(a[1..], c, c', pat);
      if pat <= a + c && |pat| <= |a| {
        PrefixShort(a, c, pat);
      }
    }
  }

  lemma DelimitedKept(a: Text, c: Text, c': Text, open: Text, close: Text)
    requires a != [] && Interchangeable(c, c')
    requires NoInert(open) && IsCloser(close)
    ensures Kept(DelimitedLen(a + c, open, close), DelimitedLen(a + c', open, close), |a|)
  {
    PrefixInside(a, c', open);
    if open <= a {
      var k := |open|;
      assert open <= a + c;
      assert (a + c)[k..] == a[k..] + c && (a + c')[k..] == a[k..] + c';
      EndOfKept(a[k..], c, c', close);
    } else if open <= a + c && |open| <= |a| {
      PrefixShort(a, c, open);
    }
  }

  /** One unit, or one escape, of a quoted literal's body. */
  lemma QuotedBodyStep(c: Unit, rest: Text, q: Unit)
    requires q != BACKSLASH
    ensures QuotedBody([c] + rest, q)
         == if c == q then 1
            else if c == LF then 0
            else if c != BACKSLASH then Bump(1, QuotedBody(rest, q))
            else if rest != [] && !IsLineTerminator(rest[0]) then Bump(2, QuotedBody(rest[1..], q))
            else 0
  {
    var s := [c] + rest;
    assert s[1..] == rest;
    if rest != [] {
      assert s[1] == rest[0] && s[2..] == rest[1..];
    }
  }

  lemma {:induction false} QuotedBodyKept(a: Text, c: Text, c': Text, q: Unit)
    requires Interchangeable(c, c') && IsQuote(q)
    requires !(EscapesAtEnd(a, q) && EscapeMends(c, c', q))
    ensures Kept(QuotedBody(a + c, q), QuotedBody(a + c', q), |a|)
    decreases |a|
  {
    hide QuotedBody;
    if a == [] {
      assert a + c == c && a + c' == c';
    } else {
      var s, t := a[1..] + c, a[1..] + c';
      assert a + c == [a[0]] + s && a + c' == [a[0]] + t;
      QuotedBodyStep(a[0], s, q);
      QuotedBodyStep(a[0], t, q);
      if a[0] == q || a[0] == LF {
      } else if a[0] != BACKSLASH {
        QuotedBodyKept(a[1..], c, c', q);
      } else if |a| == 1 {
        assert a == [BACKSLASH];
      } else {
        assert s[1..] == a[2..] + c && t[1..] == a[2..] + c';
        if !IsLineTerminator(a[1]) {
          QuotedBodyKept(a[2..], c, c', q);
        }
      }
    }
  }

  /** Otherwise the literal that was left open is closed, inside `c'`. */
  lemma {:induction false} QuotedBodyMended(a: Text, c: Text, c': Text, q: Unit)
    requires IsQuote(q) && EscapesAtEnd(a, q) && EscapeMends(c, c', q)
    ensures QuotedBody(a + c, q) == 0
    ensures QuotedBody(a + c', q) == |a| - 1 + QuotedBody([BACKSLASH] + c', q)
    decreases |a|
  {
    hide QuotedBody;
    var s, t := a[1..] + c, a[1..] + c';
    assert a + c == [a[0]] + s && a + c' == [a[0]] + t;
    QuotedBodyStep(a[0], s, q);
    QuotedBodyStep(a[0], t, q);
    if a[0] != BACKSLASH {
      QuotedBodyMended(a[1..], c, c', q);
    } else if |a| == 1 {
      assert a == [BACKSLASH];
    } else {
      assert s[1..] == a[2..] + c && t[1..] == a[2..] + c';
      QuotedBodyMended(a[2..], c, c', q);
    }
  }

  lemma QuotedKept(a: Text, c: Text, c': Text, q: Unit)
    requires a != [] && Interchangeable(c, c') && IsQuote(q)
    requires !(a[0] == q && EscapesAtEnd(a[1..], q) && EscapeMends(c, c', q))
    ensures Kept(QuotedLen(a + c, q), QuotedLen(a + c', q), |a|)
  {
    assert (a + c)[1..] == a[1..] + c && (a + c')[1..] == a[1..] + c';
    if a[0] == q {
      QuotedBodyKept(a[1..], c, c', q);
    }
  }

  lemma {:induction false} WordLenSplit(a: Text, c: Text)
    ensures WordLen(a + c) == if WordLen(a) < |a| then WordLen(a) else |a| + WordLen(c)
  {
    if a == [] {
      assert a + c == c;
    } else {
      assert (a + c)[1..] == a[1..] + c;
      WordLenSplit(a[1..], c);
    }
  }

  lemma {:induction false} DigitsLenSplit(a: Text, c: Text)
    ensures DigitsLen(a + c) == if DigitsLen(a) < |a| then DigitsLen(a) else |a| + DigitsLen(c)
  {
    if a == [] {
      assert a + c == c;
    } else {
      assert (a + c)[1..] == a[1..] + c;
      DigitsLenSplit(a[1..], c);
    }
  }

  lemma DigitsLenFront(c: Text)
    requires c != []
    ensures DigitsLen(c) == 0 <==> !IsDigit(c[0])
  {
  }

  lemma NumberKept(a: Text, c: Text, c': Text)
    requires a != [] && Interchangeable(c, c')
    ensures Kept(NumberLen(a + c), NumberLen(a + c'), |a|)
  {
    hide DigitsLen;
    DigitsLenSplit(a, c);
    DigitsLenSplit(a, c');
    DigitsLenFront(c);
    DigitsLenFront(c');
    var d := DigitsLen(a);
    if 0 < d < |a| && a[d] == DOT {
      var rest := a[d + 1..];
      assert (a + c)[d + 1..] == rest + c && (a + c')[d + 1..] == rest + c';
      DigitsLenSplit(rest, c);
      DigitsLenSplit(rest, c');
    }
  }

  lemma CommentKept(a: Text, c: Text, c': Text, python: bool)
    requires a != [] && Interchangeable(c, c')
    ensures Kept(CommentLen(a + c, python), CommentLen(a + c', python), |a|)
  {
    LineEndSplit(a, c);
    LineEndSplit(a, c');
    PrefixInside(a, c', LINE_COMMENT);
    DelimitedKept(a, c, c', COMMENT_OPEN, COMMENT_CLOSE);
    if LINE_COMMENT <= a + c && |a| >= 2 {
      PrefixShort(a, c, LINE_COMMENT);
    }
  }

  lemma TripleKept(a: Text, c: Text, c': Text, python: bool)
    requires a != [] && Interchangeable(c, c')
    ensures Kept(TripleLen(a + c, python), TripleLen(a + c', python), |a|)
  {
    DelimitedKept(a, c, c', TRIPLE_DOUBLE, TRIPLE_DOUBLE);
    DelimitedKept(a, c, c', TRIPLE_SINGLE, TRIPLE_SINGLE);
  }

  lemma StringKept(a: Text, c: Text, c': Text)
    requires a != [] && Interchangeable(c, c')
    requires !(IsQuote(a[0]) && EscapesAtEnd(a[1..], a[0]) && EscapeMends(c, c', a[0]))
    ensures Kept(StringLen(a + c), StringLen(a + c'), |a|)
  {
    hide QuotedLen, EscapesAtEnd, EscapeMends;
    QuotedKept(a, c, c', DOUBLE_QUOTE);
    QuotedKept(a, c, c', SINGLE_QUOTE);
  }

  lemma PlainKept(a: Text, c: Text, c': Text, python: bool)
    requires a != [] && Interchangeable(c, c')
    ensures Kept(PlainLen(a + c, python), PlainLen(a + c', python), |a|)
  {
    hide NumberLen;
    WordLenSplit(a, c);
    WordLenSplit(a, c');
    NumberKept(a, c, c');
  }

  lemma MatchKept(a: Text, c: Text, c': Text, python: bool)
    requires a != [] && Interchangeable(c, c') && !IsTrap(a, c, c', python)
    ensures Kept(MatchLen(a + c, python), MatchLen(a + c', python), |a|)
  {
    hide CommentLen, TripleLen, StringLen, PlainLen, EscapesAtEnd, EscapeMends, Interchangeable;
    CommentKept(a, c, c', python);
    TripleKept(a, c, c', python);
    PlainKept(a, c, c', python);
    if TripleLen(a + c, python) == 0 {
      StringKept(a, c, c');
    }
  }

  // ---------------------------------------------------------------------------
  // The scan
  // ---------------------------------------------------------------------------

  function Norms(tokens: seq<Token>): (norms: seq<Text>)
    ensures |norms| == |tokens|
  {
    seq(|tokens|, i requires 0 <= i < |tokens| => tokens[i].normalized)
  }

  lemma NormsConcat(a: seq<Token>, b: seq<Token>)
    ensures Norms(a + b) == Norms(a) + Norms(b)
  {
  }

  /** Where the text lies in the source moves the spans and nothing else. */
  lemma {:induction false} ScanShift(s: Text, start: nat, start': nat, python: bool, keywords: set<Text>)
    ensures Norms(Scan(s, start, python, keywords)) == Norms(Scan(s, start', python, keywords))
    decreases |s|
  {
    hide Scan, MatchLen;
    if s == [] {
      ScanEmpty(start, python, keywords);
      ScanEmpty(start', python, keywords);
    } else {
      ScanUnfold(s, start, python, keywords);
      ScanUnfold(s, start', python, keywords);
      var (head, n) := Step(s, start, python, keywords);
      var (head', _) := Step(s, start', python, keywords);
      assert Norms(head) == Norms(head');
      NormsConcat(head, Scan(s[n..], start + n, python, keywords));
      NormsConcat(head', Scan(s[n..], start' + n, python, keywords));
      ScanShift(s[n..], start + n, start' + n, python, keywords);
    }
  }

  /** The scan of `a + c` comes to a token boundary exactly where `c` begins. */
  ghost predicate Reaches(a: Text, c: Text, python: bool)
    decreases |a|
  {
    a == [] ||
    var n := MatchLen(a + c, python);
    n <= |a| && Reaches(a[if n == 0 then 1 else n..], c, python)
  }

  /** No boundary on the way is a trap. */
  ghost predicate NoTraps(a: Text, c: Text, c': Text, python: bool)
    decreases |a|
  {
    a == [] ||
    (!IsTrap(a, c, c', python) &&
     var n := MatchLen(a + c, python);
     n <= |a| ==> NoTraps(a[if n == 0 then 1 else n..], c, c', python))
  }

  /** The scan takes the same step in both texts, and stays inside `a`. */
  lemma StepSwap(a: Text, c: Text, c': Text, start: nat, python: bool, keywords: set<Text>)
    requires a != [] && Reaches(a, c, python) && Interchangeable(c, c') && !IsTrap(a, c, c', python)
    ensures Step(a + c', start, python, keywords) == Step(a + c, start, python, keywords)
    ensures Step(a + c, start, python, keywords).1 <= |a|
    ensures Reaches(a[Step(a + c, start, python, keywords).1..], c, python)
  {
    hide MatchLen, Interchangeable, IsTrap;
    MatchKept(a, c, c', python);
    var m := MatchLen(a + c, python);
    assert (a + c)[..m] == (a + c')[..m];
  }

  lemma NoTrapsLater(a: Text, c: Text, c': Text, start: nat, python: bool, keywords: set<Text>)
    requires a != [] && NoTraps(a, c, c', python) && Step(a + c, start, python, keywords).1 <= |a|
    ensures !IsTrap(a, c, c', python)
    ensures NoTraps(a[Step(a + c, start, python, keywords).1..], c, c', python)
  {
    hide MatchLen, IsTrap;
  }

  lemma ReachesWithin(a: Text, c: Text, start: nat, python: bool, keywords: set<Text>)
    requires a != [] && Reaches(a, c, python)
    ensures Step(a + c, start, python, keywords).1 <= |a|
    ensures Reaches(a[Step(a + c, start, python, keywords).1..], c, python)
  {
    hide MatchLen;
  }

  /** The tokens before the boundary at which `c` begins. */
  ghost function Before(a: Text, c: Text, start: nat, python: bool, keywords: set<Text>): seq<Token>
    requires Reaches(a, c, python)
    decreases |a|
  {
    if a == [] then []
    else
      ReachesWithin(a, c, start, python, keywords);
      var (head, n) := Step(a + c, start, python, keywords);
      head + Before(a[n..], c, start + n, python, keywords)
  }

  lemma BeforeUnfold(a: Text, c: Text, start: nat, python: bool, keywords: set<Text>)
    requires a != [] && Reaches(a, c, python)
    ensures var (head, n) := Step(a + c, start, python, keywords);
            n <= |a| && Reaches(a[n..], c, python) &&
            Before(a, c, start, python, keywords) == head + Before(a[n..], c, start + n, python, keywords)
  {
    hide Step, Reaches;
    ReachesWithin(a, c, start, python, keywords);
  }

  lemma {:induction false} ScanSplit(a: Text, c: Text, start: nat, python: bool, keywords: set<Text>)
    requires Reaches(a, c, python)
    ensures Scan(a + c, start, python, keywords)
         == Before(a, c, start, python, keywords) + Scan(c, start + |a|, python, keywords)
    decreases |a|
  {
    hide Scan, Step, Reaches, Before;
    if a == [] {
      assert a + c == c;
      NothingBefore(c, start, python, keywords);
    } else {
      BeforeUnfold(a, c, start, python, keywords);
      var (head, n) := Step(a + c, start, python, keywords);
      assert (a + c)[n..] == a[n..] + c;
      ScanSplit(a[n..], c, start + n, python, keywords);
      ScanUnfold(a + c, start, python, keywords);
      AppendAssociative(head, Before(a[n..], c, start + n, python, keywords), Scan(c, start + |a|, python, keywords));
    }
  }

  lemma NothingBefore(c: Text, start: nat, python: bool, keywords: set<Text>)
    ensures Reaches([], c, python) && Before([], c, start, python, keywords) == []
  {
  }

  /** Without traps the scan of `a` goes the same way before `c'` as before `c`. */
  lemma {:induction false} BeforeSwap(
    a: Text, c: Text, c': Text, start: nat, python: bool, keywords: set<Text>)
    requires Reaches(a, c, python) && Interchangeable(c, c') && NoTraps(a, c, c', python)
    ensures Reaches(a, c', python)
    ensures Before(a, c', start, python, keywords) == Before(a, c, start, python, keywords)
    decreases |a|
  {
    hide Step, Interchangeable, Before, NoTraps, IsTrap, Reaches;
    if a == [] {
      NothingBefore(c, start, python, keywords);
      NothingBefore(c', start, python, keywords);
    } else {
      BeforeUnfold(a, c, start, python, keywords);
      NoTrapsLater(a, c, c', start, python, keywords);
      StepSwap(a, c, c', start, python, keywords);
      var n := Step(a + c, start, python, keywords).1;
      BeforeSwap(a[n..], c, c', start + n, python, keywords);
      StepReaches(a, c', start, python, keywords);
      BeforeUnfold(a, c', start, python, keywords);
    }
  }

  lemma StepReaches(a: Text, c: Text, start: nat, python: bool, keywords: set<Text>)
    requires a != [] && Step(a + c, start, python, keywords).1 <= |a|
    requires Reaches(a[Step(a + c, start, python, keywords).1..], c, python)
    ensures Reaches(a, c, python)
  {
    hide MatchLen;
  }

  lemma ScanSwap(a: Text, c: Text, c': Text, start: nat, python: bool, keywords: set<Text>)
    requires Reaches(a, c, python) && Interchangeable(c, c') && NoTraps(a, c, c', python)
    requires Norms(Scan(c, start + |a|, python, keywords)) == Norms(Scan(c', start + |a|, python, keywords))
    ensures Norms(Scan(a + c, start, python, keywords)) == Norms(Scan(a + c', start, python, keywords))
  {
    hide Scan, Interchangeable, Reaches, NoTraps, Norms, Before;
    BeforeSwap(a, c, c', start, python, keywords);
    ScanSplit(a, c, start, python, keywords);
    ScanSplit(a, c', start, python, keywords);
    NormsConcat(Before(a, c, start, python, keywords), Scan(c, start + |a|, python, keywords));
    NormsConcat(Before(a, c, start, python, keywords), Scan(c', start + |a|, python, keywords));
  }

  /** What never mends an escaped start sets no trap. */
  lemma {:induction false} NeverMends(a: Text, c: Text, c': Text, python: bool)
    requires forall q :: IsQuote(q) ==> !EscapeMends(c, c', q)
    ensures NoTraps(a, c, c', python)
    decreases |a|
  {
    hide MatchLen, EscapeMends, EscapesAtEnd, TripleLen;
    if a == [] {
    } else {
      var n := MatchLen(a + c, python);
      if n <= |a| {
        NeverMends(a[if n == 0 then 1 else n..], c, c', python);
      }
    }
  }

  /** The scan of `s` arrives at `token` and reads it there. */
  ghost predicate AtToken(s: Text, start: nat, python: bool, keywords: set<Text>, token: Token) {
    start <= token.start < token.end <= start + |s| &&
    var a, c := s[..token.start - start], s[token.start - start..];
    Reaches(a, c, python) && !IsSpace(c[0]) &&
    Step(c, token.start, python, keywords) == ([token], token.end - token.start)
  }

  lemma ReachesStep(a: Text, c: Text, python: bool, n: nat)
    requires a != [] && n == MatchLen(a + c, python)
    requires n <= |a| && Reaches(a[if n == 0 then 1 else n..], c, python)
    ensures Reaches(a, c, python)
  {
  }

  lemma StepShape(s: Text, start: nat, python: bool, keywords: set<Text>)
    requires s != []
    ensures var (head, n) := Step(s, start, python, keywords);
            n == (if MatchLen(s, python) == 0 then 1 else MatchLen(s, python)) &&
            (head != [] ==> |head| == 1 && head[0].start == start && head[0].end == start + n
                            && !IsSpace(s[0]))
  {
  }

  lemma AtFirstToken(s: Text, start: nat, python: bool, keywords: set<Text>, token: Token)
    requires s != [] && token in Step(s, start, python, keywords).0
    ensures AtToken(s, start, python, keywords, token)
  {
  }

  lemma AtLaterToken(s: Text, start: nat, python: bool, keywords: set<Text>, token: Token)
    requires s != []
    requires var n := Step(s, start, python, keywords).1;
             AtToken(s[n..], start + n, python, keywords, token)
    ensures AtToken(s, start, python, keywords, token)
  {
    hide MatchLen, Step, Reaches;
    StepShape(s, start, python, keywords);
    var n, k := Step(s, start, python, keywords).1, token.start - start;
    var a, c := s[..k], s[k..];
    assert a + c == s;
    assert s[n..][..k - n] == a[n..] && s[n..][k - n..] == c;
    ReachesStep(a, c, python, MatchLen(s, python));
  }

  lemma {:induction false} EveryTokenReached(
    s: Text, start: nat, python: bool, keywords: set<Text>, token: Token)
    requires token in Scan(s, start, python, keywords)
    ensures AtToken(s, start, python, keywords, token)
    decreases |s|
  {
    hide Scan, Step, AtToken;
    if s == [] {
      ScanEmpty(start, python, keywords);
    } else {
      ScanUnfold(s, start, python, keywords);
      var (head, n) := Step(s, start, python, keywords);
      if token in head {
        AtFirstToken(s, start, python, keywords, token);
      } else {
        EveryTokenReached(s[n..], start + n, python, keywords, token);
        AtLaterToken(s, start, python, keywords, token);
      }
    }
  }

  // ---------------------------------------------------------------------------
  // Passing over what no search stops at
  // ---------------------------------------------------------------------------

  lemma {:induction false} EndOfPastInert(w: Text, b: Text, pat: Text)
    requires pat != [] && NoInert(pat)
    requires forall i :: 0 <= i < |w| ==> IsInert(w[i])
    ensures EndOf(w + b, pat) == Bump(|w|, EndOf(b, pat))
  {
    if w == [] {
      assert w + b == b;
    } else {
      var s := w + b;
      assert s[0] == w[0] && !IsInert(pat[0]);
      assert s[1..] == w[1..] + b;
      EndOfPastInert(w[1..], b, pat);
    }
  }

  lemma {:induction false} QuotedPastInert(w: Text, b: Text, q: Unit)
    requires IsQuote(q)
    requires forall i :: 0 <= i < |w| ==> IsInert(w[i])
    ensures QuotedBody(w + b, q) == if LF in w then 0 else Bump(|w|, QuotedBody(b, q))
  {
    if w == [] {
      assert w + b == b;
    } else {
      assert (w + b)[0] == w[0] && (w + b)[1..] == w[1..] + b;
      QuotedPastInert(w[1..], b, q);
    }
  }
}
