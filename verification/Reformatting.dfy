/**
 * Putting blanks in front of a token: exactly when the reading of a text changes.
 *
 * The only thing a blank can do is to be escaped, in place of the unit it is put before, by a
 * backslash in a literal that was left open; and so to let that literal be closed further on.
 */
module Reformatting {
  import opened Text
  import opened Tokenizer
  import opened Editing

  predicate AllSpace(t: Text) {
    forall i :: 0 <= i < |t| ==> IsSpace(t[i])
  }

  /** Without its first unit a literal's body is not closed in `c`, and with it it is. */
  predicate OpensAgain(c: Text, q: Unit) {
    if c == [] then false
    else if c[0] == q then QuotedBody(c[1..], q) == 0
    else if IsLineTerminator(c[0]) then QuotedBody(c, q) > 0
    else |c| >= 2 && c[0] == BACKSLASH && c[1] == BACKSLASH && OpensAgain(c[2..], q)
  }

  /** After an even number of backslashes comes a line terminator other than the line feed. */
  predicate BareTerminatorAhead(c: Text) {
    c != [] &&
    ((IsLineTerminator(c[0]) && c[0] != LF) ||
     (|c| >= 2 && c[0] == BACKSLASH && c[1] == BACKSLASH && BareTerminatorAhead(c[2..])))
  }

  lemma {:induction false} OpensAgainExactly(c: Text, q: Unit)
    requires IsQuote(q)
    ensures OpensAgain(c, q) <==> QuotedBody(c, q) > 0 && QuotedBody([BACKSLASH] + c, q) == 0
    decreases |c|
  {
    hide QuotedBody;
    QuotedBodyStep(BACKSLASH, c, q);
    if c == [] {
      NoBody(q);
    } else {
      assert c == [c[0]] + c[1..];
      QuotedBodyStep(c[0], c[1..], q);
      if |c| >= 2 && c[0] == BACKSLASH && c[1] == BACKSLASH {
        OpensAgainExactly(c[2..], q);
        assert c[1..][1..] == c[2..] && c[1..] == [BACKSLASH] + c[2..];
      } else if |c| >= 2 && c[0] == BACKSLASH {
        assert c[1..] == [c[1]] + c[2..];
        QuotedBodyStep(c[1], c[2..], q);
      }
    }
  }

  lemma NoBody(q: Unit)
    ensures QuotedBody([], q) == 0
  {
  }

  lemma BlanksInterchangeable(t: Text, c: Text)
    requires t != [] && AllSpace(t) && c != [] && !IsSpace(c[0])
    ensures Interchangeable(c, t + c)
  {
    forall pat: Text | IsCloser(pat) && EndOf(c, pat) == 0 ensures EndOf(t + c, pat) == 0 {
      EndOfPastInert(t, c, pat);
    }
    forall q: Unit | IsQuote(q) ensures QuotedBody(c, q) == 0 ==> QuotedBody(t + c, q) == 0 {
      QuotedPastInert(t, c, q);
    }
  }

  /** An escaped blank, and what it makes of the literal. */
  lemma EscapedBlank(t: Text, c: Text, q: Unit)
    requires t != [] && AllSpace(t) && IsQuote(q)
    ensures QuotedBody([BACKSLASH] + (t + c), q)
         == if IsLineTerminator(t[0]) || LF in t then 0 else Bump(1 + |t|, QuotedBody(c, q))
  {
    hide QuotedBody;
    QuotedBodyStep(BACKSLASH, t + c, q);
    assert (t + c)[1..] == t[1..] + c;
    assert t == [t[0]] + t[1..];
    QuotedPastInert(t[1..], c, q);
  }

  /** These blanks, put where an escape is expected, let a literal be closed that was not. */
  predicate BlanksMend(t: Text, c: Text, q: Unit) {
    t != [] && !IsLineTerminator(t[0]) && LF !in t && OpensAgain(c, q)
  }

  lemma BlanksMendExactly(t: Text, c: Text, q: Unit)
    requires t != [] && AllSpace(t) && IsQuote(q)
    ensures EscapeMends(c, t + c, q) <==> BlanksMend(t, c, q)
  {
    hide QuotedBody, OpensAgain;
    EscapedBlank(t, c, q);
    OpensAgainExactly(c, q);
  }

  // ---------------------------------------------------------------------------
  // Traps are lone quotes
  // ---------------------------------------------------------------------------

  /** A quote is a token of its own exactly when neither kind of literal begins there. */
  lemma LoneQuote(s: Text, python: bool)
    requires s != [] && IsQuote(s[0])
    ensures MatchLen(s, python) == 1 <==> TripleLen(s, python) == 0 && QuotedBody(s[1..], s[0]) == 0
  {
    hide EndOf, QuotedBody;
  }

  lemma LoneQuoteStep(s: Text, start: nat, python: bool, keywords: set<Text>)
    requires s != [] && IsQuote(s[0]) && MatchLen(s, python) == 1
    ensures Step(s, start, python, keywords) == ([Token(STR, start, start + 1)], 1)
  {
    hide MatchLen;
  }

  /** This token before `c` is a lone quote, from which the backslash before `c` is read as an escape. */
  ghost predicate SetsTrap(a: Text, c: Text, c': Text, start: nat, token: Token) {
    start <= token.start < start + |a| && token.end == token.start + 1 &&
    var k := token.start - start;
    IsQuote(a[k]) && EscapesAtEnd(a[k + 1..], a[k]) && EscapeMends(c, c', a[k])
  }

  lemma SetsTrapLater(a: Text, c: Text, c': Text, start: nat, n: nat, token: Token)
    requires n <= |a|
    ensures token.start >= start + n ==>
              (SetsTrap(a, c, c', start, token) <==> SetsTrap(a[n..], c, c', start + n, token))
  {
    hide EscapesAtEnd, EscapeMends;
    if start + n <= token.start < start + |a| {
      var k := token.start - start;
      assert a[n..][k - n] == a[k] && a[n..][k - n + 1..] == a[k + 1..];
    }
  }

  lemma TrapHere(a: Text, c: Text, c': Text, start: nat, python: bool, keywords: set<Text>)
    requires a != [] && Reaches(a, c, python)
    ensures var head := Step(a + c, start, python, keywords).0;
            IsTrap(a, c, c', python) <==> exists token :: token in head && SetsTrap(a, c, c', start, token)
  {
    hide MatchLen, TripleLen, EscapesAtEnd, EscapeMends, QuotedBody;
    assert (a + c)[1..] == a[1..] + c && a[0..] == a;
    StepShape(a + c, start, python, keywords);
    if IsQuote(a[0]) {
      LoneQuote(a + c, python);
      if EscapesAtEnd(a[1..], a[0]) && EscapeMends(c, c', a[0]) {
        QuotedBodyMended(a[1..], c, c', a[0]);
      }
      if MatchLen(a + c, python) == 1 {
        LoneQuoteStep(a + c, start, python, keywords);
        assert Token(STR, start, start + 1) in Step(a + c, start, python, keywords).0;
      }
    }
  }

  lemma BeforeStarts(a: Text, c: Text, start: nat, python: bool, keywords: set<Text>)
    requires Reaches(a, c, python)
    ensures forall token :: token in Before(a, c, start, python, keywords) ==> start <= token.start < start + |a|
    decreases |a|
  {
    hide Step, Reaches, Before;
    if a == [] {
      NothingBefore(c, start, python, keywords);
    } else {
      BeforeUnfold(a, c, start, python, keywords);
      StepStarts(a + c, start, python, keywords);
      var n := Step(a + c, start, python, keywords).1;
      BeforeStarts(a[n..], c, start + n, python, keywords);
    }
  }

  lemma StepStarts(s: Text, start: nat, python: bool, keywords: set<Text>)
    requires s != []
    ensures var (head, n) := Step(s, start, python, keywords);
            n > 0 && forall token :: token in head ==> token.start == start
  {
    hide MatchLen;
  }

  ghost predicate HasTrap(a: Text, c: Text, c': Text, start: nat, python: bool, keywords: set<Text>)
    requires Reaches(a, c, python)
  {
    exists token :: token in Before(a, c, start, python, keywords) && SetsTrap(a, c, c', start, token)
  }

  /** The traps on the way are the tokens that set one. */
  lemma {:induction false} TrapsAreTokens(a: Text, c: Text, c': Text, start: nat, python: bool, keywords: set<Text>)
    requires Reaches(a, c, python)
    ensures NoTraps(a, c, c', python) <==> !HasTrap(a, c, c', start, python, keywords)
    decreases |a|
  {
    hide Step, Reaches, Before, SetsTrap, IsTrap, MatchLen;
    if a == [] {
      NothingBefore(c, start, python, keywords);
    } else {
      BeforeUnfold(a, c, start, python, keywords);
      var (head, n) := Step(a + c, start, python, keywords);
      TrapHere(a, c, c', start, python, keywords);
      TrapsAreTokens(a[n..], c, c', start + n, python, keywords);
      StepStarts(a + c, start, python, keywords);
      BeforeStarts(a[n..], c, start + n, python, keywords);
      NoTrapsUnfold(a, c, c', start, python, keywords);
      var rest := Before(a[n..], c, start + n, python, keywords);
      forall token | token in rest
        ensures SetsTrap(a, c, c', start, token) <==> SetsTrap(a[n..], c, c', start + n, token)
      {
        SetsTrapLater(a, c, c', start, n, token);
      }
    }
  }

  lemma NoTrapsUnfold(a: Text, c: Text, c': Text, start: nat, python: bool, keywords: set<Text>)
    requires a != [] && Step(a + c, start, python, keywords).1 <= |a|
    ensures NoTraps(a, c, c', python) <==>
            !IsTrap(a, c, c', python) && NoTraps(a[Step(a + c, start, python, keywords).1..], c, c', python)
  {
    hide MatchLen, IsTrap;
  }

  // ---------------------------------------------------------------------------
  // The same tokens
  // ---------------------------------------------------------------------------

  lemma {:induction false} ScanBlanks(t: Text, b: Text, start: nat, python: bool, keywords: set<Text>)
    requires AllSpace(t)
    ensures Scan(t + b, start, python, keywords) == Scan(b, start + |t|, python, keywords)
    decreases |t|
  {
    hide Scan, MatchLen;
    if t == [] {
      assert t + b == b;
    } else {
      var s := t + b;
      assert s[1..] == t[1..] + b;
      ScanUnfold(s, start, python, keywords);
      ScanBlanks(t[1..], b, start + 1, python, keywords);
    }
  }

  /** The tokens with those that start at `from` or later moved by `shift`. */
  function Moved(tokens: seq<Token>, from: nat, shift: nat): (r: seq<Token>)
    ensures |r| == |tokens|
  {
    seq(|tokens|, i requires 0 <= i < |tokens| =>
      if tokens[i].start >= from
      then Token(tokens[i].normalized, tokens[i].start + shift, tokens[i].end + shift) else tokens[i])
  }

  lemma MovedConcat(a: seq<Token>, b: seq<Token>, from: nat, shift: nat)
    ensures Moved(a + b, from, shift) == Moved(a, from, shift) + Moved(b, from, shift)
  {
  }

  lemma MovedNorms(tokens: seq<Token>, from: nat, shift: nat)
    ensures Norms(Moved(tokens, from, shift)) == Norms(tokens)
  {
  }

  lemma NotMoved(tokens: seq<Token>, from: nat, shift: nat)
    requires forall token :: token in tokens ==> token.start < from
    ensures Moved(tokens, from, shift) == tokens
  {
    assert forall i :: 0 <= i < |tokens| ==> tokens[i] in tokens;
  }

  /** A text further on in the source gives the same tokens, further on. */
  lemma {:induction false} ScanMoved(s: Text, start: nat, shift: nat, from: nat, python: bool, keywords: set<Text>)
    requires from <= start
    ensures Scan(s, start + shift, python, keywords) == Moved(Scan(s, start, python, keywords), from, shift)
    decreases |s|
  {
    hide Scan, MatchLen;
    if s == [] {
      ScanEmpty(start, python, keywords);
      ScanEmpty(start + shift, python, keywords);
    } else {
      ScanUnfold(s, start, python, keywords);
      ScanUnfold(s, start + shift, python, keywords);
      var (head, n) := Step(s, start, python, keywords);
      var (head', _) := Step(s, start + shift, python, keywords);
      assert head' == Moved(head, from, shift);
      ScanMoved(s[n..], start + n, shift, from, python, keywords);
      MovedConcat(head, Scan(s[n..], start + n, python, keywords), from, shift);
    }
  }

  /** The reading of `a + c` with `t` put in between: the same tokens, those of `c` moved by `|t|`. */
  ghost predicate ReadsAlike(a: Text, t: Text, c: Text, start: nat, python: bool, keywords: set<Text>) {
    Scan(a + (t + c), start, python, keywords) == Moved(Scan(a + c, start, python, keywords), start + |a|, |t|)
  }

  lemma AlikeWithoutTraps(a: Text, t: Text, c: Text, start: nat, python: bool, keywords: set<Text>)
    requires Reaches(a, c, python) && t != [] && AllSpace(t) && c != [] && !IsSpace(c[0])
    requires NoTraps(a, c, t + c, python)
    ensures ReadsAlike(a, t, c, start, python, keywords)
  {
    hide Scan, Reaches, NoTraps, Before, Interchangeable, Moved;
    BlanksInterchangeable(t, c);
    BeforeSwap(a, c, t + c, start, python, keywords);
    ScanSplit(a, c, start, python, keywords);
    ScanSplit(a, t + c, start, python, keywords);
    ScanBlanks(t, c, start + |a|, python, keywords);
    ScanMoved(c, start + |a|, |t|, start + |a|, python, keywords);
    BeforeStarts(a, c, start, python, keywords);
    NotMoved(Before(a, c, start, python, keywords), start + |a|, |t|);
    MovedConcat(Before(a, c, start, python, keywords), Scan(c, start + |a|, python, keywords), start + |a|, |t|);
  }

  /** At a trap the quote becomes the beginning of a literal that runs past `c`'s first unit. */
  lemma TrapCloses(a: Text, t: Text, c: Text, python: bool)
    requires t != [] && AllSpace(t) && c != [] && !IsSpace(c[0]) && IsTrap(a, c, t + c, python)
    ensures MatchLen(a + c, python) == 1
    ensures OpensAgain(c, a[0]) && MatchLen(a + (t + c), python) == |a| + |t| + QuotedBody(c, a[0])
    ensures QuotedBody(c, a[0]) > 0
  {
    hide TripleLen, QuotedBody, EscapesAtEnd, OpensAgain, MatchLen, EscapeMends, BlanksMend, Interchangeable;
    MendedLength(t, c, a[0]);
    BlanksInterchangeable(t, c);
    TripleKept(a, c, t + c, python);
    OpenedLength(a, c, t + c, python);
  }

  lemma OpenedLength(a: Text, c: Text, c': Text, python: bool)
    requires a != [] && IsQuote(a[0]) && EscapesAtEnd(a[1..], a[0]) && EscapeMends(c, c', a[0])
    requires TripleLen(a + c, python) == 0 && TripleLen(a + c', python) == 0
    ensures MatchLen(a + c, python) == 1
    ensures MatchLen(a + c', python) == |a| - 1 + QuotedBody([BACKSLASH] + c', a[0])
  {
    hide TripleLen, QuotedBody, EscapesAtEnd, MatchLen;
    var q := a[0];
    assert (a + c)[1..] == a[1..] + c && (a + c')[1..] == a[1..] + c';
    EscapesSomething(a[1..], q);
    QuotedBodyMended(a[1..], c, c', q);
    LoneQuote(a + c, python);
    ClosedLiteral(a + c', python);
  }

  lemma MendedLength(t: Text, c: Text, q: Unit)
    requires t != [] && AllSpace(t) && IsQuote(q) && EscapeMends(c, t + c, q)
    ensures OpensAgain(c, q) && QuotedBody(c, q) > 0
    ensures QuotedBody([BACKSLASH] + (t + c), q) == 1 + |t| + QuotedBody(c, q)
  {
    hide QuotedBody, OpensAgain;
    EscapedBlank(t, c, q);
    BlanksMendExactly(t, c, q);
    OpensAgainExactly(c, q);
  }

  lemma EscapesSomething(a: Text, q: Unit)
    requires EscapesAtEnd(a, q)
    ensures a != []
  {
  }

  lemma ClosedLiteral(s: Text, python: bool)
    requires s != [] && IsQuote(s[0]) && TripleLen(s, python) == 0 && QuotedBody(s[1..], s[0]) > 0
    ensures MatchLen(s, python) == 1 + QuotedBody(s[1..], s[0])
  {
    hide TripleLen, QuotedBody;
  }

  lemma FirstTokenEnds(s: Text, start: nat, python: bool, keywords: set<Text>)
    requires s != [] && IsQuote(s[0]) && MatchLen(s, python) > 0
    ensures Scan(s, start, python, keywords)
         == [Token(STR, start, start + MatchLen(s, python))]
          + Scan(s[MatchLen(s, python)..], start + MatchLen(s, python), python, keywords)
  {
    hide MatchLen, Scan;
    ScanUnfold(s, start, python, keywords);
  }

  lemma {:induction false} UnlikeWithTraps(a: Text, t: Text, c: Text, start: nat, python: bool, keywords: set<Text>)
    requires Reaches(a, c, python) && t != [] && AllSpace(t) && c != [] && !IsSpace(c[0])
    requires !NoTraps(a, c, t + c, python)
    ensures !ReadsAlike(a, t, c, start, python, keywords)
    decreases |a|
  {
    hide Scan, Step, Reaches, NoTraps, Interchangeable, IsTrap, MatchLen, Moved;
    var c' := t + c;
    if a == [] {
      NoTrapsNil(c, c', python);
    } else if IsTrap(a, c, c', python) {
      TrapStarts(a, c, c', python);
      TrapCloses(a, t, c, python);
      FirstTokenEnds(a + c, start, python, keywords);
      FirstTokenEnds(a + c', start, python, keywords);
      FirstUnmoved(Scan(a + c, start, python, keywords), start + |a|, |t|);
      assert Scan(a + c, start, python, keywords)[0].end == start + 1;
    } else {
      BeforeUnfold(a, c, start, python, keywords);
      BlanksInterchangeable(t, c);
      StepSwap(a, c, c', start, python, keywords);
      NoTrapsUnfold(a, c, c', start, python, keywords);
      var (head, n) := Step(a + c, start, python, keywords);
      UnlikeWithTraps(a[n..], t, c, start + n, python, keywords);
      assert (a + c)[n..] == a[n..] + c && (a + c')[n..] == a[n..] + c';
      ScanUnfold(a + c, start, python, keywords);
      ScanUnfold(a + c', start, python, keywords);
      StepStarts(a + c, start, python, keywords);
      NotMoved(head, start + |a|, |t|);
      MovedConcat(head, Scan(a[n..] + c, start + n, python, keywords), start + |a|, |t|);
      SameHeads(head, Scan(a[n..] + c', start + n, python, keywords),
                Moved(Scan(a[n..] + c, start + n, python, keywords), start + |a|, |t|));
    }
  }

  lemma NoTrapsNil(c: Text, c': Text, python: bool)
    ensures NoTraps([], c, c', python)
  {
  }

  lemma TrapStarts(a: Text, c: Text, c': Text, python: bool)
    requires IsTrap(a, c, c', python)
    ensures a != [] && IsQuote(a[0])
  {
  }

  lemma FirstUnmoved(tokens: seq<Token>, from: nat, shift: nat)
    requires tokens != [] && tokens[0].start < from
    ensures Moved(tokens, from, shift)[0] == tokens[0]
  {
  }

  lemma SameHeads(head: seq<Token>, x: seq<Token>, y: seq<Token>)
    ensures head + x == head + y ==> x == y
  {
    if head + x == head + y {
      assert (head + x)[|head|..] == x && (head + y)[|head|..] == y;
    }
  }

  /** Blanks leave the reading of a text as it was exactly when no token before sets a trap for them. */
  lemma ReadsAlikeExactlyWhen(a: Text, t: Text, c: Text, start: nat, python: bool, keywords: set<Text>)
    requires Reaches(a, c, python) && t != [] && AllSpace(t) && c != [] && !IsSpace(c[0])
    ensures ReadsAlike(a, t, c, start, python, keywords) <==> !HasTrap(a, c, t + c, start, python, keywords)
  {
    hide ReadsAlike, Reaches, NoTraps, HasTrap;
    TrapsAreTokens(a, c, t + c, start, python, keywords);
    if NoTraps(a, c, t + c, python) {
      AlikeWithoutTraps(a, t, c, start, python, keywords);
    } else {
      UnlikeWithTraps(a, t, c, start, python, keywords);
    }
  }

  // ---------------------------------------------------------------------------
  // The same normalized stream
  // ---------------------------------------------------------------------------

  lemma BackslashStep(s: Text, start: nat, python: bool, keywords: set<Text>)
    requires s != [] && s[0] == BACKSLASH
    ensures Scan(s, start, python, keywords)
         == [Token([BACKSLASH], start, start + 1)] + Scan(s[1..], start + 1, python, keywords)
  {
    hide Scan, EndOf, QuotedBody;
    assert MatchLen(s, python) == 1;
    hide MatchLen;
    ScanUnfold(s, start, python, keywords);
    assert s[..1] == [BACKSLASH];
  }

  /** Read from its beginning, such a `c` has at least one token more than what follows its closing quote. */
  lemma {:induction false} OpensAgainCounts(c: Text, q: Unit, start: nat, python: bool, keywords: set<Text>)
    requires IsQuote(q) && OpensAgain(c, q) && !BareTerminatorAhead(c)
    ensures var m := QuotedBody(c, q);
            0 < m <= |c| && |Scan(c, start, python, keywords)| > |Scan(c[m..], start + m, python, keywords)|
    decreases |c|
  {
    hide Scan, MatchLen, TripleLen, QuotedBody;
    assert c == [c[0]] + c[1..];
    QuotedBodyStep(c[0], c[1..], q);
    if c[0] == q {
      NoTripleAhead(c, q, python);
      LoneQuote(c, python);
      FirstTokenEnds(c, start, python, keywords);
    } else if IsLineTerminator(c[0]) {
      NoBodyAtLineFeed(c, q);
    } else {
      var d := c[2..];
      assert c[1..][1..] == d;
      OpensAgainCounts(d, q, start + 2, python, keywords);
      BackslashStep(c, start, python, keywords);
      BackslashStep(c[1..], start + 1, python, keywords);
      assert c[2 + QuotedBody(d, q)..] == d[QuotedBody(d, q)..];
    }
  }

  lemma NoBodyAtLineFeed(c: Text, q: Unit)
    requires c != [] && c[0] == LF && IsQuote(q)
    ensures QuotedBody(c, q) == 0
  {
  }

  lemma NoTripleAhead(c: Text, q: Unit, python: bool)
    requires c != [] && c[0] == q && IsQuote(q) && QuotedBody(c[1..], q) == 0
    ensures TripleLen(c, python) == 0
  {
    hide EndOf;
    if |c| >= 3 {
      assert c[1..][0] == c[1] && c[..3][1] == c[1];
    }
  }

  lemma {:induction false} ShorterWithTraps(a: Text, t: Text, c: Text, start: nat, python: bool, keywords: set<Text>)
    requires Reaches(a, c, python) && t != [] && AllSpace(t) && c != [] && !IsSpace(c[0])
    requires !NoTraps(a, c, t + c, python) && !BareTerminatorAhead(c)
    ensures |Scan(a + (t + c), start, python, keywords)| < |Scan(a + c, start, python, keywords)|
    decreases |a|
  {
    hide Scan, Step, Reaches, NoTraps, Interchangeable, IsTrap, MatchLen, BareTerminatorAhead;
    var c' := t + c;
    if a == [] {
      NoTrapsNil(c, c', python);
    } else if IsTrap(a, c, c', python) {
      TrapShortens(a, t, c, start, python, keywords);
    } else {
      BeforeUnfold(a, c, start, python, keywords);
      BlanksInterchangeable(t, c);
      StepSwap(a, c, c', start, python, keywords);
      NoTrapsUnfold(a, c, c', start, python, keywords);
      var (head, n) := Step(a + c, start, python, keywords);
      ShorterWithTraps(a[n..], t, c, start + n, python, keywords);
      assert (a + c)[n..] == a[n..] + c && (a + c')[n..] == a[n..] + c';
      ScanUnfold(a + c, start, python, keywords);
      ScanUnfold(a + c', start, python, keywords);
    }
  }

  lemma TrapShortens(a: Text, t: Text, c: Text, start: nat, python: bool, keywords: set<Text>)
    requires Reaches(a, c, python) && t != [] && AllSpace(t) && c != [] && !IsSpace(c[0])
    requires IsTrap(a, c, t + c, python) && !BareTerminatorAhead(c)
    ensures |Scan(a + (t + c), start, python, keywords)| < |Scan(a + c, start, python, keywords)|
  {
    hide Scan, Reaches, IsTrap, MatchLen, BareTerminatorAhead, Before, QuotedBody, OpensAgain;
    TrapStarts(a, c, t + c, python);
    TrapCloses(a, t, c, python);
    var q := a[0];
    var m := QuotedBody(c, q);
    FirstTokenEnds(a + c, start, python, keywords);
    FirstTokenEnds(a + (t + c), start, python, keywords);
    assert (a + c)[1..] == a[1..] + c;
    ReachesPastOne(a, c, python);
    ScanSplit(a[1..], c, start + 1, python, keywords);
    OpensAgainCounts(c, q, start + |a|, python, keywords);
    assert (a + (t + c))[|a| + |t| + m..] == c[m..];
    SameCount(c[m..], start + |a| + |t| + m, start + |a| + m, python, keywords);
  }

  lemma ReachesPastOne(a: Text, c: Text, python: bool)
    requires a != [] && Reaches(a, c, python) && MatchLen(a + c, python) == 1
    ensures Reaches(a[1..], c, python)
  {
    hide MatchLen;
  }

  lemma SameCount(s: Text, start: nat, start': nat, python: bool, keywords: set<Text>)
    ensures |Scan(s, start, python, keywords)| == |Scan(s, start', python, keywords)|
  {
    hide Scan;
    ScanShift(s, start, start', python, keywords);
    assert |Norms(Scan(s, start, python, keywords))| == |Norms(Scan(s, start', python, keywords))|;
  }

  /** A token before this place is a lone quote whose literal these blanks would close. */
  ghost predicate IsTrapped(code: Text, at: nat, blanks: Text, python: bool, keywords: set<Text>) {
    at <= |code| &&
    exists token :: token in Scan(code, 0, python, keywords) && LeavesOpen(code, token, at) &&
                    BlanksMend(blanks, code[at..], code[token.start])
  }

  /** The token is a quote alone, read from which the unit before `at` is a backslash that escapes. */
  predicate LeavesOpen(code: Text, token: Token, at: nat)
    requires at <= |code|
  {
    token.end == token.start + 1 <= at && IsQuote(code[token.start]) &&
    EscapesAtEnd(code[token.end..at], code[token.start])
  }

  lemma TrappedExactly(code: Text, at: nat, blanks: Text, python: bool, keywords: set<Text>)
    requires at < |code| && Reaches(code[..at], code[at..], python)
    requires blanks != [] && AllSpace(blanks)
    ensures HasTrap(code[..at], code[at..], blanks + code[at..], 0, python, keywords) <==>
            IsTrapped(code, at, blanks, python, keywords)
  {
    hide Scan, Before, Reaches, EscapesAtEnd, OpensAgain, EscapeMends;
    var a, c := code[..at], code[at..];
    var before, after := Before(a, c, 0, python, keywords), Scan(c, at, python, keywords);
    assert a + c == code;
    ScanSplit(a, c, 0, python, keywords);
    BeforeStarts(a, c, 0, python, keywords);
    ScanWellSpanned(c, at, python, keywords);
    forall token | token in before + after
      ensures token in before && SetsTrap(a, c, blanks + c, 0, token) <==>
              LeavesOpen(code, token, at) && BlanksMend(blanks, c, code[token.start])
    {
      if token.end == token.start + 1 <= at && IsQuote(code[token.start]) {
        assert a[token.start + 1..] == code[token.end..at];
        BlanksMendExactly(blanks, c, code[token.start]);
      }
    }
  }

  function Spaced(code: Text, at: nat, blanks: Text): Text
    requires at <= |code|
  {
    code[..at] + (blanks + code[at..])
  }

  /**
   * The exact condition: blanks in front of a token leave the tokens of the text as they were, only
   * further on, unless the place is trapped. Then the reading changes.
   */
  lemma ReformatReadsAlikeExactlyWhen(code: Text, python: bool, keywords: set<Text>, token: Token, blanks: Text)
    requires AtToken(code, 0, python, keywords, token) && blanks != [] && AllSpace(blanks)
    ensures Scan(Spaced(code, token.start, blanks), 0, python, keywords) ==
            Moved(Scan(code, 0, python, keywords), token.start, |blanks|) <==>
            !IsTrapped(code, token.start, blanks, python, keywords)
  {
    hide Scan, Step, Reaches, IsTrapped, HasTrap, Moved;
    var a, c := code[..token.start], code[token.start..];
    assert code == a + c;
    ReadsAlikeExactlyWhen(a, blanks, c, 0, python, keywords);
    TrappedExactly(code, token.start, blanks, python, keywords);
  }

  lemma ReformatKeepsNorms(code: Text, python: bool, keywords: set<Text>, token: Token, blanks: Text)
    requires AtToken(code, 0, python, keywords, token) && blanks != [] && AllSpace(blanks)
    requires !IsTrapped(code, token.start, blanks, python, keywords)
    ensures Norms(Scan(Spaced(code, token.start, blanks), 0, python, keywords))
         == Norms(Scan(code, 0, python, keywords))
  {
    hide Scan, Step, Reaches, IsTrapped, Moved;
    ReformatReadsAlikeExactlyWhen(code, python, keywords, token, blanks);
    MovedNorms(Scan(code, 0, python, keywords), token.start, |blanks|);
  }

  /**
   * And the normalized stream stays the same in exactly the same cases: when the place is trapped
   * the new text has fewer tokens. (After a bare carriage return or the like the two streams may
   * coincide by accident.)
   */
  lemma ReformatKeepsNormsExactlyWhen(code: Text, python: bool, keywords: set<Text>, token: Token, blanks: Text)
    requires AtToken(code, 0, python, keywords, token) && blanks != [] && AllSpace(blanks)
    requires !BareTerminatorAhead(code[token.start..])
    ensures Norms(Scan(Spaced(code, token.start, blanks), 0, python, keywords))
         == Norms(Scan(code, 0, python, keywords))
       <==> !IsTrapped(code, token.start, blanks, python, keywords)
  {
    hide Scan, Step, Reaches, IsTrapped, HasTrap, NoTraps, BareTerminatorAhead;
    var a, c := code[..token.start], code[token.start..];
    assert code == a + c;
    if IsTrapped(code, token.start, blanks, python, keywords) {
      TrappedExactly(code, token.start, blanks, python, keywords);
      TrapsAreTokens(a, c, blanks + c, 0, python, keywords);
      ShorterWithTraps(a, blanks, c, 0, python, keywords);
    } else {
      ReformatKeepsNorms(code, python, keywords, token, blanks);
    }
  }

  // ---------------------------------------------------------------------------
  // A text for each case
  // ---------------------------------------------------------------------------

  /** Three tokens in `"\"`; with a blank before the last quote it is one literal. */
  lemma OneBlankCloses(python: bool, keywords: set<Text>)
    ensures Norms(Scan([DOUBLE_QUOTE, BACKSLASH, DOUBLE_QUOTE], 0, python, keywords)) == [STR, [BACKSLASH], STR]
    ensures Norms(Scan([DOUBLE_QUOTE, BACKSLASH, SPACE, DOUBLE_QUOTE], 0, python, keywords)) == [STR]
  {
    hide QuotedBody, TripleLen, MatchLen, Scan;
    var q: Text := [DOUBLE_QUOTE];
    var s, t := [DOUBLE_QUOTE, BACKSLASH, DOUBLE_QUOTE], [DOUBLE_QUOTE, BACKSLASH, SPACE, DOUBLE_QUOTE];
    assert s[1..] == [BACKSLASH, DOUBLE_QUOTE] && s[1..][1..] == q && q[1..] == [];
    assert t[1..] == [BACKSLASH, SPACE, DOUBLE_QUOTE] && t[4..] == [];
    TinyBodies();
    NoTripleUnless(s, python);
    NoTripleUnless(t, python);
    NoTripleAhead(q, DOUBLE_QUOTE, python);
    LoneQuote(s, python);
    LoneQuote(q, python);
    ClosedLiteral(t, python);
    FirstTokenEnds(s, 0, python, keywords);
    BackslashStep(s[1..], 1, python, keywords);
    FirstTokenEnds(q, 2, python, keywords);
    FirstTokenEnds(t, 0, python, keywords);
    ScanEmpty(3, python, keywords);
    ScanEmpty(4, python, keywords);
  }

  lemma TinyBodies()
    ensures QuotedBody([], DOUBLE_QUOTE) == 0 && QuotedBody([BACKSLASH, DOUBLE_QUOTE], DOUBLE_QUOTE) == 0
    ensures QuotedBody([BACKSLASH, SPACE, DOUBLE_QUOTE], DOUBLE_QUOTE) == 3
  {
    var q: Text := [DOUBLE_QUOTE];
    assert [BACKSLASH] + q == [BACKSLASH, DOUBLE_QUOTE] && q[1..] == [];
    assert [BACKSLASH] + ([SPACE] + q) == [BACKSLASH, SPACE, DOUBLE_QUOTE] && ([SPACE] + q)[1..] == q;
    QuotedBodyStep(BACKSLASH, q, DOUBLE_QUOTE);
    QuotedBodyStep(BACKSLASH, [SPACE] + q, DOUBLE_QUOTE);
  }

  lemma NoTripleUnless(s: Text, python: bool)
    requires |s| >= 2 && s[1] != s[0] && IsQuote(s[0])
    ensures TripleLen(s, python) == 0
  {
    hide EndOf;
    assert |s| >= 3 ==> s[..3][1] == s[1] && s[..3][0] == s[0];
  }

  /** Three escaped blanks and a quote: a literal's end, and read by themselves three backslashes and a lone quote. */
  const ESCAPES: Text := [BACKSLASH, SPACE, BACKSLASH, SPACE, BACKSLASH, SPACE, DOUBLE_QUOTE]

  /** An even run of backslashes, a bare carriage return, a quote, and those. */
  const AFTER: Text := [BACKSLASH, BACKSLASH, CR, DOUBLE_QUOTE] + ESCAPES

  lemma EscapesBody()
    ensures QuotedBody(ESCAPES, DOUBLE_QUOTE) == 7
  {
    var q: Text := [DOUBLE_QUOTE];
    var one, two := [BACKSLASH, SPACE] + q, [BACKSLASH, SPACE, BACKSLASH, SPACE] + q;
    hide QuotedBody;
    assert q == [DOUBLE_QUOTE] + [] && one == [BACKSLASH] + ([SPACE] + q) && ([SPACE] + q)[1..] == q;
    assert two == [BACKSLASH] + ([SPACE] + one) && ([SPACE] + one)[1..] == one;
    assert ESCAPES == [BACKSLASH] + ([SPACE] + two) && ([SPACE] + two)[1..] == two;
    QuotedBodyStep(DOUBLE_QUOTE, [], DOUBLE_QUOTE);
    QuotedBodyStep(BACKSLASH, [SPACE] + q, DOUBLE_QUOTE);
    QuotedBodyStep(BACKSLASH, [SPACE] + one, DOUBLE_QUOTE);
    QuotedBodyStep(BACKSLASH, [SPACE] + two, DOUBLE_QUOTE);
  }

  lemma AfterBodies()
    ensures QuotedBody([BACKSLASH] + AFTER, DOUBLE_QUOTE) == 0
    ensures QuotedBody([BACKSLASH] + ([SPACE] + AFTER), DOUBLE_QUOTE) == 6
    ensures OpensAgain(AFTER, DOUBLE_QUOTE) && BareTerminatorAhead(AFTER)
  {
    var r := [CR] + ([DOUBLE_QUOTE] + ESCAPES);
    hide QuotedBody;
    QuotedBodyStep(DOUBLE_QUOTE, ESCAPES, DOUBLE_QUOTE);
    QuotedBodyStep(CR, [DOUBLE_QUOTE] + ESCAPES, DOUBLE_QUOTE);
    assert AFTER == [BACKSLASH] + ([BACKSLASH] + r) && ([BACKSLASH] + r)[1..] == r && AFTER[2..] == r;
    QuotedBodyStep(BACKSLASH, r, DOUBLE_QUOTE);
    QuotedBodyStep(BACKSLASH, [BACKSLASH] + r, DOUBLE_QUOTE);
    QuotedBodyStep(BACKSLASH, AFTER, DOUBLE_QUOTE);
    assert AFTER[1..] == [BACKSLASH] + r && ([SPACE] + AFTER)[1..] == AFTER;
    QuotedBodyStep(BACKSLASH, [SPACE] + AFTER, DOUBLE_QUOTE);
  }

  lemma ScanEscapes(start: nat, python: bool, keywords: set<Text>)
    ensures Norms(Scan(ESCAPES, start, python, keywords)) == [[BACKSLASH], [BACKSLASH], [BACKSLASH], STR]
  {
    hide Scan, MatchLen, QuotedBody, TripleLen;
    var q: Text := [DOUBLE_QUOTE];
    var one, two := [BACKSLASH, SPACE] + q, [BACKSLASH, SPACE, BACKSLASH, SPACE] + q;
    assert ESCAPES[1..] == [SPACE] + two && two[1..] == [SPACE] + one && one[1..] == [SPACE] + q && q[1..] == [];
    BackslashStep(ESCAPES, start, python, keywords);
    ScanBlanks([SPACE], two, start + 1, python, keywords);
    BackslashStep(two, start + 2, python, keywords);
    ScanBlanks([SPACE], one, start + 3, python, keywords);
    BackslashStep(one, start + 4, python, keywords);
    ScanBlanks([SPACE], q, start + 5, python, keywords);
    NoBody(DOUBLE_QUOTE);
    NoTripleAhead(q, DOUBLE_QUOTE, python);
    LoneQuote(q, python);
    FirstTokenEnds(q, start + 6, python, keywords);
    ScanEmpty(start + 7, python, keywords);
  }

  /** The stream without the blank: a lone quote, three backslashes, a literal. */
  lemma ScanUnspaced(python: bool, keywords: set<Text>)
    ensures var code := [DOUBLE_QUOTE] + ([BACKSLASH] + AFTER);
            Token(STR, 0, 1) in Scan(code, 0, python, keywords) &&
            Norms(Scan(code, 0, python, keywords)) == [STR, [BACKSLASH], [BACKSLASH], [BACKSLASH], STR]
  {
    hide Scan, MatchLen, QuotedBody, TripleLen, OpensAgain, BareTerminatorAhead;
    var open := [DOUBLE_QUOTE] + ESCAPES;
    var r := [CR] + open;
    var code := [DOUBLE_QUOTE] + ([BACKSLASH] + AFTER);
    AfterBodies();
    assert code[1..] == [BACKSLASH] + AFTER && ([BACKSLASH] + AFTER)[1..] == AFTER;
    assert AFTER[1..] == [BACKSLASH] + r && ([BACKSLASH] + r)[1..] == r;
    NoTripleUnless(code, python);
    LoneQuote(code, python);
    FirstTokenEnds(code, 0, python, keywords);
    BackslashStep([BACKSLASH] + AFTER, 1, python, keywords);
    BackslashStep(AFTER, 2, python, keywords);
    BackslashStep([BACKSLASH] + r, 3, python, keywords);
    ScanBlanks([CR], open, 4, python, keywords);
    ScanOpen(5, python, keywords);
  }

  lemma ScanOpen(start: nat, python: bool, keywords: set<Text>)
    ensures Scan([DOUBLE_QUOTE] + ESCAPES, start, python, keywords) == [Token(STR, start, start + 8)]
  {
    hide Scan, MatchLen, QuotedBody, TripleLen;
    var open := [DOUBLE_QUOTE] + ESCAPES;
    EscapesBody();
    assert open[1..] == ESCAPES && open[8..] == [];
    NoTripleUnless(open, python);
    ClosedLiteral(open, python);
    FirstTokenEnds(open, start, python, keywords);
    ScanEmpty(start + 8, python, keywords);
  }

  /** The stream with the blank: a literal, three backslashes, a lone quote. */
  lemma ScanSpaced(python: bool, keywords: set<Text>)
    ensures Norms(Scan([DOUBLE_QUOTE] + ([BACKSLASH] + ([SPACE] + AFTER)), 0, python, keywords)) ==
            [STR, [BACKSLASH], [BACKSLASH], [BACKSLASH], STR]
  {
    hide Scan, MatchLen, QuotedBody, TripleLen, OpensAgain, BareTerminatorAhead;
    var rest := [BACKSLASH] + ([SPACE] + AFTER);
    var spaced := [DOUBLE_QUOTE] + rest;
    AfterBodies();
    assert spaced[1..] == rest && spaced[7..] == ESCAPES;
    NoTripleUnless(spaced, python);
    ClosedLiteral(spaced, python);
    FirstTokenEnds(spaced, 0, python, keywords);
    ScanEscapes(7, python, keywords);
    NormsConcat([Token(STR, 0, 7)], Scan(ESCAPES, 7, python, keywords));
    assert Norms([Token(STR, 0, 7)]) == [STR];
  }

  /** Here a blank closes the literal that was left open, and yet the normalized streams coincide. */
  lemma BareTerminatorCanCoincide(python: bool, keywords: set<Text>)
    ensures var code := [DOUBLE_QUOTE, BACKSLASH] + AFTER;
            IsTrapped(code, 2, [SPACE], python, keywords) && BareTerminatorAhead(code[2..]) &&
            Norms(Scan(Spaced(code, 2, [SPACE]), 0, python, keywords)) == Norms(Scan(code, 0, python, keywords))
  {
    hide Scan, QuotedBody, OpensAgain, BareTerminatorAhead;
    var code := [DOUBLE_QUOTE, BACKSLASH] + AFTER;
    assert code == [DOUBLE_QUOTE] + ([BACKSLASH] + AFTER) && code[2..] == AFTER && code[1..2] == [BACKSLASH];
    assert Spaced(code, 2, [SPACE]) == [DOUBLE_QUOTE] + ([BACKSLASH] + ([SPACE] + AFTER));
    AfterBodies();
    ScanUnspaced(python, keywords);
    ScanSpaced(python, keywords);
    assert LeavesOpen(code, Token(STR, 0, 1), 2);
  }
}
