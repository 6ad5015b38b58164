/**
 * Disguising a copy: renaming identifiers, respacing, and adding or taking away comment lines. None
 * of it changes the normalized stream.
 */
module Edits {
  import opened Text
  import opened Tokenizer
  import opened Literals
  import opened Editing
  import opened Reformatting

  /** Swapping one word for another hides nothing a lookahead could find. */
  lemma WordsInterchangeable(x: Text, y: Text, b: Text)
    requires IsWord(x) && IsWord(y)
    ensures Interchangeable(x + b, y + b)
    ensures forall q: Unit :: IsQuote(q) ==> !EscapeMends(x + b, y + b, q)
  {
    var c, c' := x + b, y + b;
    forall pat: Text | IsCloser(pat) && EndOf(c, pat) == 0 ensures EndOf(c', pat) == 0 {
      EndOfPastInert(x, b, pat);
      EndOfPastInert(y, b, pat);
    }
    forall q: Unit | IsQuote(q)
      ensures QuotedBody(c, q) == 0 ==> QuotedBody(c', q) == 0
      ensures !EscapeMends(c, c', q)
    {
      hide QuotedBody, EndOf;
      EscapedWord(x, b, q);
      EscapedWord(y, b, q);
    }
  }

  /** A word is passed over inside a literal, also when its first unit is escaped. */
  lemma EscapedWord(x: Text, b: Text, q: Unit)
    requires IsWord(x) && IsQuote(q)
    ensures QuotedBody(x + b, q) == 0 <==> QuotedBody(b, q) == 0
    ensures QuotedBody([BACKSLASH] + (x + b), q) == 0 <==> QuotedBody(b, q) == 0
  {
    hide QuotedBody;
    QuotedPastInert(x, b, q);
    QuotedBodyStep(BACKSLASH, x + b, q);
    assert (x + b)[1..] == x[1..] + b;
    QuotedPastInert(x[1..], b, q);
  }

  predicate OccursAt(pat: Text, s: Text, i: nat) {
    i <= |s| && pat <= s[i..]
  }

  /** Nothing that closes a docstring or a block comment occurs in it. */
  ghost predicate NoCloser(body: Text) {
    forall pat, i :: IsCloser(pat) ==> !OccursAt(pat, body, i)
  }

  /** A comment on a line of its own. */
  function CommentLine(body: Text, python: bool): Text {
    [LF] + ((if python then [HASH] else LINE_COMMENT) + body) + [LF]
  }

  lemma {:induction false} EndOfPast(w: Text, b: Text, pat: Text)
    requires pat != [] && forall i :: 0 <= i < |w| ==> !OccursAt(pat, w + b, i)
    ensures EndOf(w + b, pat) == Bump(|w|, EndOf(b, pat))
  {
    if w == [] {
      assert w + b == b;
    } else {
      assert !OccursAt(pat, w + b, 0);
      assert (w + b)[0..] == w + b && (w + b)[1..] == w[1..] + b;
      forall i | 0 <= i < |w| - 1 ensures !OccursAt(pat, w[1..] + b, i) {
        assert !OccursAt(pat, w + b, i + 1);
        assert (w[1..] + b)[i..] == (w + b)[i + 1..];
      }
      EndOfPast(w[1..], b, pat);
    }
  }

  lemma NoCloserInLine(body: Text, python: bool, b: Text, pat: Text, i: nat)
    requires LF !in body && NoCloser(body) && IsCloser(pat) && i < |CommentLine(body, python)|
    ensures !OccursAt(pat, CommentLine(body, python) + b, i)
  {
    var w := CommentLine(body, python);
    var marker: Text := if python then [HASH] else LINE_COMMENT;
    var k := 1 + |marker|;
    var s := (w + b)[i..];
    assert s[0] == w[i];
    if k <= i < k + |body| && pat <= s {
      var j := i - k;
      var rest := |body| - j;
      assert forall m :: 0 <= m < rest ==> s[m] == body[j + m];
      assert s[rest] == LF;
      assert forall m :: 0 <= m < |pat| ==> s[m] == pat[m] != LF;
      assert |pat| <= rest;
      assert OccursAt(pat, body, j);
    }
  }

  lemma CommentInterchangeable(body: Text, python: bool, b: Text)
    requires b != [] && !IsSpace(b[0]) && LF !in body && NoCloser(body)
    ensures Interchangeable(b, CommentLine(body, python) + b)
    ensures forall q: Unit :: IsQuote(q) ==> !EscapeMends(b, CommentLine(body, python) + b, q)
  {
    var w := CommentLine(body, python);
    hide NoCloser;
    forall pat: Text | IsCloser(pat) && EndOf(b, pat) == 0 ensures EndOf(w + b, pat) == 0 {
      forall i | 0 <= i < |w| ensures !OccursAt(pat, w + b, i) {
        NoCloserInLine(body, python, b, pat, i);
      }
      EndOfPast(w, b, pat);
    }
    forall q: Unit | IsQuote(q)
      ensures QuotedBody(w + b, q) == 0 && QuotedBody([BACKSLASH] + (w + b), q) == 0
    {
      assert (w + b)[0] == LF;
      QuotedBodyStep(BACKSLASH, w + b, q);
    }
  }

  lemma {:induction false} WordLenIsWord(s: Text)
    ensures forall i :: 0 <= i < WordLen(s) ==> IsWordUnit(s[i])
    ensures WordLen(s) < |s| ==> !IsWordUnit(s[WordLen(s)])
  {
    if s == [] || !IsWordUnit(s[0]) {
    } else {
      WordLenIsWord(s[1..]);
    }
  }

  /** A match beginning with a word start is the maximal word. */
  lemma WordMatch(s: Text, python: bool)
    requires s != [] && IsWordStart(s[0])
    ensures MatchLen(s, python) == WordLen(s)
  {
  }

  lemma WordMatchExact(x: Text, b: Text, python: bool)
    requires IsWord(x) && (b == [] || !IsWordUnit(b[0]))
    ensures MatchLen(x + b, python) == |x|
  {
    hide MatchLen;
    WordMatch(x + b, python);
    AllWord(x);
    WordLenSplit(x, b);
  }

  lemma {:induction false} AllWord(x: Text)
    requires forall i :: 0 <= i < |x| ==> IsWordUnit(x[i])
    ensures WordLen(x) == |x|
  {
    if x == [] {
    } else {
      AllWord(x[1..]);
    }
  }

  /** Only a maximal word is normalized to ID. */
  lemma IdIsWord(s: Text, start: nat, python: bool, keywords: set<Text>)
    requires s != []
    requires Step(s, start, python, keywords).0 != []
    requires Step(s, start, python, keywords).0[0].normalized == ID
    ensures var n := Step(s, start, python, keywords).1;
            IsWord(s[..n]) && (s[n..] == [] || !IsWordUnit(s[n..][0]))
  {
    hide MatchLen;
    assert IsWordStart(s[0]);
    WordMatch(s, python);
    WordLenIsWord(s);
  }

  /** The scan of a word that is no keyword, followed by something that cannot continue it. */
  lemma ScanWord(y: Text, b: Text, start: nat, python: bool, keywords: set<Text>)
    requires IsWord(y) && y !in keywords && (b == [] || !IsWordUnit(b[0]))
    ensures Norms(Scan(y + b, start, python, keywords))
         == [ID] + Norms(Scan(b, start + |y|, python, keywords))
  {
    hide MatchLen, Scan;
    var s := y + b;
    WordMatchExact(y, b, python);
    ScanUnfold(s, start, python, keywords);
    assert s[..|y|] == y && s[|y|..] == b;
    var (head, n) := Step(s, start, python, keywords);
    assert Norms(head) == [ID];
    NormsConcat(head, Scan(b, start + |y|, python, keywords));
  }

  /** One gap for another: no line is joined, and no escape of a line end becomes one of a blank. */
  predicate MayReplace(gap: Text, blanks: Text) {
    gap != [] && AllSpace(gap) && blanks != [] && AllSpace(blanks) && gap[0] != LF &&
    (LF in gap ==> LF in blanks) && (IsLineTerminator(gap[0]) ==> IsLineTerminator(blanks[0]))
  }

  lemma GapsInterchangeable(gap: Text, blanks: Text, c: Text)
    requires MayReplace(gap, blanks)
    ensures Interchangeable(gap + c, blanks + c)
    ensures forall q: Unit :: IsQuote(q) ==> !EscapeMends(gap + c, blanks + c, q)
  {
    forall pat: Text | IsCloser(pat) ensures EndOf(gap + c, pat) == 0 ==> EndOf(blanks + c, pat) == 0 {
      EndOfPastInert(gap, c, pat);
      EndOfPastInert(blanks, c, pat);
    }
    forall q: Unit | IsQuote(q)
      ensures QuotedBody(gap + c, q) == 0 ==> QuotedBody(blanks + c, q) == 0
      ensures !EscapeMends(gap + c, blanks + c, q)
    {
      hide QuotedBody, EndOf;
      QuotedPastInert(gap, c, q);
      QuotedPastInert(blanks, c, q);
      EscapedBlank(gap, c, q);
      EscapedBlank(blanks, c, q);
    }
  }

  /**
   * An edit at token `index`: a new name for it; blanks or a comment line put in front of it; or the
   * gap of `width` blanks in front of it replaced by another.
   */
  datatype Edit =
    | Rename(index: nat, name: Text)
    | Reformat(index: nat, blanks: Text)
    | Respace(index: nat, width: nat, blanks: Text)
    | Annotate(index: nat, body: Text)

  ghost predicate CanEdit(code: Text, python: bool, keywords: set<Text>, e: Edit) {
    var tokens := Scan(code, 0, python, keywords);
    e.index < |tokens| &&
    var token := tokens[e.index];
    match e
    case Rename(_, name) => token.normalized == ID && IsWord(name) && name !in keywords
    case Reformat(_, blanks) =>
      blanks != [] && AllSpace(blanks) && !IsTrapped(code, token.start, blanks, python, keywords)
    case Respace(_, width, blanks) => IsGap(code, token.start, width, blanks, python)
    case Annotate(_, body) => LF !in body && NoCloser(body)
  }

  /** The gap reaches back to a boundary of the scan and may be replaced by these blanks. */
  ghost predicate IsGap(code: Text, at: nat, width: nat, blanks: Text, python: bool) {
    width <= at <= |code| && MayReplace(code[at - width..at], blanks) &&
    Reaches(code[..at - width], code[at - width..], python)
  }

  ghost function ApplyEdit(code: Text, python: bool, keywords: set<Text>, e: Edit): Text
    requires CanEdit(code, python, keywords, e)
  {
    ScanWellSpanned(code, 0, python, keywords);
    var token := Scan(code, 0, python, keywords)[e.index];
    match e
    case Rename(_, name) => code[..token.start] + (name + code[token.end..])
    case Reformat(_, blanks) => Spaced(code, token.start, blanks)
    case Respace(_, width, blanks) => code[..token.start - width] + (blanks + code[token.start..])
    case Annotate(_, body) => code[..token.start] + (CommentLine(body, python) + code[token.start..])
  }

  /** The two texts after the swap point scan alike. */
  lemma RenamedWordScansAlike(
    c: Text, start: nat, python: bool, keywords: set<Text>, token: Token, name: Text)
    requires c != [] && Step(c, start, python, keywords) == ([token], token.end - token.start)
    requires token.start == start && token.normalized == ID
    requires IsWord(name) && name !in keywords
    ensures var n := token.end - start;
            IsWord(c[..n]) &&
            Norms(Scan(name + c[n..], start, python, keywords)) == Norms(Scan(c, start, python, keywords))
  {
    hide Scan, MatchLen, IsWord;
    IdIsWord(c, start, python, keywords);
    var n := token.end - start;
    var b := c[n..];
    ScanUnfold(c, start, python, keywords);
    NormsConcat([token], Scan(b, token.end, python, keywords));
    assert Norms([token]) == [ID];
    ScanWord(name, b, start, python, keywords);
    ScanShift(b, token.end, start + |name|, python, keywords);
  }

  lemma RenameKeepsNorms(code: Text, python: bool, keywords: set<Text>, token: Token, name: Text)
    requires AtToken(code, 0, python, keywords, token) && token.normalized == ID
    requires IsWord(name) && name !in keywords
    ensures Norms(Scan(code[..token.start] + (name + code[token.end..]), 0, python, keywords))
         == Norms(Scan(code, 0, python, keywords))
  {
    hide Scan, Step, Reaches, Interchangeable, IsWord, EscapeMends, NoTraps;
    var a, c := code[..token.start], code[token.start..];
    var n := token.end - token.start;
    assert c[n..] == code[token.end..] && c == c[..n] + c[n..] && code == a + c;
    RenamedWordScansAlike(c, token.start, python, keywords, token, name);
    WordsInterchangeable(c[..n], name, c[n..]);
    NeverMends(a, c, name + c[n..], python);
    ScanSwap(a, c, name + c[n..], 0, python, keywords);
  }

  lemma RespaceKeepsNorms(code: Text, python: bool, keywords: set<Text>, at: nat, width: nat, blanks: Text)
    requires IsGap(code, at, width, blanks, python)
    ensures Norms(Scan(code[..at - width] + (blanks + code[at..]), 0, python, keywords))
         == Norms(Scan(code, 0, python, keywords))
  {
    hide Scan, MatchLen, Reaches, Interchangeable, EscapeMends, NoTraps;
    var a, gap, c := code[..at - width], code[at - width..at], code[at..];
    assert code[at - width..] == gap + c && code == a + (gap + c);
    GapsInterchangeable(gap, blanks, c);
    NeverMends(a, gap + c, blanks + c, python);
    ScanBlanks(gap, c, |a|, python, keywords);
    ScanBlanks(blanks, c, |a|, python, keywords);
    ScanShift(c, |a| + |gap|, |a| + |blanks|, python, keywords);
    ScanSwap(a, gap + c, blanks + c, 0, python, keywords);
  }

  lemma ScanCommentLine(body: Text, c: Text, start: nat, python: bool, keywords: set<Text>)
    requires LF !in body
    ensures Norms(Scan(CommentLine(body, python) + c, start, python, keywords))
         == Norms(Scan(c, start, python, keywords))
  {
    hide Scan;
    var raw := (if python then [HASH] else LINE_COMMENT) + body;
    assert CommentLine(body, python) + c == [LF] + (raw + ([LF] + c));
    ScanBlanks([LF], raw + ([LF] + c), start, python, keywords);
    LineCommentDropped(body, [LF] + c, start + 1, python, keywords);
    ScanBlanks([LF], c, start + 1 + |raw|, python, keywords);
    ScanShift(c, start + 1 + |raw| + 1, start, python, keywords);
  }

  lemma AnnotateKeepsNorms(code: Text, python: bool, keywords: set<Text>, token: Token, body: Text)
    requires AtToken(code, 0, python, keywords, token)
    requires LF !in body && NoCloser(body)
    ensures Norms(Scan(code[..token.start] + (CommentLine(body, python) + code[token.start..]), 0, python, keywords))
         == Norms(Scan(code, 0, python, keywords))
  {
    hide Scan, MatchLen, Reaches, Interchangeable, CommentLine, NoCloser, EscapeMends, NoTraps;
    var a, c := code[..token.start], code[token.start..];
    assert code == a + c;
    CommentInterchangeable(body, python, c);
    NeverMends(a, c, CommentLine(body, python) + c, python);
    ScanCommentLine(body, c, token.start, python, keywords);
    ScanSwap(a, c, CommentLine(body, python) + c, 0, python, keywords);
  }

  lemma EditKeepsNorms(code: Text, python: bool, keywords: set<Text>, e: Edit)
    requires CanEdit(code, python, keywords, e)
    ensures Norms(Scan(ApplyEdit(code, python, keywords, e), 0, python, keywords))
         == Norms(Scan(code, 0, python, keywords))
  {
    hide Scan, Step, Reaches, IsTrapped;
    ScanWellSpanned(code, 0, python, keywords);
    var token := Scan(code, 0, python, keywords)[e.index];
    EveryTokenReached(code, 0, python, keywords, token);
    match e
    case Rename(_, name) => RenameKeepsNorms(code, python, keywords, token, name);
    case Reformat(_, blanks) => ReformatKeepsNorms(code, python, keywords, token, blanks);
    case Respace(_, width, blanks) => RespaceKeepsNorms(code, python, keywords, token.start, width, blanks);
    case Annotate(_, body) => AnnotateKeepsNorms(code, python, keywords, token, body);
  }
}
