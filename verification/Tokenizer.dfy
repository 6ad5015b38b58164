/**
 * The token scanner of similarity.service.js: the ordered alternatives of its two regular
 * expressions, applied left to right, and the normalization of what they match.
 *
 * Every alternative is a function from the remaining text to the length it matches; no
 * alternative can match nothing, so 0 stands for failure.
 */
module Tokenizer {
  import opened Text
  import opened Keywords

  /** A normalized token and its character range [start, end) in the source. */
  datatype Token = Token(normalized: Text, start: nat, end: nat)

  const STR: Text := [83, 84, 82]
  const NUM: Text := [78, 85, 77]
  const ID: Text := [73, 68]
  const TRIPLE_DOUBLE: Text := [DOUBLE_QUOTE, DOUBLE_QUOTE, DOUBLE_QUOTE]
  const TRIPLE_SINGLE: Text := [SINGLE_QUOTE, SINGLE_QUOTE, SINGLE_QUOTE]
  const LINE_COMMENT: Text := [SLASH, SLASH]
  const COMMENT_OPEN: Text := [SLASH, STAR]
  const COMMENT_CLOSE: Text := [STAR, SLASH]

  // ---------------------------------------------------------------------------
  // The alternatives
  // ---------------------------------------------------------------------------

  /** Adds to a length that may be a failure. */
  function Bump(n: nat, r: nat): nat {
    if r == 0 then 0 else n + r
  }

  /** `[^\n]*` */
  function LineEnd(s: Text): (n: nat)
    ensures n <= |s|
  {
    if s == [] || s[0] == LF then 0 else 1 + LineEnd(s[1..])
  }

  /** `[\s\S]*?` followed by `pat`: the end of the first occurrence. */
  function EndOf(s: Text, pat: Text): (n: nat)
    requires pat != []
    ensures n <= |s|
  {
    if pat <= s then |pat| else if s == [] then 0 else Bump(1, EndOf(s[1..], pat))
  }

  /** `open[\s\S]*?close` */
  function DelimitedLen(s: Text, open: Text, close: Text): (n: nat)
    requires close != []
    ensures n <= |s|
  {
    if open <= s then Bump(|open|, EndOf(s[|open|..], close)) else 0
  }

  /** `(?:[^q\\\n]|\\.)*q` */
  function QuotedBody(s: Text, q: Unit): (n: nat)
    ensures n <= |s|
  {
    if s == [] then 0
    else if s[0] == q then 1
    else if s[0] == BACKSLASH then
      if |s| >= 2 && !IsLineTerminator(s[1]) then Bump(2, QuotedBody(s[2..], q)) else 0
    else if s[0] == LF then 0
    else Bump(1, QuotedBody(s[1..], q))
  }

  function QuotedLen(s: Text, q: Unit): (n: nat)
    ensures n <= |s|
  {
    if s != [] && s[0] == q then Bump(1, QuotedBody(s[1..], q)) else 0
  }

  predicate IsOperator(c: Unit, d: Unit, python: bool) {
    (d == 61 && c in {33, 60, 61, 62})                                  // != <= == >=
    || (python && c == STAR && d == STAR)                               // **
    || (python && c == SLASH && d == SLASH)                             // //
    || (!python && c == d && c in {38, 43, 45, 58, 60, 62, 124})        // && ++ -- :: << >> ||
    || (!python && c == 45 && d == 62)                                  // ->
    || (!python && d == 61 && c in {37, 42, 43, 45, 47})                // %= *= += -= /=
  }

  function WordLen(s: Text): (n: nat)
    ensures n <= |s|
  {
    if s == [] || !IsWordUnit(s[0]) then 0 else 1 + WordLen(s[1..])
  }

  function DigitsLen(s: Text): (n: nat)
    ensures n <= |s|
  {
    if s == [] || !IsDigit(s[0]) then 0 else 1 + DigitsLen(s[1..])
  }

  /** `\d+\.?\d*` */
  function NumberLen(s: Text): (n: nat)
    ensures n <= |s|
  {
    var d := DigitsLen(s);
    if d == 0 then 0
    else if d < |s| && s[d] == DOT then d + 1 + DigitsLen(s[d + 1..])
    else d
  }

  function CommentLen(s: Text, python: bool): (n: nat)
    ensures n <= |s|
  {
    if python then
      if s != [] && s[0] == HASH then LineEnd(s) else 0
    else if LINE_COMMENT <= s then LineEnd(s)
    else DelimitedLen(s, COMMENT_OPEN, COMMENT_CLOSE)
  }

  function TripleLen(s: Text, python: bool): (n: nat)
    ensures n <= |s|
  {
    if !python then 0
    else
      var n := DelimitedLen(s, TRIPLE_DOUBLE, TRIPLE_DOUBLE);
      if n > 0 then n else DelimitedLen(s, TRIPLE_SINGLE, TRIPLE_SINGLE)
  }

  function StringLen(s: Text): (n: nat)
    ensures n <= |s|
  {
    var n := QuotedLen(s, DOUBLE_QUOTE);
    if n > 0 then n else QuotedLen(s, SINGLE_QUOTE)
  }

  /** Operators, words, numbers, and the single unit `[^\s]` that comes last. */
  function PlainLen(s: Text, python: bool): (n: nat)
    requires s != []
    ensures n <= |s|
    ensures n == 0 <==> IsSpace(s[0])
  {
    if |s| >= 2 && IsOperator(s[0], s[1], python) then 2
    else if IsWordStart(s[0]) then WordLen(s)
    else if NumberLen(s) > 0 then NumberLen(s)
    else if IsSpace(s[0]) then 0
    else 1
  }

  /** The match at the head of `s`: nothing only at whitespace, which the search steps over. */
  function MatchLen(s: Text, python: bool): (n: nat)
    requires s != []
    ensures n <= |s|
    ensures n == 0 <==> IsSpace(s[0])
  {
    if CommentLen(s, python) > 0 then CommentLen(s, python)
    else if TripleLen(s, python) > 0 then TripleLen(s, python)
    else if StringLen(s) > 0 then StringLen(s)
    else PlainLen(s, python)
  }

  // ---------------------------------------------------------------------------
  // The scan
  // ---------------------------------------------------------------------------

  /** Whatever starts this way is dropped, including Python's `//` and a lone `#` in C-style code. */
  predicate IsDropped(raw: Text)
    requires raw != []
  {
    raw[0] == HASH || LINE_COMMENT <= raw || COMMENT_OPEN <= raw
  }

  function Normalize(raw: Text, keywords: set<Text>): Text
    requires raw != []
  {
    if raw[0] == DOUBLE_QUOTE || raw[0] == SINGLE_QUOTE then STR
    else if IsDigit(raw[0]) then NUM
    else if IsWordStart(raw[0]) then if raw in keywords then raw else ID
    else raw
  }

  function Emit(raw: Text, start: nat, keywords: set<Text>): seq<Token>
    requires raw != []
  {
    if IsDropped(raw) then [] else [Token(Normalize(raw, keywords), start, start + |raw|)]
  }

  /** What the scanner produces at the head of `s`, and how much text it uses up. */
  function Step(s: Text, start: nat, python: bool, keywords: set<Text>): (r: (seq<Token>, nat))
    requires s != []
    ensures 0 < r.1 <= |s| && |r.0| <= 1
  {
    var n := MatchLen(s, python);
    if n == 0 then ([], 1) else (Emit(s[..n], start, keywords), n)
  }

  /** The tokens of `s`, a suffix of the source beginning at offset `start`. */
  function Scan(s: Text, start: nat, python: bool, keywords: set<Text>): seq<Token>
    decreases |s|
  {
    if s == [] then []
    else
      var (head, n) := Step(s, start, python, keywords);
      head + Scan(s[n..], start + n, python, keywords)
  }

  lemma ScanUnfold(s: Text, start: nat, python: bool, keywords: set<Text>)
    requires s != []
    ensures Scan(s, start, python, keywords)
         == Step(s, start, python, keywords).0
          + Scan(s[Step(s, start, python, keywords).1..],
                 start + Step(s, start, python, keywords).1, python, keywords)
  {
  }

  /** The scan one step further on, at an offset into the source. */
  lemma ScanStep(code: Text, i: nat, python: bool, keywords: set<Text>)
    requires i < |code|
    ensures Scan(code[i..], i, python, keywords)
         == Step(code[i..], i, python, keywords).0
          + Scan(code[i + Step(code[i..], i, python, keywords).1..],
                 i + Step(code[i..], i, python, keywords).1, python, keywords)
  {
  }

  lemma ScanEmpty(i: nat, python: bool, keywords: set<Text>)
    ensures Scan([], i, python, keywords) == []
  {
  }

  lemma AppendAssociative<T>(a: seq<T>, b: seq<T>, c: seq<T>)
    ensures a + (b + c) == (a + b) + c
  {
  }

  /** tokenize's loop over the matches, for one of the two patterns and one keyword set. */
  method TokenizeWith(code: Text, python: bool, keywords: set<Text>) returns (tokens: seq<Token>)
    ensures tokens == Scan(code, 0, python, keywords)
  {
    hide MatchLen, Scan;
    tokens := [];
    var lastIndex := 0;
    while lastIndex < |code|
      invariant 0 <= lastIndex <= |code|
      invariant tokens + Scan(code[lastIndex..], lastIndex, python, keywords)
             == Scan(code, 0, python, keywords)
    {
      ghost var before, at := tokens, lastIndex;
      ghost var (head, step) := Step(code[lastIndex..], lastIndex, python, keywords);
      ScanStep(code, lastIndex, python, keywords);
      var n := MatchLen(code[lastIndex..], python);
      if n == 0 {
        lastIndex := lastIndex + 1;
      } else {
        var raw := code[lastIndex..][..n];
        if !IsDropped(raw) {
          tokens := tokens + [Token(Normalize(raw, keywords), lastIndex, lastIndex + n)];
        }
        lastIndex := lastIndex + n;
      }
      assert tokens == before + head && lastIndex == at + step;
      AppendAssociative(before, head, Scan(code[lastIndex..], lastIndex, python, keywords));
    }
    assert code[lastIndex..] == [];
    ScanEmpty(lastIndex, python, keywords);
  }

  function Tokens(code: Text, language: Language): seq<Token> {
    Scan(code, 0, language.Python?, KeywordSetFor(language))
  }

  method Tokenize(code: Text, language: Language) returns (tokens: seq<Token>)
    ensures tokens == Tokens(code, language)
  {
    tokens := TokenizeWith(code, language.Python?, KeywordSetFor(language));
  }

  // ---------------------------------------------------------------------------
  // Spans
  // ---------------------------------------------------------------------------

  /** Non-empty, in-bounds, disjoint and in source order. */
  ghost predicate WellSpanned(tokens: seq<Token>, lo: nat, hi: nat) {
    (forall i :: 0 <= i < |tokens| ==> lo <= tokens[i].start < tokens[i].end <= hi) &&
    (forall i, j :: 0 <= i < j < |tokens| ==> tokens[i].end <= tokens[j].start)
  }

  lemma WellSpannedConcat(a: seq<Token>, b: seq<Token>, lo: nat, mid: nat, hi: nat)
    requires lo <= mid <= hi
    requires WellSpanned(a, lo, mid) && WellSpanned(b, mid, hi)
    ensures WellSpanned(a + b, lo, hi)
  {
  }

  lemma StepWellSpanned(s: Text, start: nat, python: bool, keywords: set<Text>)
    requires s != []
    ensures WellSpanned(Step(s, start, python, keywords).0, start,
                        start + Step(s, start, python, keywords).1)
  {
  }

  lemma {:induction false} ScanWellSpanned(s: Text, start: nat, python: bool, keywords: set<Text>)
    ensures WellSpanned(Scan(s, start, python, keywords), start, start + |s|)
    decreases |s|
  {
    hide Scan, Step;
    if s == [] {
      ScanEmpty(start, python, keywords);
    } else {
      var (head, n) := Step(s, start, python, keywords);
      StepWellSpanned(s, start, python, keywords);
      ScanWellSpanned(s[n..], start + n, python, keywords);
      WellSpannedConcat(head, Scan(s[n..], start + n, python, keywords), start, start + n, start + |s|);
      ScanUnfold(s, start, python, keywords);
    }
  }
}
