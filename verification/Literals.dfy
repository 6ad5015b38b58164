/**
 * What each kind of lexeme becomes: comments leave no token, and a literal is one token whatever is
 * written inside it; words, numbers, operators and other symbols are one token each.
 */
module Literals {
  import opened Text
  import opened Tokenizer

  /** `close` first occurs in `body + close` at the very end. */
  ghost predicate ClosesFirstAtEnd(body: Text, close: Text) {
    forall i :: 0 <= i < |body| ==> !(close <= (body + close)[i..])
  }

  lemma {:induction false} EndOfBody(body: Text, close: Text, rest: Text)
    requires close != [] && ClosesFirstAtEnd(body, close)
    ensures EndOf(body + close + rest, close) == |body| + |close|
  {
    var s := body + close + rest;
    if body == [] {
      assert s == close + rest;
    } else {
      assert s[..|close|] == (body + close)[0..][..|close|];
      assert !(close <= (body + close)[0..]);
      assert s[1..] == body[1..] + close + rest;
      forall i | 0 <= i < |body[1..]| ensures !(close <= (body[1..] + close)[i..]) {
        assert (body[1..] + close)[i..] == (body + close)[i + 1..];
      }
      EndOfBody(body[1..], close, rest);
    }
  }

  lemma {:induction false} LineEndOf(body: Text, rest: Text)
    requires LF !in body && (rest == [] || rest[0] == LF)
    ensures LineEnd(body + rest) == |body|
  {
    var s := body + rest;
    if body == [] {
      assert s == rest;
    } else {
      assert s[0] == body[0] && s[1..] == body[1..] + rest;
      LineEndOf(body[1..], rest);
    }
  }

  lemma DelimitedLiteral(open: Text, body: Text, close: Text, rest: Text)
    requires close != [] && ClosesFirstAtEnd(body, close)
    ensures DelimitedLen(open + (body + close + rest), open, close) == |open| + |body| + |close|
  {
    var s := open + (body + close + rest);
    assert s[..|open|] == open && s[|open|..] == body + close + rest;
    EndOfBody(body, close, rest);
  }

  /** One step of the scan over a known match. */
  lemma ScanOver(raw: Text, rest: Text, start: nat, python: bool, keywords: set<Text>)
    requires raw != [] && MatchLen(raw + rest, python) == |raw|
    ensures Scan(raw + rest, start, python, keywords)
         == Emit(raw, start, keywords) + Scan(rest, start + |raw|, python, keywords)
  {
    hide MatchLen, Scan, Emit;
    var s := raw + rest;
    ScanUnfold(s, start, python, keywords);
    assert s[..|raw|] == raw && s[|raw|..] == rest;
  }

  /** A docstring, in either kind of quotes, is a single STR, however much prose it holds. */
  lemma DocstringIsOneToken(mark: Text, body: Text, rest: Text, start: nat, keywords: set<Text>)
    requires (mark == TRIPLE_DOUBLE || mark == TRIPLE_SINGLE) && ClosesFirstAtEnd(body, mark)
    ensures var raw := mark + body + mark;
            Scan(raw + rest, start, true, keywords) ==
            [Token(STR, start, start + |raw|)] + Scan(rest, start + |raw|, true, keywords)
  {
    hide Scan;
    var raw := mark + body + mark;
    DelimitedLiteral(mark, body, mark, rest);
    assert raw + rest == mark + (body + mark + rest);
    assert raw[0] == mark[0] && (raw + rest)[0] == mark[0];
    ScanOver(raw, rest, start, true, keywords);
    assert raw[1] == mark[1];
  }

  /**
   * A line comment leaves nothing, whether a line feed or the end of the text follows: `#` in
   * Python, `//` in the C-style languages.
   */
  lemma LineCommentDropped(body: Text, rest: Text, start: nat, python: bool, keywords: set<Text>)
    requires LF !in body && (rest == [] || rest[0] == LF)
    ensures var raw := (if python then [HASH] else LINE_COMMENT) + body;
            Scan(raw + rest, start, python, keywords) == Scan(rest, start + |raw|, python, keywords)
  {
    hide Scan;
    var raw := (if python then [HASH] else LINE_COMMENT) + body;
    assert raw[0] == if python then HASH else SLASH;
    if !python {
      assert (raw + rest)[..2] == LINE_COMMENT && raw[..2] == LINE_COMMENT;
    }
    LineEndOf(raw, rest);
    ScanOver(raw, rest, start, python, keywords);
    assert Emit(raw, start, keywords) == [];
  }

  /** A closed block comment leaves nothing in the C-style languages. */
  lemma BlockCommentDropped(body: Text, rest: Text, start: nat, keywords: set<Text>)
    requires ClosesFirstAtEnd(body, COMMENT_CLOSE)
    ensures var raw := COMMENT_OPEN + body + COMMENT_CLOSE;
            Scan(raw + rest, start, false, keywords) == Scan(rest, start + |raw|, false, keywords)
  {
    hide Scan;
    var raw := COMMENT_OPEN + body + COMMENT_CLOSE;
    DelimitedLiteral(COMMENT_OPEN, body, COMMENT_CLOSE, rest);
    assert raw + rest == COMMENT_OPEN + (body + COMMENT_CLOSE + rest);
    assert raw[1] == STAR;
    ScanOver(raw, rest, start, false, keywords);
    assert raw[..2] == COMMENT_OPEN;
    assert Emit(raw, start, keywords) == [];
  }

  // ---------------------------------------------------------------------------
  // Words, numbers, operators, symbols
  // ---------------------------------------------------------------------------

  /** White space leaves nothing. */
  lemma SpaceDropped(c: Unit, rest: Text, start: nat, python: bool, keywords: set<Text>)
    requires IsSpace(c)
    ensures Scan([c] + rest, start, python, keywords) == Scan(rest, start + 1, python, keywords)
  {
    hide MatchLen, Scan;
    var s := [c] + rest;
    ScanUnfold(s, start, python, keywords);
    assert s[1..] == rest;
  }

  lemma {:induction false} WordLenOf(word: Text, rest: Text)
    requires (forall i :: 0 <= i < |word| ==> IsWordUnit(word[i])) && (rest == [] || !IsWordUnit(rest[0]))
    ensures WordLen(word + rest) == |word|
  {
    var s := word + rest;
    if word == [] {
      assert s == rest;
    } else {
      assert s[1..] == word[1..] + rest;
      WordLenOf(word[1..], rest);
    }
  }

  /** An identifier or keyword is one token, of the longest run of word units: ID, or the keyword itself. */
  lemma WordIsOneToken(word: Text, rest: Text, start: nat, python: bool, keywords: set<Text>)
    requires word != [] && IsWordStart(word[0]) && forall i :: 0 <= i < |word| ==> IsWordUnit(word[i])
    requires rest == [] || !IsWordUnit(rest[0])
    ensures Scan(word + rest, start, python, keywords) ==
            [Token(if word in keywords then word else ID, start, start + |word|)] +
            Scan(rest, start + |word|, python, keywords)
  {
    hide Scan, WordLen;
    assert (word + rest)[0] == word[0];
    WordLenOf(word, rest);
    ScanOver(word, rest, start, python, keywords);
  }

  lemma {:induction false} DigitsLenOf(digits: Text, rest: Text)
    requires (forall i :: 0 <= i < |digits| ==> IsDigit(digits[i])) && (rest == [] || !IsDigit(rest[0]))
    ensures DigitsLen(digits + rest) == |digits|
  {
    var s := digits + rest;
    if digits == [] {
      assert s == rest;
    } else {
      assert s[1..] == digits[1..] + rest;
      DigitsLenOf(digits[1..], rest);
    }
  }

  /** Digits, and perhaps a point and further digits. */
  predicate IsNumeral(digits: Text, fraction: Text) {
    digits != [] && (forall i :: 0 <= i < |digits| ==> IsDigit(digits[i])) &&
    (fraction == [] || (fraction[0] == DOT && forall i :: 1 <= i < |fraction| ==> IsDigit(fraction[i])))
  }

  /** A number is one NUM, whatever its digits. */
  lemma NumberIsOneToken(digits: Text, fraction: Text, rest: Text, start: nat, python: bool, keywords: set<Text>)
    requires IsNumeral(digits, fraction) && (rest == [] || (!IsDigit(rest[0]) && (fraction == [] ==> rest[0] != DOT)))
    ensures var raw := digits + fraction;
            Scan(raw + rest, start, python, keywords) ==
            [Token(NUM, start, start + |raw|)] + Scan(rest, start + |raw|, python, keywords)
  {
    hide Scan, MatchLen, NumberLen;
    var raw := digits + fraction;
    assert raw[0] == digits[0] && (raw + rest)[0] == digits[0] && IsDigit(raw[0]);
    assert raw + rest == digits + (fraction + rest);
    NumberLenOf(digits, fraction, rest);
    DigitMatches(raw + rest, python);
    ScanOver(raw, rest, start, python, keywords);
  }

  lemma DigitMatches(s: Text, python: bool)
    requires s != [] && IsDigit(s[0])
    ensures MatchLen(s, python) == NumberLen(s)
  {
    assert DigitsLen(s) == 1 + DigitsLen(s[1..]);
    hide DigitsLen;
  }

  lemma NumberLenOf(digits: Text, fraction: Text, rest: Text)
    requires IsNumeral(digits, fraction) && (rest == [] || (!IsDigit(rest[0]) && (fraction == [] ==> rest[0] != DOT)))
    ensures NumberLen(digits + (fraction + rest)) == |digits| + |fraction|
  {
    var s := digits + (fraction + rest);
    DigitsLenOf(digits, fraction + rest);
    if fraction == [] {
      assert fraction + rest == rest;
      assert |digits| < |s| ==> s[|digits|] == rest[0];
    } else {
      assert s[|digits|] == fraction[0];
      assert s[|digits| + 1..] == fraction[1..] + rest;
      DigitsLenOf(fraction[1..], rest);
    }
  }

  const PYTHON_OPERATORS: set<string> := {"==", "!=", "<=", ">=", "**", "//"}

  const C_STYLE_OPERATORS: set<string> := {
    "==", "!=", "<=", ">=", "&&", "||", "->", "::", "++", "--", "+=", "-=", "*=", "/=", "%=", "<<", ">>"
  }

  /** The operators of two units that each pattern knows. */
  lemma OperatorsListed(o: string, python: bool)
    requires |o| == 2 && o[0] as int < 128 && o[1] as int < 128
    ensures IsOperator(Units(o)[0], Units(o)[1], python) <==>
            o in if python then PYTHON_OPERATORS else C_STYLE_OPERATORS
  {
    assert o == [o[0], o[1]];
  }

  /** An operator of two units is one token, kept as it is; Python's `//` alone is dropped. */
  lemma OperatorIsOneToken(c: Unit, d: Unit, rest: Text, start: nat, python: bool, keywords: set<Text>)
    requires IsOperator(c, d, python)
    ensures Scan([c, d] + rest, start, python, keywords) ==
            (if python && [c, d] == LINE_COMMENT then [] else [Token([c, d], start, start + 2)]) +
            Scan(rest, start + 2, python, keywords)
  {
    hide Scan, WordLen, NumberLen;
    var s := [c, d] + rest;
    assert s[0] == c && s[1] == d && s[..2] == [c, d];
    OperatorUnits(c, d, python);
    assert MatchLen(s, python) == 2;
    ScanOver([c, d], rest, start, python, keywords);
  }

  lemma OperatorUnits(c: Unit, d: Unit, python: bool)
    requires IsOperator(c, d, python)
    ensures c != HASH && c != DOUBLE_QUOTE && c != SINGLE_QUOTE && !IsDigit(c) && !IsWordStart(c) && !IsSpace(c)
    ensures [c, d] != COMMENT_OPEN && ([c, d] == LINE_COMMENT ==> python)
  {
  }

  /** A string in one kind of quotes, escapes included, is one STR. */
  lemma StringIsOneToken(q: Unit, body: Text, rest: Text, start: nat, python: bool, keywords: set<Text>)
    requires (q == DOUBLE_QUOTE || q == SINGLE_QUOTE) && IsQuotable(body, q)
    requires !python || body != [] || rest == [] || rest[0] != q
    ensures var raw := [q] + body + [q];
            Scan(raw + rest, start, python, keywords) ==
            [Token(STR, start, start + |raw|)] + Scan(rest, start + |raw|, python, keywords)
  {
    hide Scan, QuotedBody;
    var raw := [q] + body + [q];
    var s := raw + rest;
    assert s[0] == q && raw[0] == q;
    QuotedBodyOf(body, q, rest);
    assert s[1..] == body + [q] + rest;
    NotTriple(q, body, rest, python);
    ScanOver(raw, rest, start, python, keywords);
  }

  /** Units other than the quote, line feeds and lone backslashes; escaped units that end no line. */
  predicate IsQuotable(body: Text, q: Unit) {
    body == [] ||
    (if body[0] == BACKSLASH then |body| >= 2 && !IsLineTerminator(body[1]) && IsQuotable(body[2..], q)
     else body[0] != q && body[0] != LF && IsQuotable(body[1..], q))
  }

  lemma {:induction false} QuotedBodyOf(body: Text, q: Unit, rest: Text)
    requires IsQuotable(body, q) && q != BACKSLASH
    ensures QuotedBody(body + [q] + rest, q) == |body| + 1
    decreases |body|
  {
    var s := body + [q] + rest;
    if body == [] {
      assert s[0] == q;
    } else if body[0] == BACKSLASH {
      assert s[0] == body[0] && s[1] == body[1] && s[2..] == body[2..] + [q] + rest;
      QuotedBodyOf(body[2..], q, rest);
    } else {
      assert s[0] == body[0] && s[1..] == body[1..] + [q] + rest;
      QuotedBodyOf(body[1..], q, rest);
    }
  }

  lemma NotTriple(q: Unit, body: Text, rest: Text, python: bool)
    requires (q == DOUBLE_QUOTE || q == SINGLE_QUOTE) && IsQuotable(body, q)
    requires !python || body != [] || rest == [] || rest[0] != q
    ensures TripleLen([q] + body + [q] + rest, python) == 0
  {
    var s := [q] + body + [q] + rest;
    if python {
      assert s[0] == q;
      if body != [] {
        assert s[1] == body[0] != q;
      } else if rest != [] {
        assert s[2] == rest[0];
      }
    }
  }

  /** Any other unit is a token by itself, unless it begins an operator or a comment with the next. */
  lemma SymbolIsOneToken(c: Unit, rest: Text, start: nat, python: bool, keywords: set<Text>)
    requires !IsSpace(c) && !IsDigit(c) && !IsWordStart(c) && c != HASH && c != DOUBLE_QUOTE && c != SINGLE_QUOTE
    requires rest == [] || (!IsOperator(c, rest[0], python) && (c == SLASH ==> rest[0] != SLASH && rest[0] != STAR))
    ensures Scan([c] + rest, start, python, keywords) ==
            [Token([c], start, start + 1)] + Scan(rest, start + 1, python, keywords)
  {
    hide Scan, WordLen;
    var s := [c] + rest;
    assert s[0] == c && (rest != [] ==> s[1] == rest[0]);
    assert MatchLen(s, python) == 1;
    ScanOver([c], rest, start, python, keywords);
  }
}
