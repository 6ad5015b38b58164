/**
 * The canonical form in which program output is compared: line endings folded, trailing blanks and
 * trailing empty lines dropped.
 */
module Normalizing {
  import opened Text

  /** Every CR LF becomes LF. */
  function FoldBreaks(t: Text): Text {
    if t == [] then []
    else if |t| >= 2 && t[0] == CR && t[1] == LF then [LF] + FoldBreaks(t[2..])
    else [t[0]] + FoldBreaks(t[1..])
  }

  predicate IsBreak(c: Unit) {
    c == LF
  }

  predicate IsBlank(c: Unit) {
    c == SPACE || c == TAB
  }

  /** The pieces between separators; one more than there are separators. */
  function Split(t: Text, separates: Unit -> bool): (pieces: seq<Text>)
    ensures |pieces| >= 1
  {
    if t == [] then [[]]
    else
      var front, c := Split(t[..|t| - 1], separates), t[|t| - 1];
      if separates(c) then front + [[]] else front[..|front| - 1] + [front[|front| - 1] + [c]]
  }

  function Join(lines: seq<Text>): Text {
    if lines == [] then []
    else if |lines| == 1 then lines[0]
    else Join(lines[..|lines| - 1]) + [LF] + lines[|lines| - 1]
  }

  function StripEnd(t: Text, drops: Unit -> bool): Text {
    if t != [] && drops(t[|t| - 1]) then StripEnd(t[..|t| - 1], drops) else t
  }

  function StripAll(lines: seq<Text>): (r: seq<Text>)
    ensures |r| == |lines| && forall i :: 0 <= i < |lines| ==> r[i] == StripEnd(lines[i], IsBlank)
  {
    seq(|lines|, i requires 0 <= i < |lines| => StripEnd(lines[i], IsBlank))
  }

  function Normalize(t: Text): Text {
    StripEnd(Join(StripAll(Split(FoldBreaks(t), IsBreak))), IsBreak)
  }

  // ---------------------------------------------------------------------------
  // Splitting and joining are inverse on lines
  // ---------------------------------------------------------------------------

  /** No line contains a line feed. */
  ghost predicate Clean(lines: seq<Text>) {
    forall i :: 0 <= i < |lines| ==> LF !in lines[i]
  }

  /** What one more unit does to the pieces. */
  function Grown(pieces: seq<Text>, c: Unit, separates: Unit -> bool): seq<Text>
    requires pieces != []
  {
    if separates(c) then pieces + [[]] else pieces[..|pieces| - 1] + [pieces[|pieces| - 1] + [c]]
  }

  lemma SplitSnoc(t: Text, c: Unit, p: Unit -> bool)
    ensures Split(t + [c], p) == Grown(Split(t, p), c, p)
  {
  }

  lemma GrownAfter(a: seq<Text>, b: seq<Text>, c: Unit, p: Unit -> bool)
    requires b != []
    ensures Grown(a + b, c, p) == a + Grown(b, c, p)
  {
  }

  lemma {:induction false} SplitAtSeparator(x: Text, c: Unit, y: Text, p: Unit -> bool)
    requires p(c)
    ensures Split(x + [c] + y, p) == Split(x, p) + Split(y, p)
  {
    if y == [] {
      SplitSnoc(x, c, p);
      assert x + [c] + y == x + [c];
    } else {
      hide Split, Grown;
      var y', d := y[..|y| - 1], y[|y| - 1];
      assert x + [c] + y == (x + [c] + y') + [d] && y == y' + [d];
      SplitAtSeparator(x, c, y', p);
      SplitSnoc(x + [c] + y', d, p);
      SplitSnoc(y', d, p);
      GrownAfter(Split(x, p), Split(y', p), d, p);
    }
  }

  lemma {:induction false} SplitClean(t: Text, p: Unit -> bool)
    requires forall i :: 0 <= i < |t| ==> !p(t[i])
    ensures Split(t, p) == [t]
  {
    if t == [] {
    } else {
      SplitClean(t[..|t| - 1], p);
      assert t == t[..|t| - 1] + [t[|t| - 1]];
    }
  }

  lemma {:induction false} SplitIsClean(t: Text)
    ensures Clean(Split(t, IsBreak))
  {
    if t == [] {
    } else {
      SplitIsClean(t[..|t| - 1]);
    }
  }

  lemma {:induction false} SplitJoin(lines: seq<Text>)
    requires lines != [] && Clean(lines)
    ensures Split(Join(lines), IsBreak) == lines
  {
    var front, last := lines[..|lines| - 1], lines[|lines| - 1];
    SplitClean(last, IsBreak);
    if |lines| == 1 {
      assert lines == [last];
    } else {
      SplitJoin(front);
      SplitAtSeparator(Join(front), LF, last, IsBreak);
      assert lines == front + [last];
    }
  }

  lemma JoinSnoc(lines: seq<Text>, last: Text)
    requires lines != []
    ensures Join(lines + [last]) == Join(lines) + [LF] + last
  {
  }

  lemma {:induction false} JoinSplit(t: Text)
    ensures Join(Split(t, IsBreak)) == t
  {
    if t == [] {
    } else {
      var t', c := t[..|t| - 1], t[|t| - 1];
      var front := Split(t', IsBreak);
      JoinSplit(t');
      assert t == t' + [c];
      if IsBreak(c) {
        JoinSnoc(front, []);
      } else {
        assert front[..|front| - 1] + [front[|front| - 1]] == front;
        JoinGrow(front[..|front| - 1], front[|front| - 1], c);
      }
    }
  }

  lemma JoinGrow(front: seq<Text>, last: Text, c: Unit)
    ensures Join(front + [last + [c]]) == Join(front + [last]) + [c]
  {
  }

  // ---------------------------------------------------------------------------
  // The canonical list of lines
  // ---------------------------------------------------------------------------

  function DropTrailingEmpty(lines: seq<Text>): seq<Text> {
    if lines != [] && lines[|lines| - 1] == [] then DropTrailingEmpty(lines[..|lines| - 1]) else lines
  }

  /** The lines of a text, without trailing blanks on each and without the empty ones at the end. */
  function CanonLines(t: Text): seq<Text> {
    DropTrailingEmpty(StripAll(Split(FoldBreaks(t), IsBreak)))
  }

  lemma {:induction false} StripEndClean(line: Text, p: Unit -> bool)
    ensures StripEnd(line, p) <= line
    ensures StripEnd(line, p) != [] ==> !p(StripEnd(line, p)[|StripEnd(line, p)| - 1])
    ensures |StripEnd(line, p)| == |line| ==> StripEnd(line, p) == line
  {
    if line != [] && p(line[|line| - 1]) {
      StripEndClean(line[..|line| - 1], p);
    }
  }

  lemma StripAllClean(lines: seq<Text>)
    requires Clean(lines)
    ensures Clean(StripAll(lines))
  {
    forall i | 0 <= i < |lines| ensures LF !in StripAll(lines)[i] {
      StripEndClean(lines[i], IsBlank);
    }
  }

  lemma {:induction false} DropClean(lines: seq<Text>)
    ensures DropTrailingEmpty(lines) <= lines
    ensures DropTrailingEmpty(lines) != [] ==> DropTrailingEmpty(lines)[|DropTrailingEmpty(lines)| - 1] != []
  {
    if lines != [] && lines[|lines| - 1] == [] {
      DropClean(lines[..|lines| - 1]);
    }
  }

  lemma {:induction false} StripJoined(lines: seq<Text>)
    requires Clean(lines)
    ensures StripEnd(Join(lines), IsBreak) == Join(DropTrailingEmpty(lines))
  {
    if lines == [] {
    } else {
      var front, last := lines[..|lines| - 1], lines[|lines| - 1];
      StripJoined(front);
      if |lines| > 1 {
        JoinSnoc(front, last);
        assert front + [last] == lines;
        if last == [] {
          assert Join(lines) == Join(front) + [LF];
          assert Join(lines)[..|Join(lines)| - 1] == Join(front);
        } else {
          assert Join(lines)[|Join(lines)| - 1] == last[|last| - 1];
        }
      } else if last != [] {
        assert last[|last| - 1] in last;
      }
    }
  }

  /** Normalising joins the canonical lines, and they can be read back from the result. */
  lemma NormalizeIsCanonical(t: Text)
    ensures Normalize(t) == Join(CanonLines(t))
    ensures Clean(CanonLines(t))
    ensures CanonLines(t) == DropTrailingEmpty(Split(Normalize(t), IsBreak))
  {
    hide FoldBreaks, StripEnd, Split, Join, DropTrailingEmpty;
    var split := Split(FoldBreaks(t), IsBreak);
    var lines := StripAll(split);
    SplitIsClean(FoldBreaks(t));
    StripAllClean(split);
    StripJoined(lines);
    DropClean(lines);
    DropTwice(lines);
    if CanonLines(t) == [] {
      EmptyReadsBack();
    } else {
      SplitJoin(CanonLines(t));
    }
  }

  lemma EmptyReadsBack()
    ensures DropTrailingEmpty(Split(Join([]), IsBreak)) == []
  {
  }

  lemma {:induction false} DropTwice(lines: seq<Text>)
    ensures DropTrailingEmpty(DropTrailingEmpty(lines)) == DropTrailingEmpty(lines)
  {
    DropClean(lines);
  }

  /**
   * Two outputs are the same after normalisation exactly when their lines agree once line endings
   * are folded, trailing blanks stripped from every line and trailing empty lines dropped.
   */
  lemma SameWhenLinesAgree(a: Text, b: Text)
    ensures Normalize(a) == Normalize(b) <==> CanonLines(a) == CanonLines(b)
  {
    hide Normalize, CanonLines;
    NormalizeIsCanonical(a);
    NormalizeIsCanonical(b);
  }

  // ---------------------------------------------------------------------------
  // When normalising twice is normalising once
  // ---------------------------------------------------------------------------

  predicate HasCrLf(t: Text) {
    exists i :: 0 <= i < |t| - 1 && t[i] == CR && t[i + 1] == LF
  }

  lemma {:induction false} FoldShortens(t: Text)
    ensures |FoldBreaks(t)| <= |t|
    ensures HasCrLf(t) ==> |FoldBreaks(t)| < |t|
    ensures !HasCrLf(t) ==> FoldBreaks(t) == t
  {
    if t == [] {
    } else if |t| >= 2 && t[0] == CR && t[1] == LF {
      FoldShortens(t[2..]);
    } else {
      FoldShortens(t[1..]);
      HasCrLfTail(t);
      assert t == [t[0]] + t[1..];
    }
  }

  lemma HasCrLfTail(t: Text)
    requires t != [] && !(|t| >= 2 && t[0] == CR && t[1] == LF)
    ensures HasCrLf(t) <==> HasCrLf(t[1..])
  {
  }

  predicate EndsInCr(line: Text) {
    line != [] && line[|line| - 1] == CR
  }

  /** Some line but the last one ends in a carriage return. */
  predicate BareCrBeforeBreak(lines: seq<Text>) {
    exists i :: 0 <= i < |lines| - 1 && EndsInCr(lines[i])
  }

  lemma {:induction false} JoinEndsInCr(lines: seq<Text>)
    requires lines != []
    ensures EndsInCr(Join(lines)) <==> EndsInCr(lines[|lines| - 1])
  {
  }

  lemma CrLfAround(x: Text, y: Text)
    requires LF !in y
    ensures HasCrLf(x + [LF] + y) <==> HasCrLf(x) || EndsInCr(x)
  {
    var t := x + [LF] + y;
    forall j | |x| < j < |t| ensures t[j] != LF {
      assert t[j] == y[j - |x| - 1];
    }
    if HasCrLf(t) {
      var i :| 0 <= i < |t| - 1 && t[i] == CR && t[i + 1] == LF;
      if i + 1 < |x| {
        assert x[i] == CR && x[i + 1] == LF;
      }
    }
    if HasCrLf(x) {
      var i :| 0 <= i < |x| - 1 && x[i] == CR && x[i + 1] == LF;
      assert t[i] == CR && t[i + 1] == LF;
    }
    if EndsInCr(x) {
      assert t[|x| - 1] == CR && t[|x|] == LF;
    }
  }

  lemma CrLfNeedsLf(t: Text)
    ensures HasCrLf(t) ==> LF in t
  {
  }

  lemma {:induction false} JoinHasCrLf(lines: seq<Text>)
    requires Clean(lines)
    ensures HasCrLf(Join(lines)) <==> BareCrBeforeBreak(lines)
  {
    if |lines| <= 1 {
      CrLfNeedsLf(Join(lines));
    } else {
      hide HasCrLf, EndsInCr;
      var front, last := lines[..|lines| - 1], lines[|lines| - 1];
      JoinHasCrLf(front);
      JoinEndsInCr(front);
      CrLfAround(Join(front), last);
      assert BareCrBeforeBreak(lines) <==> BareCrBeforeBreak(front) || EndsInCr(front[|front| - 1]) by {
        if BareCrBeforeBreak(front) {
          var i :| 0 <= i < |front| - 1 && EndsInCr(front[i]);
          assert lines[i] == front[i];
        }
        assert lines[|front| - 1] == front[|front| - 1];
        assert forall i :: 0 <= i < |front| ==> lines[i] == front[i];
      }
    }
  }

  lemma {:induction false} StripAllShortens(lines: seq<Text>)
    ensures |Join(StripAll(lines))| <= |Join(lines)|
  {
    if lines == [] {
    } else {
      var front, last := lines[..|lines| - 1], lines[|lines| - 1];
      StripAllShortens(front);
      StripEndClean(last, IsBlank);
      assert StripAll(lines)[..|lines| - 1] == StripAll(front);
    }
  }

  lemma NormalizeShortens(t: Text)
    ensures |Normalize(t)| <= |FoldBreaks(t)|
  {
    hide FoldBreaks, Split, Join, StripEnd;
    var folded := FoldBreaks(t);
    JoinSplit(folded);
    StripAllShortens(Split(folded, IsBreak));
    StripEndClean(Join(StripAll(Split(folded, IsBreak))), IsBreak);
  }

  lemma StripAllAgain(lines: seq<Text>)
    requires forall i :: 0 <= i < |lines| ==> StripEnd(lines[i], IsBlank) == lines[i]
    ensures StripAll(lines) == lines
  {
  }

  lemma CanonStripped(t: Text)
    ensures forall i :: 0 <= i < |CanonLines(t)| ==> StripEnd(CanonLines(t)[i], IsBlank) == CanonLines(t)[i]
  {
    hide FoldBreaks, Split, DropTrailingEmpty;
    var split := Split(FoldBreaks(t), IsBreak);
    DropClean(StripAll(split));
    forall i | 0 <= i < |CanonLines(t)| ensures StripEnd(CanonLines(t)[i], IsBlank) == CanonLines(t)[i] {
      assert CanonLines(t)[i] == StripEnd(split[i], IsBlank);
      StripEndClean(split[i], IsBlank);
    }
  }

  /** A text whose canonical lines keep no carriage return before a break is a fixed point. */
  lemma CanonicalFixed(t: Text)
    requires !BareCrBeforeBreak(CanonLines(t))
    ensures Normalize(Normalize(t)) == Normalize(t)
  {
    hide CanonLines, FoldBreaks, Split, Join, StripEnd, BareCrBeforeBreak, HasCrLf;
    var n, lines := Normalize(t), CanonLines(t);
    NormalizeIsCanonical(t);
    JoinHasCrLf(lines);
    FoldShortens(n);
    CanonStripped(t);
    StripAllAgain(lines);
    if lines == [] {
      EmptyNormalizes();
    } else {
      SplitJoin(lines);
      FixedEnd(t);
    }
  }

  lemma EmptyNormalizes()
    ensures Join([]) == [] && Normalize([]) == []
  {
  }

  lemma FixedEnd(t: Text)
    ensures StripEnd(Normalize(t), IsBreak) == Normalize(t)
  {
    StripEndClean(Join(StripAll(Split(FoldBreaks(t), IsBreak))), IsBreak);
  }

  /**
   * Normalising is idempotent on a text exactly when none of its canonical lines but the last ends
   * in a carriage return, as happens for CR CR LF followed by more text.
   */
  lemma IdempotentExactlyWhen(t: Text)
    ensures Normalize(Normalize(t)) == Normalize(t) <==> !BareCrBeforeBreak(CanonLines(t))
  {
    hide Normalize, CanonLines, HasCrLf, BareCrBeforeBreak;
    var n := Normalize(t);
    NormalizeIsCanonical(t);
    JoinHasCrLf(CanonLines(t));
    FoldShortens(n);
    NormalizeShortens(n);
    if !BareCrBeforeBreak(CanonLines(t)) {
      CanonicalFixed(t);
    }
  }

  /** Every carriage return is half of a CR LF. */
  predicate OnlyCrLf(t: Text) {
    forall i :: 0 <= i < |t| && t[i] == CR ==> i + 1 < |t| && t[i + 1] == LF
  }

  lemma {:induction false} FoldRemovesCr(t: Text)
    requires OnlyCrLf(t)
    ensures CR !in FoldBreaks(t)
  {
    if t == [] {
    } else if |t| >= 2 && t[0] == CR && t[1] == LF {
      assert forall i :: 0 <= i < |t| - 2 ==> t[2..][i] == t[i + 2];
      FoldRemovesCr(t[2..]);
    } else {
      assert forall i :: 0 <= i < |t| - 1 ==> t[1..][i] == t[i + 1];
      FoldRemovesCr(t[1..]);
    }
  }

  lemma {:induction false} SplitInherits(t: Text, c: Unit)
    requires c !in t
    ensures forall i :: 0 <= i < |Split(t, IsBreak)| ==> c !in Split(t, IsBreak)[i]
  {
    if t == [] {
    } else {
      SplitInherits(t[..|t| - 1], c);
    }
  }

  /** In particular it is idempotent on output with ordinary line endings. */
  lemma IdempotentOnCrLf(t: Text)
    requires OnlyCrLf(t)
    ensures Normalize(Normalize(t)) == Normalize(t)
  {
    hide Normalize, FoldBreaks, Split, StripEnd, DropTrailingEmpty, OnlyCrLf;
    FoldRemovesCr(t);
    var folded := FoldBreaks(t);
    var split := Split(folded, IsBreak);
    SplitInherits(folded, CR);
    DropClean(StripAll(split));
    forall i | 0 <= i < |CanonLines(t)| ensures !EndsInCr(CanonLines(t)[i]) {
      assert CanonLines(t)[i] == StripEnd(split[i], IsBlank);
      StripEndClean(split[i], IsBlank);
    }
    IdempotentExactlyWhen(t);
  }

  /** The lines of a text that is two clean lines when its breaks are folded. */
  lemma TwoLines(t: Text, line: Text, last: Text)
    requires FoldBreaks(t) == line + [LF] + last && LF !in line && LF !in last
    requires StripEnd(line, IsBlank) == line && StripEnd(last, IsBlank) == last && last != []
    ensures CanonLines(t) == [line, last]
  {
    hide Split, StripEnd, FoldBreaks;
    SplitClean(line, IsBreak);
    SplitClean(last, IsBreak);
    SplitAtSeparator(line, LF, last, IsBreak);
    assert [line] + [last] == [line, last];
    assert StripAll([line, last]) == [line, last];
  }

  /** A carriage return too many: normalising CR CR LF A leaves a CR LF for the next time. */
  lemma StrayCrNotIdempotent()
    ensures Normalize(Normalize([CR, CR, LF, 65])) != Normalize([CR, CR, LF, 65])
  {
    hide CanonLines, Normalize;
    var t, line, a: Text := [CR, CR, LF, 65], [CR], [65];
    assert t[1..] == [CR, LF, 65] && t[1..][2..] == a && a[1..] == [];
    assert FoldBreaks(t[1..]) == [LF] + a;
    assert FoldBreaks(t) == line + [LF] + a;
    TwoLines(t, line, a);
    assert EndsInCr([line, a][0]);
    IdempotentExactlyWhen(t);
  }

  // ---------------------------------------------------------------------------
  // What normalising ignores, and what it leaves as it is
  // ---------------------------------------------------------------------------

  lemma FoldTwo(y: Text)
    ensures FoldBreaks([CR, LF] + y) == [LF] + FoldBreaks(y)
  {
    assert ([CR, LF] + y)[2..] == y;
  }

  lemma FoldOne(c: Unit, y: Text)
    requires !(c == CR && y != [] && y[0] == LF)
    ensures FoldBreaks([c] + y) == [c] + FoldBreaks(y)
  {
    assert ([c] + y)[1..] == y;
  }

  lemma FoldNothing()
    ensures FoldBreaks([]) == []
  {
  }

  /** Folding goes on after every CR LF as it would have without it. */
  lemma {:induction false} FoldAtCrLf(x: Text, y: Text)
    ensures FoldBreaks(x + [CR, LF] + y) == FoldBreaks(x) + [LF] + FoldBreaks(y)
  {
    hide FoldBreaks;
    FoldNothing();
    if x == [] {
      assert x + [CR, LF] + y == [CR, LF] + y;
      FoldTwo(y);
    } else if |x| >= 2 && x[0] == CR && x[1] == LF {
      var rest := x[2..];
      assert x == [CR, LF] + rest && x + [CR, LF] + y == [CR, LF] + (rest + [CR, LF] + y);
      FoldAtCrLf(rest, y);
      FoldTwo(rest);
      FoldTwo(rest + [CR, LF] + y);
    } else {
      var c, rest := x[0], x[1..];
      assert x == [c] + rest && x + [CR, LF] + y == [c] + (rest + [CR, LF] + y);
      FoldAtCrLf(rest, y);
      FoldOne(c, rest);
      FoldOne(c, rest + [CR, LF] + y);
    }
  }

  lemma {:induction false} FoldConcat(x: Text, y: Text)
    requires !(EndsInCr(x) && y != [] && y[0] == LF)
    ensures FoldBreaks(x + y) == FoldBreaks(x) + FoldBreaks(y)
  {
    hide FoldBreaks;
    FoldNothing();
    if x == [] {
      assert x + y == y;
    } else if |x| >= 2 && x[0] == CR && x[1] == LF {
      var rest := x[2..];
      assert x == [CR, LF] + rest && x + y == [CR, LF] + (rest + y);
      FoldConcat(rest, y);
      FoldTwo(rest);
      FoldTwo(rest + y);
    } else {
      var c, rest := x[0], x[1..];
      assert x == [c] + rest && x + y == [c] + (rest + y);
      FoldConcat(rest, y);
      FoldOne(c, rest);
      FoldOne(c, rest + y);
    }
  }

  lemma FoldUnit(c: Unit)
    ensures FoldBreaks([c]) == [c]
  {
    assert [c][1..] == [];
  }

  lemma FoldFront(y: Text)
    requires y != [] && y[0] == LF
    ensures FoldBreaks(y) == [LF] + FoldBreaks(y[1..])
  {
  }

  /** A CR LF counts as LF. */
  lemma CrLfIsLf(x: Text, y: Text)
    requires !EndsInCr(x)
    ensures Normalize(x + [CR, LF] + y) == Normalize(x + [LF] + y)
  {
    hide FoldBreaks;
    FoldAtCrLf(x, y);
    assert x + [LF] + y == x + ([LF] + y);
    FoldConcat(x, [LF] + y);
    FoldFront([LF] + y);
    assert ([LF] + y)[1..] == y;
    assert FoldBreaks(x) + [LF] + FoldBreaks(y) == FoldBreaks(x) + ([LF] + FoldBreaks(y));
  }

  lemma StripAllConcat(a: seq<Text>, b: seq<Text>)
    ensures StripAll(a + b) == StripAll(a) + StripAll(b)
  {
  }

  /** A blank at the end of the last line changes no stripped line. */
  lemma BlankAtEnd(x: Text, c: Unit)
    requires IsBlank(c)
    ensures StripAll(Split(x + [c], IsBreak)) == StripAll(Split(x, IsBreak))
  {
    hide Split;
    SplitSnoc(x, c, IsBreak);
    var pieces := Split(x, IsBreak);
    var front, last := pieces[..|pieces| - 1], pieces[|pieces| - 1];
    assert pieces == front + [last];
    StripAllConcat(front, [last]);
    StripAllConcat(front, [last + [c]]);
    assert (last + [c])[..|last|] == last;
    assert StripEnd(last + [c], IsBlank) == StripEnd(last, IsBlank);
    assert StripAll([last + [c]]) == [StripEnd(last, IsBlank)] == StripAll([last]);
  }

  /** A blank in front of a line feed, or at the end, is ignored. */
  lemma TrailingBlankIgnored(x: Text, c: Unit, y: Text)
    requires (c == SPACE || c == TAB) && (y == [] || (y[0] == LF && !EndsInCr(x)))
    ensures Normalize(x + [c] + y) == Normalize(x + y)
  {
    hide FoldBreaks, Split, Join, StripEnd;
    FoldConcat(x, y);
    FoldConcat(x + [c], y);
    FoldConcat(x, [c]);
    FoldUnit(c);
    var fx, fy := FoldBreaks(x), FoldBreaks(y);
    assert FoldBreaks(x + [c] + y) == fx + [c] + fy;
    BlankAtEnd(fx, c);
    if y == [] {
      assert x + y == x && x + [c] + y == x + [c];
    } else {
      FoldFront(y);
      var rest := fy[1..];
      assert fx + fy == fx + [LF] + rest && fx + [c] + fy == (fx + [c]) + [LF] + rest;
      SplitAtSeparator(fx, LF, rest, IsBreak);
      SplitAtSeparator(fx + [c], LF, rest, IsBreak);
      StripAllConcat(Split(fx, IsBreak), Split(rest, IsBreak));
      StripAllConcat(Split(fx + [c], IsBreak), Split(rest, IsBreak));
    }
  }

  /** A line feed at the end is ignored. */
  lemma TrailingBreakIgnored(x: Text)
    requires !EndsInCr(x)
    ensures Normalize(x + [LF]) == Normalize(x)
  {
    hide FoldBreaks, Split, Join;
    FoldConcat(x, [LF]);
    FoldUnit(LF);
    var fx := FoldBreaks(x);
    SplitSnoc(fx, LF, IsBreak);
    var lines, none: Text := StripAll(Split(fx, IsBreak)), [];
    StripAllConcat(Split(fx, IsBreak), [none]);
    assert StripAll([none]) == [none];
    JoinSnoc(lines, none);
    assert Join(lines) + [LF] + none == Join(lines) + [LF];
    assert (Join(lines) + [LF])[..|Join(lines)|] == Join(lines);
  }

  predicate EndsInBlank(line: Text) {
    line != [] && line[|line| - 1] in {SPACE, TAB}
  }

  /** A blank right before a line feed. */
  predicate HasBlankBeforeBreak(t: Text) {
    exists i :: 0 <= i < |t| - 1 && t[i] in {SPACE, TAB} && t[i + 1] == LF
  }

  lemma BlankBeforeBreakSnoc(t: Text, c: Unit)
    ensures HasBlankBeforeBreak(t + [c]) <==> HasBlankBeforeBreak(t) || (c == LF && EndsInBlank(t))
  {
    var s := t + [c];
    if i :| 0 <= i < |s| - 1 && s[i] in {SPACE, TAB} && s[i + 1] == LF {
      assert i + 1 < |t| ==> t[i] == s[i] && t[i + 1] == s[i + 1];
    }
    if i :| 0 <= i < |t| - 1 && t[i] in {SPACE, TAB} && t[i + 1] == LF {
      assert s[i] == t[i] && s[i + 1] == t[i + 1];
    }
    if c == LF && EndsInBlank(t) {
      assert s[|t| - 1] == t[|t| - 1] && s[|t|] == LF;
    }
  }

  /** Some line but the last ends in a blank. */
  predicate InnerLineEndsInBlank(lines: seq<Text>) {
    exists i :: 0 <= i < |lines| - 1 && EndsInBlank(lines[i])
  }

  lemma InnerSnoc(front: seq<Text>, last: Text, next: Text)
    ensures InnerLineEndsInBlank(front + [last] + [next]) <==>
            InnerLineEndsInBlank(front + [last]) || EndsInBlank(last)
    ensures InnerLineEndsInBlank(front + [next]) <==> InnerLineEndsInBlank(front + [last])
  {
    var a, b, c := front + [last], front + [last] + [next], front + [next];
    assert forall i :: 0 <= i < |front| ==> a[i] == b[i] == c[i] == front[i];
    assert b[|front|] == last;
  }

  lemma EndsInUnit(line: Text, c: Unit)
    ensures EndsInBlank(line + [c]) <==> c in {SPACE, TAB}
  {
  }

  /** One more unit ends a line, or is put at the end of the last one. */
  lemma GrownEndsInBlank(lines: seq<Text>, c: Unit)
    requires lines != []
    ensures var last, grown := lines[|lines| - 1], Grown(lines, c, IsBreak);
            (InnerLineEndsInBlank(grown) <==> InnerLineEndsInBlank(lines) || (c == LF && EndsInBlank(last))) &&
            (EndsInBlank(grown[|grown| - 1]) <==> c in {SPACE, TAB})
  {
    hide InnerLineEndsInBlank, EndsInBlank;
    var front, last := lines[..|lines| - 1], lines[|lines| - 1];
    assert lines == front + [last];
    if IsBreak(c) {
      InnerSnoc(front, last, []);
      EmptyEndsInNothing();
    } else {
      InnerSnoc(front, last, last + [c]);
      EndsInUnit(last, c);
    }
  }

  lemma EmptyEndsInNothing()
    ensures !EndsInBlank([]) && !HasBlankBeforeBreak([]) && !InnerLineEndsInBlank(Split([], IsBreak))
    ensures Split([], IsBreak)[|Split([], IsBreak)| - 1] == []
  {
  }

  lemma {:induction false} SplitEndsInBlank(t: Text)
    ensures var lines := Split(t, IsBreak);
            (HasBlankBeforeBreak(t) <==> InnerLineEndsInBlank(lines)) &&
            (EndsInBlank(t) <==> EndsInBlank(lines[|lines| - 1]))
  {
    hide Split, HasBlankBeforeBreak, InnerLineEndsInBlank, EndsInBlank, Grown;
    if t == [] {
      EmptyEndsInNothing();
    } else {
      var t', c := t[..|t| - 1], t[|t| - 1];
      assert t == t' + [c];
      SplitEndsInBlank(t');
      SplitSnoc(t', c, IsBreak);
      BlankBeforeBreakSnoc(t', c);
      EndsInUnit(t', c);
      GrownEndsInBlank(Split(t', IsBreak), c);
    }
  }

  /** No CR LF, no blank at the end of a line, no line feed at the end. */
  predicate IsTidy(t: Text) {
    !HasCrLf(t) && !HasBlankBeforeBreak(t) && !EndsInBlank(t) && (t == [] || t[|t| - 1] != LF)
  }

  lemma StripNothing(line: Text)
    ensures StripEnd(line, IsBlank) == line <==> !EndsInBlank(line)
  {
    StripEndClean(line, IsBlank);
  }

  /** Exactly the tidy texts are left as they are. */
  lemma TidyExactlyWhenFixed(t: Text)
    ensures Normalize(t) == t <==> IsTidy(t)
  {
    hide FoldBreaks, Split, Join, HasCrLf, HasBlankBeforeBreak, StripEnd;
    FoldShortens(t);
    NormalizeShortens(t);
    SplitEndsInBlank(t);
    var lines := Split(t, IsBreak);
    JoinSplit(t);
    if IsTidy(t) {
      forall i | 0 <= i < |lines| ensures StripEnd(lines[i], IsBlank) == lines[i] {
        StripNothing(lines[i]);
      }
      StripAllAgain(lines);
      NoBreakToStrip(t);
    } else if Normalize(t) == t {
      FixedIsTidy(t);
    }
  }

  lemma NoBreakToStrip(t: Text)
    requires t == [] || t[|t| - 1] != LF
    ensures StripEnd(t, IsBreak) == t
  {
  }

  lemma FixedIsTidy(t: Text)
    requires Normalize(t) == t
    ensures IsTidy(t)
  {
    hide FoldBreaks, Split, Join, HasCrLf, HasBlankBeforeBreak, StripEnd, DropTrailingEmpty, CanonLines;
    FoldShortens(t);
    NormalizeShortens(t);
    SplitEndsInBlank(t);
    StripEndClean(Join(StripAll(Split(FoldBreaks(t), IsBreak))), IsBreak);
    NormalizeIsCanonical(t);
    CanonStripped(t);
    if CanonLines(t) == [] {
      EmptyNormalizes();
      EmptyIsTidy();
    } else {
      SplitJoin(CanonLines(t));
      var lines := CanonLines(t);
      forall i | 0 <= i < |lines| ensures !EndsInBlank(lines[i]) {
        StripNothing(lines[i]);
      }
    }
  }

  lemma EmptyIsTidy()
    ensures IsTidy([])
  {
  }
}
