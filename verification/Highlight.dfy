/** Matched spans of one document, and the segments the side-by-side view renders from them. */
module Highlight {
  import opened Text
  import opened Keywords
  import opened Sorting
  import opened Tokenizer
  import opened Winnowing

  /** A character range [start, end). */
  datatype Span = Span(start: nat, end: nat)

  ghost predicate Covers(spans: seq<Span>, x: int) {
    exists i :: 0 <= i < |spans| && spans[i].start <= x < spans[i].end
  }

  /** Character `x` alone separates the end of one span from the start of another. */
  ghost predicate SingleGap(spans: seq<Span>, x: int) {
    exists i, j :: 0 <= i < |spans| && 0 <= j < |spans| && spans[i].end == x && spans[j].start == x + 1
  }

  ghost predicate NonEmptyWithin(spans: seq<Span>, n: nat) {
    forall i :: 0 <= i < |spans| ==> spans[i].start < spans[i].end <= n
  }

  /** Increasing, with at least two characters between neighbours. */
  ghost predicate WellSeparated(spans: seq<Span>) {
    forall i, j :: 0 <= i < j < |spans| ==> spans[i].end + 1 < spans[j].start
  }

  function SpanKey(s: Span): real {
    s.start as real
  }

  /** The filter and map steps: the spans of the fingerprints whose hash is shared. */
  function SharedSpans(fingerprints: seq<Gram>, shared: set<int>): seq<Span> {
    if fingerprints == [] then []
    else (if fingerprints[0].hash in shared then [Span(fingerprints[0].start, fingerprints[0].end)] else [])
         + SharedSpans(fingerprints[1..], shared)
  }

  /** Some fingerprint with a shared hash spans `x`, starts at it, or ends at it. */
  ghost predicate IsSharedSpan(fingerprints: seq<Gram>, shared: set<int>, s: Span) {
    exists i :: 0 <= i < |fingerprints| && fingerprints[i].hash in shared
             && fingerprints[i].start == s.start && fingerprints[i].end == s.end
  }

  lemma {:induction false} SharedSpansExact(fingerprints: seq<Gram>, shared: set<int>, s: Span)
    ensures s in SharedSpans(fingerprints, shared) <==> IsSharedSpan(fingerprints, shared, s)
  {
    if fingerprints == [] {
    } else {
      var rest := fingerprints[1..];
      SharedSpansExact(rest, shared, s);
      if IsSharedSpan(rest, shared, s) {
        var i :| 0 <= i < |rest| && rest[i].hash in shared && rest[i].start == s.start && rest[i].end == s.end;
        assert fingerprints[i + 1] == rest[i];
      }
      if IsSharedSpan(fingerprints, shared, s) {
        var i :| 0 <= i < |fingerprints| && fingerprints[i].hash in shared
              && fingerprints[i].start == s.start && fingerprints[i].end == s.end;
        assert i > 0 ==> fingerprints[i] == rest[i - 1];
      }
    }
  }

  ghost predicate StartsAt(spans: seq<Span>, x: int) {
    exists i :: 0 <= i < |spans| && spans[i].start == x
  }

  ghost predicate EndsAt(spans: seq<Span>, x: int) {
    exists i :: 0 <= i < |spans| && spans[i].end == x
  }

  /**
   * What the merging loop has to produce: separated ranges that begin and end where some span
   * does, covering the spans and the single characters between them, and nothing else.
   */
  ghost predicate IsMerge(spans: seq<Span>, merged: seq<Span>, n: nat) {
    NonEmptyWithin(merged, n) && WellSeparated(merged) &&
    (forall i :: 0 <= i < |merged| ==> StartsAt(spans, merged[i].start) && EndsAt(spans, merged[i].end)) &&
    forall x :: Covers(merged, x) <==> Covers(spans, x) || SingleGap(spans, x)
  }

  lemma Append(spans: seq<Span>, s: Span, x: int)
    ensures Covers(spans + [s], x) <==> Covers(spans, x) || s.start <= x < s.end
    ensures StartsAt(spans + [s], x) <==> StartsAt(spans, x) || s.start == x
    ensures EndsAt(spans + [s], x) <==> EndsAt(spans, x) || s.end == x
  {
    var t := spans + [s];
    assert t[|spans|] == s;
    assert forall i :: 0 <= i < |spans| ==> t[i] == spans[i];
  }

  lemma GapByEnds(spans: seq<Span>, x: int)
    ensures SingleGap(spans, x) <==> EndsAt(spans, x) && StartsAt(spans, x + 1)
  {
  }

  /** Whatever ends at `x` has its last character covered. */
  lemma EndCovered(spans: seq<Span>, n: nat, x: int)
    requires NonEmptyWithin(spans, n) && EndsAt(spans, x)
    ensures Covers(spans, x - 1)
  {
  }

  /** The next span leaves a gap of two characters or more: it opens a new range. */
  lemma MergeOpen(spans: seq<Span>, s: Span, merged: seq<Span>, n: nat)
    requires IsMerge(spans, merged, n) && NonEmptyWithin(spans, n)
    requires s.start < s.end <= n
    requires forall i :: 0 <= i < |spans| ==> spans[i].start <= s.start
    requires merged != [] ==> merged[|merged| - 1].end + 1 < s.start
    ensures IsMerge(spans + [s], merged + [s], n)
  {
    hide Covers, SingleGap, StartsAt, EndsAt;
    var spans', merged' := spans + [s], merged + [s];
    forall x ensures Covers(merged', x) <==> Covers(spans', x) || SingleGap(spans', x) {
      OpenCovers(spans, s, merged, n, x);
    }
    forall i | 0 <= i < |merged'| ensures StartsAt(spans', merged'[i].start) && EndsAt(spans', merged'[i].end) {
      Append(spans, s, merged'[i].start);
      Append(spans, s, merged'[i].end);
    }
  }

  lemma OpenCovers(spans: seq<Span>, s: Span, merged: seq<Span>, n: nat, x: int)
    requires IsMerge(spans, merged, n) && NonEmptyWithin(spans, n)
    requires s.start < s.end <= n
    requires forall i :: 0 <= i < |spans| ==> spans[i].start <= s.start
    requires merged != [] ==> merged[|merged| - 1].end + 1 < s.start
    ensures Covers(merged + [s], x) <==> Covers(spans + [s], x) || SingleGap(spans + [s], x)
  {
    Append(spans, s, x);
    Append(merged, s, x);
    Append(spans, s, x + 1);
    GapByEnds(spans, x);
    GapByEnds(spans + [s], x);
    if EndsAt(spans, x) && s.start == x + 1 {
      EndCovered(spans, n, x);
      assert false;
    }
  }

  function Joined(last: Span, s: Span): Span {
    Span(last.start, if last.end >= s.end then last.end else s.end)
  }

  lemma CoversJoined(front: seq<Span>, last: Span, s: Span, x: int)
    requires last.start <= s.start <= last.end + 1 && last.start <= last.end
    ensures Covers(front + [Joined(last, s)], x)
       <==> Covers(front + [last], x) || s.start <= x < s.end || (x == last.end && x < s.end)
  {
    Append(front, last, x);
    Append(front, Joined(last, s), x);
  }

  /** Otherwise it extends the last range. */
  lemma MergeJoin(spans: seq<Span>, s: Span, front: seq<Span>, last: Span, n: nat)
    requires IsMerge(spans, front + [last], n) && NonEmptyWithin(spans, n)
    requires s.start < s.end <= n
    requires forall i :: 0 <= i < |spans| ==> spans[i].start <= s.start
    requires s.start <= last.end + 1
    ensures IsMerge(spans + [s], front + [Joined(last, s)], n)
  {
    var spans', merged, merged' := spans + [s], front + [last], front + [Joined(last, s)];
    assert merged[|front|] == last;
    assert StartsAt(spans, last.start) && EndsAt(spans, last.end);
    assert last.start <= s.start;
    assert forall i :: 0 <= i < |front| ==> merged'[i] == merged[i] == front[i];
    forall x ensures Covers(merged', x) <==> Covers(spans', x) || SingleGap(spans', x) {
      Append(spans, s, x);
      Append(spans, s, x + 1);
      CoversJoined(front, last, s, x);
      GapByEnds(spans, x);
      GapByEnds(spans', x);
      if EndsAt(spans, x) && s.start == x + 1 {
        JoinCoversGap(spans, merged, last, x, n);
      }
    }
    forall i | 0 <= i < |merged'| ensures StartsAt(spans', merged'[i].start) && EndsAt(spans', merged'[i].end) {
      Append(spans, s, merged'[i].start);
      Append(spans, s, merged'[i].end);
    }
  }

  lemma JoinCoversGap(spans: seq<Span>, merged: seq<Span>, last: Span, x: int, n: nat)
    requires IsMerge(spans, merged, n) && NonEmptyWithin(spans, n)
    requires merged != [] && merged[|merged| - 1] == last && last.start <= x + 1
    requires EndsAt(spans, x)
    ensures Covers(merged, x) || x == last.end
  {
    EndCovered(spans, n, x);
    assert Covers(merged, x - 1);
    var m :| 0 <= m < |merged| && merged[m].start <= x - 1 < merged[m].end;
    assert x <= last.end;
    if last.start == x + 1 {
      GapByEnds(spans, x);
    } else if x < last.end {
      assert last.start <= x < last.end;
    }
  }

  /** Adds one span of the sorted list to the merged ranges. */
  function Merge(merged: seq<Span>, s: Span): seq<Span> {
    if merged != [] && s.start <= merged[|merged| - 1].end + 1
    then merged[..|merged| - 1] + [Joined(merged[|merged| - 1], s)]
    else merged + [s]
  }

  lemma MergeStep(spans: seq<Span>, s: Span, merged: seq<Span>, n: nat)
    requires IsMerge(spans, merged, n) && NonEmptyWithin(spans, n)
    requires s.start < s.end <= n
    requires forall i :: 0 <= i < |spans| ==> spans[i].start <= s.start
    ensures IsMerge(spans + [s], Merge(merged, s), n)
  {
    if merged != [] && s.start <= merged[|merged| - 1].end + 1 {
      var front, last := merged[..|merged| - 1], merged[|merged| - 1];
      assert merged == front + [last];
      MergeJoin(spans, s, front, last, n);
    } else {
      MergeOpen(spans, s, merged, n);
    }
  }

  lemma NothingMerged(n: nat)
    ensures IsMerge([], [], n)
  {
  }

  /** In the sorted list, the spans before the next one start no later than it. */
  lemma SortedPrefix(spans: seq<Span>, i: nat, n: nat)
    requires i < |spans| && SortedBy(spans, SpanKey) && NonEmptyWithin(spans, n)
    ensures NonEmptyWithin(spans[..i], n)
    ensures spans[i].start < spans[i].end <= n
    ensures forall j :: 0 <= j < |spans[..i]| ==> spans[..i][j].start <= spans[i].start
  {
    forall j | 0 <= j < i ensures spans[j].start <= spans[i].start {
      assert SpanKey(spans[j]) <= SpanKey(spans[i]);
    }
  }

  method GetMatchedSpans(fingerprints: seq<Gram>, shared: set<int>, ghost n: nat) returns (merged: seq<Span>)
    requires forall i :: 0 <= i < |fingerprints| ==> fingerprints[i].start < fingerprints[i].end <= n
    ensures IsMerge(SharedSpans(fingerprints, shared), merged, n)
  {
    hide IsMerge, Merge, SharedSpans, SortBy, SortedBy;
    var matched := SharedSpans(fingerprints, shared);
    var spans := SortBy(matched, SpanKey);
    SortBySorted(matched, SpanKey);
    SharedSpansWithin(fingerprints, shared, n);
    SameElements(matched, spans, n);
    merged := [];
    NothingMerged(n);
    for i := 0 to |spans|
      invariant IsMerge(spans[..i], merged, n)
    {
      SortedPrefix(spans, i, n);
      MergeStep(spans[..i], spans[i], merged, n);
      assert spans[..i + 1] == spans[..i] + [spans[i]];
      merged := Merge(merged, spans[i]);
    }
    assert spans[..|spans|] == spans;
    SameMerge(matched, spans, merged, n);
  }

  lemma {:induction false} SharedSpansWithin(fingerprints: seq<Gram>, shared: set<int>, n: nat)
    requires forall i :: 0 <= i < |fingerprints| ==> fingerprints[i].start < fingerprints[i].end <= n
    ensures NonEmptyWithin(SharedSpans(fingerprints, shared), n)
  {
    if fingerprints == [] {
    } else {
      SharedSpansWithin(fingerprints[1..], shared, n);
    }
  }

  lemma SameElements(a: seq<Span>, b: seq<Span>, n: nat)
    requires multiset(a) == multiset(b) && NonEmptyWithin(a, n)
    ensures NonEmptyWithin(b, n)
  {
    forall i | 0 <= i < |b| ensures b[i].start < b[i].end <= n {
      assert b[i] in multiset(b);
      assert b[i] in a;
    }
  }

  /** The order of the spans does not matter to what a merge of them is. */
  lemma SameMerge(a: seq<Span>, b: seq<Span>, merged: seq<Span>, n: nat)
    requires multiset(a) == multiset(b) && IsMerge(b, merged, n)
    ensures IsMerge(a, merged, n)
  {
    forall x
      ensures Covers(a, x) <==> Covers(b, x)
      ensures StartsAt(a, x) <==> StartsAt(b, x)
      ensures EndsAt(a, x) <==> EndsAt(b, x)
    {
      SameTouches(a, b, x);
      SameTouches(b, a, x);
    }
    forall x ensures SingleGap(a, x) <==> SingleGap(b, x) {
      GapByEnds(a, x);
      GapByEnds(b, x);
    }
  }

  lemma SameTouches(a: seq<Span>, b: seq<Span>, x: int)
    requires multiset(a) == multiset(b)
    ensures Covers(a, x) ==> Covers(b, x)
    ensures StartsAt(a, x) ==> StartsAt(b, x)
    ensures EndsAt(a, x) ==> EndsAt(b, x)
  {
    forall i | 0 <= i < |a| ensures a[i] in b {
      assert a[i] in multiset(a);
    }
  }

  /** Every fingerprint of a source text spans a non-empty range of it. */
  lemma FingerprintsWithin(code: Text, language: Language, k: nat, w: nat)
    requires k >= 1
    ensures forall i :: 0 <= i < |Fingerprints(Tokens(code, language), k, w)| ==>
              var f := Fingerprints(Tokens(code, language), k, w)[i];
              f.start < f.end <= |code|
  {
    hide Tokens, Scan;
    var tokens := Tokens(code, language);
    TokensInSource(code, language);
    var grams := Grams(tokens, k);
    forall j | 0 <= j < |grams| ensures grams[j].start < grams[j].end <= |code| {
      assert tokens[j].start < tokens[j].end;
      assert tokens[j + k - 1].end <= |code|;
    }
    ChosenFromGrams(grams, w, |grams|);
    var fingerprints := Fingerprints(tokens, k, w);
    forall i | 0 <= i < |fingerprints| ensures fingerprints[i].start < fingerprints[i].end <= |code| {
      assert fingerprints[i] in fingerprints;
      assert fingerprints[i] in grams;
    }
  }

  /** Gram `i` spans its `k` tokens and no other, from where one of them begins to where one ends. */
  lemma GramSpans(tokens: seq<Token>, k: nat, i: nat, lo: nat, hi: nat)
    requires k >= 1 && i + k <= |tokens| && WellSpanned(tokens, lo, hi)
    ensures var g := Grams(tokens, k)[i];
            g.index == i &&
            (forall j :: 0 <= j < |tokens| ==>
              (g.start <= tokens[j].start && tokens[j].end <= g.end <==> i <= j < i + k)) &&
            (exists j :: 0 <= j < |tokens| && tokens[j].start == g.start) &&
            (exists j :: 0 <= j < |tokens| && tokens[j].end == g.end)
  {
    hide Hash, Winnowing.Joined;
    var g := Grams(tokens, k)[i];
    assert g.start == tokens[i].start && g.end == tokens[i + k - 1].end;
    forall j | 0 <= j < |tokens|
      ensures g.start <= tokens[j].start && tokens[j].end <= g.end <==> i <= j < i + k
    {
      assert tokens[j].start < tokens[j].end;
    }
  }

  lemma TokensInSource(code: Text, language: Language)
    ensures WellSpanned(Tokens(code, language), 0, |code|)
  {
    ScanWellSpanned(code, 0, language.Python?, KeywordSetFor(language));
  }

  lemma {:induction false} ChosenFromGrams(grams: seq<Gram>, w: nat, n: nat)
    requires n <= |grams|
    ensures forall f :: f in Chosen(grams, w, n) ==> f in grams
  {
    if n == 0 {
    } else {
      ChosenFromGrams(grams, w, n - 1);
    }
  }

  /** The highlighted ranges of a source text, for whatever set of hashes is shared. */
  method MatchedSpansOf(code: Text, language: Language, fingerprints: seq<Gram>, shared: set<int>)
    returns (merged: seq<Span>)
    requires fingerprints == Fingerprints(Tokens(code, language), K_GRAM_SIZE, WINDOW_SIZE)
    ensures IsMerge(SharedSpans(fingerprints, shared), merged, |code|)
  {
    FingerprintsWithin(code, language, K_GRAM_SIZE, WINDOW_SIZE);
    merged := GetMatchedSpans(fingerprints, shared, |code|);
  }

  // ---------------------------------------------------------------------------
  // HighlightedCode
  // ---------------------------------------------------------------------------

  datatype Segment = Segment(text: Text, matched: bool)

  /** The characters of the segments in order, each with its highlighting. */
  function Rendered(segments: seq<Segment>): seq<(Unit, bool)> {
    if segments == [] then []
    else
      var last := segments[|segments| - 1];
      Rendered(segments[..|segments| - 1]) +
      seq(|last.text|, i requires 0 <= i < |last.text| => (last.text[i], last.matched))
  }

  /** The first `n` characters of `code`, highlighted exactly where the spans say. */
  ghost predicate ShowsFirst(shown: seq<(Unit, bool)>, code: Text, spans: seq<Span>, n: nat) {
    n <= |code| && |shown| == n &&
    forall x :: 0 <= x < n ==> shown[x].0 == code[x] && (shown[x].1 <==> Covers(spans, x))
  }

  lemma ShowNothing(code: Text, spans: seq<Span>)
    ensures ShowsFirst(Rendered([]), code, spans, 0)
  {
  }

  lemma ShowMore(segments: seq<Segment>, code: Text, spans: seq<Span>, lo: nat, hi: nat, matched: bool)
    requires lo <= hi <= |code|
    requires ShowsFirst(Rendered(segments), code, spans, lo)
    requires forall x :: lo <= x < hi ==> (matched <==> Covers(spans, x))
    ensures ShowsFirst(Rendered(segments + [Segment(code[lo..hi], matched)]), code, spans, hi)
  {
  }

  /** The segments put together are the code, highlighted at the matched characters and nowhere else. */
  method HighlightedCode(code: Text, matchedSpans: seq<Span>) returns (segments: seq<Segment>)
    requires NonEmptyWithin(matchedSpans, |code|) && WellSeparated(matchedSpans)
    ensures ShowsFirst(Rendered(segments), code, matchedSpans, |code|)
    ensures forall i :: 0 <= i < |segments| ==> segments[i].text != []
  {
    hide Covers, ShowsFirst, Rendered;
    segments := [];
    var cursor: nat := 0;
    ShowNothing(code, matchedSpans);
    for i := 0 to |matchedSpans|
      invariant cursor == if i == 0 then 0 else matchedSpans[i - 1].end
      invariant ShowsFirst(Rendered(segments), code, matchedSpans, cursor)
      invariant forall j :: 0 <= j < |segments| ==> segments[j].text != []
    {
      var Span(start, end) := matchedSpans[i];
      NotBetween(matchedSpans, |code|, i);
      if start > cursor {
        ShowMore(segments, code, matchedSpans, cursor, start, false);
        segments := segments + [Segment(code[cursor..start], false)];
      }
      ShowMore(segments, code, matchedSpans, start, end, true);
      segments := segments + [Segment(code[start..end], true)];
      cursor := end;
    }
    NotBetween(matchedSpans, |code|, |matchedSpans|);
    if cursor < |code| {
      ShowMore(segments, code, matchedSpans, cursor, |code|, false);
      assert code[cursor..] == code[cursor..|code|];
      segments := segments + [Segment(code[cursor..], false)];
    }
  }

  /** Nothing between two neighbouring spans, or outside the first and the last, is covered. */
  lemma NotBetween(spans: seq<Span>, n: nat, i: nat)
    requires NonEmptyWithin(spans, n) && WellSeparated(spans) && i <= |spans|
    ensures forall x :: (if i == 0 then 0 else spans[i - 1].end) <= x < (if i == |spans| then n else spans[i].start)
              ==> !Covers(spans, x)
    ensures i < |spans| ==> (if i == 0 then 0 else spans[i - 1].end) <= spans[i].start
    ensures i < |spans| ==> forall x :: spans[i].start <= x < spans[i].end ==> Covers(spans, x)
  {
  }
}
