/** `DiffViewerModule` (js/diff-viewer.js): the normalisation and mode
    dispatch of `performDiff`, and the counting fold of `calculateStats`.
    `diff_match_patch` is outside the model: its `diff_main`,
    `diff_cleanupSemantic` and line munger are parameters. */
module DiffViewer {
  import opened Wrappers
  import opened Text
  import opened DiffSegments
  import EditDistance
  import LineTokens
  import TextAnalyzer

  // ---------------------------------------------------------------------
  // Normalisation

  /** Whitespace has been reduced to single spaces. */
  predicate OnlySpaces(s: string) {
    forall k :: 0 <= k < |s| && IsWhitespace(s[k]) ==> s[k] == ' '
  }

  predicate NoDoubleSpace(s: string) {
    forall k :: 0 <= k < |s| - 1 ==> !(s[k] == ' ' && s[k + 1] == ' ')
  }

  /** `s.replace(/\s+/g, ' ')`: every maximal run of whitespace becomes one
      space. */
  function CollapseWhitespace(s: string): (r: string)
    ensures OnlySpaces(r) && NoDoubleSpace(r)
    ensures |r| <= |s|
    ensures r == [] <==> s == []
    ensures r != [] ==> (IsWhitespace(r[0]) <==> IsWhitespace(s[0]))
    decreases |s|
  {
    if |s| == 0 then []
    else if IsWhitespace(s[0]) then
      var n := LeadingWhitespace(s);
      var rest := CollapseWhitespace(s[n..]);
      assert rest != [] ==> !IsWhitespace(rest[0]);
      [' '] + rest
    else
      [s[0]] + CollapseWhitespace(s[1..])
  }

  /** `s.replace(/\s+/g, ' ').trim()`, the ignore-whitespace option. */
  function NormalizeWhitespace(s: string): (r: string)
    ensures OnlySpaces(r) && NoDoubleSpace(r)
    ensures |r| <= |s|
    ensures r == [] || (r[0] != ' ' && r[|r| - 1] != ' ')
  {
    var c := CollapseWhitespace(s);
    SpacesSlice(c, TrimStart(c), TrimEnd(c));
    assert IsWhitespace(' ');
    Trim(c)
  }

  /** A slice of a collapsed text is collapsed. */
  lemma {:induction false} SpacesSlice(c: string, i: nat, j: nat)
    requires i <= j <= |c| && OnlySpaces(c) && NoDoubleSpace(c)
    ensures OnlySpaces(c[i..j]) && NoDoubleSpace(c[i..j])
  {
    var m := c[i..j];
    assert forall k :: 0 <= k < |m| ==> m[k] == c[i + k];
  }

  /** Single spaces only, none doubled: collapsing changes nothing. */
  lemma {:induction false} CollapseOfCollapsed(s: string)
    requires OnlySpaces(s) && NoDoubleSpace(s)
    ensures CollapseWhitespace(s) == s
    decreases |s|
  {
    if |s| > 0 {
      if IsWhitespace(s[0]) {
        assert LeadingWhitespace(s) == 1 by {
          assert |s| == 1 || s[1] != ' ';
        }
      }
      assert OnlySpaces(s[1..]) && NoDoubleSpace(s[1..]) by {
        assert forall k :: 0 <= k < |s| - 1 ==> s[1..][k] == s[k + 1];
      }
      CollapseOfCollapsed(s[1..]);
    }
  }

  /** Normalising whitespace twice is normalising it once. */
  lemma {:induction false} NormalizeWhitespaceIdempotent(s: string)
    ensures NormalizeWhitespace(NormalizeWhitespace(s)) == NormalizeWhitespace(s)
  {
    var r := NormalizeWhitespace(s);
    CollapseOfCollapsed(r);
    TrimOfTrimmed(r);
  }

  /** Text without whitespace passes through collapsing unchanged. */
  lemma {:induction false} CollapsePlainPrefix(a: string, t: string)
    requires NoWhitespace(a)
    ensures CollapseWhitespace(a + t) == a + CollapseWhitespace(t)
    decreases |a|
  {
    if |a| == 0 {
      assert a + t == t;
    } else {
      assert (a + t)[1..] == a[1..] + t;
      CollapsePlainPrefix(a[1..], t);
    }
  }

  /** A whole run of whitespace collapses to one space. */
  lemma {:induction false} CollapseRunPrefix(b: string, c: string)
    requires b != [] && AllWhitespace(b) && (c == [] || !IsWhitespace(c[0]))
    ensures CollapseWhitespace(b + c) == [' '] + CollapseWhitespace(c)
  {
    var s := b + c;
    assert s[..|b|] == b && s[|b|..] == c;
    LeadingWhitespaceAt(s, |b|);
  }

  /** Whitespace only: nothing, or one space. */
  lemma {:induction false} CollapseAllWhitespace(b: string)
    requires AllWhitespace(b)
    ensures CollapseWhitespace(b) == if b == [] then [] else [' ']
  {
    if b != [] {
      CollapseRunPrefix(b, []);
      assert b + [] == b;
    }
  }

  /** `s.replace(/\s+/g, ' ')` is `s.split(/\s+/).join(' ')`: the text
      between the maximal runs of whitespace is kept and each run becomes
      one space. */
  lemma {:induction false} CollapseIsJoin(s: string)
    ensures CollapseWhitespace(s) == Join(SplitWhitespace(s), " ")
    decreases |s|
  {
    var i := FirstWhitespace(s);
    if i == |s| {
      assert s[..i] == s && s + [] == s;
      CollapsePlainPrefix(s, []);
    } else {
      var t := s[i..];
      var n := LeadingWhitespace(t);
      var a, b, c := s[..i], t[..n], t[n..];
      assert c == s[i + n..];
      AppendSlices(s, i);
      AppendSlices(t, n);
      CollapseIsJoin(c);
      SplitWhitespaceUnfold(s, i, n);
      CollapseJoinStep(a, b, c);
    }
  }

  lemma {:induction false} CollapseJoinStep(a: string, b: string, c: string)
    requires NoWhitespace(a) && b != [] && AllWhitespace(b) && (c == [] || !IsWhitespace(c[0]))
    requires CollapseWhitespace(c) == Join(SplitWhitespace(c), " ")
    ensures CollapseWhitespace(a + (b + c)) == Join([a] + SplitWhitespace(c), " ")
  {
    CollapsePlainPrefix(a, b + c);
    CollapseRunPrefix(b, c);
    var p := SplitWhitespace(c);
    assert ([a] + p)[1..] == p;
    AppendAssoc(a, " ", Join(p, " "));
  }

  /** No run of whitespace crosses the seam: collapsing works piecewise. */
  lemma {:induction false} CollapseAppend(x: string, y: string)
    requires x == [] || y == [] || !IsWhitespace(x[|x| - 1]) || !IsWhitespace(y[0])
    ensures CollapseWhitespace(x + y) == CollapseWhitespace(x) + CollapseWhitespace(y)
    decreases |x|, 1
  {
    if |x| == 0 {
      assert x + y == y;
    } else if !IsWhitespace(x[0]) {
      CollapseAppendPlain(x, y);
    } else if LeadingWhitespace(x) < |x| {
      CollapseAppendRun(x, y);
    } else {
      CollapseAppendRunAll(x, y);
    }
  }

  lemma {:induction false} CollapseAppendPlain(x: string, y: string)
    requires x != [] && !IsWhitespace(x[0])
    requires y == [] || !IsWhitespace(x[|x| - 1]) || !IsWhitespace(y[0])
    ensures CollapseWhitespace(x + y) == CollapseWhitespace(x) + CollapseWhitespace(y)
    decreases |x|, 0
  {
    var rest := x[1..];
    AppendSlices(x, 1);
    assert rest == [] || rest[|rest| - 1] == x[|x| - 1];
    CollapseAppend(rest, y);
    CollapseAppendPlainStep(x[..1], rest, y);
  }

  lemma {:induction false} CollapseAppendRun(x: string, y: string)
    requires x != [] && IsWhitespace(x[0]) && LeadingWhitespace(x) < |x|
    requires y == [] || !IsWhitespace(x[|x| - 1]) || !IsWhitespace(y[0])
    ensures CollapseWhitespace(x + y) == CollapseWhitespace(x) + CollapseWhitespace(y)
    decreases |x|, 0
  {
    var n := LeadingWhitespace(x);
    var rest := x[n..];
    AppendSlices(x, n);
    assert rest[|rest| - 1] == x[|x| - 1];
    CollapseAppend(rest, y);
    CollapseAppendRunStep(x[..n], rest, y);
  }

  lemma {:induction false} CollapseAppendPlainStep(a: string, x: string, y: string)
    requires NoWhitespace(a)
    requires CollapseWhitespace(x + y) == CollapseWhitespace(x) + CollapseWhitespace(y)
    ensures CollapseWhitespace(a + x + y) == CollapseWhitespace(a + x) + CollapseWhitespace(y)
  {
    AppendAssoc(a, x, y);
    CollapsePlainPrefix(a, x + y);
    CollapsePlainPrefix(a, x);
    AppendAssoc(a, CollapseWhitespace(x), CollapseWhitespace(y));
  }

  lemma {:induction false} CollapseAppendRunStep(b: string, c: string, y: string)
    requires b != [] && AllWhitespace(b) && c != [] && !IsWhitespace(c[0])
    requires CollapseWhitespace(c + y) == CollapseWhitespace(c) + CollapseWhitespace(y)
    ensures CollapseWhitespace(b + c + y) == CollapseWhitespace(b + c) + CollapseWhitespace(y)
  {
    AppendAssoc(b, c, y);
    CollapseRunPrefix(b, c);
    assert (c + y)[0] == c[0];
    CollapseRunPrefix(b, c + y);
    AppendAssoc([' '], CollapseWhitespace(c), CollapseWhitespace(y));
  }

  lemma {:induction false} CollapseAppendRunAll(x: string, y: string)
    requires x != [] && LeadingWhitespace(x) == |x|
    requires y == [] || !IsWhitespace(y[0])
    ensures CollapseWhitespace(x + y) == CollapseWhitespace(x) + CollapseWhitespace(y)
  {
    assert x[..|x|] == x;
    CollapseRunPrefix(x, y);
    CollapseAllWhitespace(x);
  }

  /** Collapsing keeps a final non-whitespace character. */
  lemma {:induction false} CollapseLast(t: string)
    requires t != [] && !IsWhitespace(t[|t| - 1])
    ensures var c := CollapseWhitespace(t);
            c != [] && c[|c| - 1] == t[|t| - 1]
  {
    var u, x := t[..|t| - 1], [t[|t| - 1]];
    assert t == u + x;
    CollapseAppend(u, x);
    CollapsePlainPrefix(x, []);
    assert x + [] == x;
  }

  /** The ignore-whitespace option gives the pieces of the trimmed text,
      split at the runs of whitespace and joined with single spaces. */
  lemma {:induction false} NormalizeWhitespaceIsJoin(s: string)
    ensures NormalizeWhitespace(s) == Join(SplitWhitespace(Trim(s)), " ")
  {
    TrimCollapse(s);
    CollapseIsJoin(Trim(s));
  }

  /** Trimming after collapsing is collapsing after trimming. */
  lemma {:induction false} TrimCollapse(s: string)
    ensures Trim(CollapseWhitespace(s)) == CollapseWhitespace(Trim(s))
  {
    if Trim(s) == [] {
      TrimCollapseBlank(s);
    } else {
      TrimCollapseText(s);
    }
  }

  lemma {:induction false} TrimCollapseBlank(s: string)
    requires Trim(s) == []
    ensures Trim(CollapseWhitespace(s)) == CollapseWhitespace(Trim(s))
  {
    TrimEmptyIffAllWhitespace(s);
    CollapseAllWhitespace(s);
    CollapseAllWhitespace([]);
    TrimEmptyIffAllWhitespace([' ']);
  }

  lemma {:induction false} TrimCollapseText(s: string)
    requires Trim(s) != []
    ensures Trim(CollapseWhitespace(s)) == CollapseWhitespace(Trim(s))
  {
    TrimParts(s);
    CollapsePadded(s, s[..TrimStart(s)], Trim(s), s[TrimEnd(s)..]);
  }

  /** Ignoring whitespace leaves the words of the text, one space apart. */
  lemma {:induction false} NormalizeWhitespaceIsWords(s: string)
    ensures NormalizeWhitespace(s) == Join(TextAnalyzer.Words(s), " ")
  {
    NormalizeWhitespaceIsJoin(s);
    if AllWhitespace(s) {
      TrimEmptyIffAllWhitespace(s);
      assert SplitWhitespace([]) == [[]];
    }
  }

  /** Collapsing, then trimming, whitespace padding around a trimmed text
      gives the collapsed trimmed text. */
  lemma {:induction false} CollapsePadded(s: string, l: string, t: string, r: string)
    requires s == l + t + r && AllWhitespace(l) && AllWhitespace(r)
    requires t != [] && !IsWhitespace(t[0]) && !IsWhitespace(t[|t| - 1])
    ensures Trim(CollapseWhitespace(s)) == CollapseWhitespace(t)
  {
    CollapseThree(l, t, r);
    var cl, ct, cr := CollapseWhitespace(l), CollapseWhitespace(t), CollapseWhitespace(r);
    CollapseAllWhitespace(l);
    CollapseAllWhitespace(r);
    assert AllWhitespace(cl) && AllWhitespace(cr) by {
      assert IsWhitespace(' ');
    }
    CollapseLast(t);
    TrimPadded(cl, ct, cr);
  }

  lemma {:induction false} CollapseThree(l: string, t: string, r: string)
    requires t != [] && !IsWhitespace(t[0]) && !IsWhitespace(t[|t| - 1])
    ensures CollapseWhitespace(l + t + r)
         == CollapseWhitespace(l) + CollapseWhitespace(t) + CollapseWhitespace(r)
  {
    AppendAssoc(l, t, r);
    assert (t + r)[0] == t[0];
    CollapseAppend(l, t + r);
    CollapseAppend(t, r);
    AppendAssoc(CollapseWhitespace(l), CollapseWhitespace(t), CollapseWhitespace(r));
  }

  /** Whitespace is not a letter: lower-casing leaves it alone. */
  lemma {:induction false} LowerKeepsWhitespace(c: char)
    ensures IsWhitespace(ToLowerChar(c)) <==> IsWhitespace(c)
    ensures IsWhitespace(c) ==> ToLowerChar(c) == c
  {
  }

  lemma {:induction false} LeadingWhitespaceLower(s: string)
    ensures LeadingWhitespace(ToLower(s)) == LeadingWhitespace(s)
  {
    if |s| > 0 {
      LowerKeepsWhitespace(s[0]);
      assert ToLower(s)[1..] == ToLower(s[1..]);
      LeadingWhitespaceLower(s[1..]);
    }
  }

  /** The two options commute: collapsing whitespace before lower-casing,
      as `performDiff` does, gives the same text as the other order. */
  lemma {:induction false} CollapseLowerCommute(s: string)
    ensures CollapseWhitespace(ToLower(s)) == ToLower(CollapseWhitespace(s))
    decreases |s|
  {
    if |s| > 0 {
      var t := ToLower(s);
      LowerKeepsWhitespace(s[0]);
      var n := if IsWhitespace(s[0]) then LeadingWhitespace(s) else 1;
      var head := if IsWhitespace(s[0]) then [' '] else [s[0]];
      assert CollapseWhitespace(s) == head + CollapseWhitespace(s[n..]);
      assert CollapseWhitespace(t) == ToLower(head) + CollapseWhitespace(ToLower(s[n..])) by {
        LeadingWhitespaceLower(s);
        ToLowerDrop(s, n);
      }
      CollapseLowerCommute(s[n..]);
      ToLowerAppend(head, CollapseWhitespace(s[n..]));
    }
  }

  /** A run of `n` spaces and then a letter collapses to one space. */
  lemma {:induction false} CollapseRun(s: string, n: nat)
    requires 0 < n < |s| && !IsWhitespace(s[n])
    requires forall k :: 0 <= k < n ==> s[k] == ' '
    ensures CollapseWhitespace(s) == [' ', s[n]] + CollapseWhitespace(s[n + 1..])
  {
    LeadingWhitespacePrefix(s, n);
    var t := s[n..];
    assert t[0] == s[n] && t[1..] == s[n + 1..];
  }

  lemma {:induction false} LeadingWhitespacePrefix(s: string, n: nat)
    requires n <= |s| && AllWhitespace(s[..n]) && (n < |s| ==> !IsWhitespace(s[n]))
    ensures LeadingWhitespace(s) == n
  {
    if n > 0 {
      assert s[1..][..n - 1] == s[..n][1..];
      LeadingWhitespacePrefix(s[1..], n - 1);
    }
  }

  /** `"  x   y  "` collapses to `" x y "` for any two non-whitespace
      characters `x` and `y`. */
  lemma {:induction false} CollapseExample(x: char, y: char)
    requires !IsWhitespace(x) && !IsWhitespace(y)
    ensures CollapseWhitespace([' ', ' ', x, ' ', ' ', ' ', y, ' ', ' ']) == [' ', x, ' ', y, ' ']
  {
    CollapseExampleHead(x, y);
    CollapseExampleTail(y);
    assert [' ', x] + ([' ', y] + [' ']) == [' ', x, ' ', y, ' '];
  }

  lemma {:induction false} CollapseExampleHead(x: char, y: char)
    requires !IsWhitespace(x)
    ensures CollapseWhitespace([' ', ' ', x, ' ', ' ', ' ', y, ' ', ' ']) == [' ', x] + CollapseWhitespace([' ', ' ', ' ', y, ' ', ' '])
  {
    var s := [' ', ' ', x, ' ', ' ', ' ', y, ' ', ' '];
    CollapseRun(s, 2);
    assert s[3..] == [' ', ' ', ' ', y, ' ', ' '];
  }

  lemma {:induction false} CollapseExampleTail(y: char)
    requires !IsWhitespace(y)
    ensures CollapseWhitespace([' ', ' ', ' ', y, ' ', ' ']) == [' ', y] + [' ']
  {
    var t := [' ', ' ', ' ', y, ' ', ' '];
    CollapseRun(t, 3);
    assert t[4..] == [' ', ' '];
    assert CollapseWhitespace([' ', ' ']) == [' '] by {
      LeadingWhitespacePrefix([' ', ' '], 2);
    }
  }

  lemma {:induction false} TrimExample(x: char, y: char)
    requires !IsWhitespace(x) && !IsWhitespace(y)
    ensures Trim([' ', x, ' ', y, ' ']) == [x, ' ', y]
  {
    var c := [' ', x, ' ', y, ' '];
    assert LeadingWhitespace(c) == 1 by {
      LeadingWhitespacePrefix(c, 1);
    }
    var t := c[1..];
    assert t == [x, ' ', y, ' '];
    assert t[..3] == [x, ' ', y];
    assert TrailingWhitespace(t) == 1;
  }

  /** `"  x   y  "` normalises to `"x y"`. */
  lemma {:induction false} NormalizeExample(x: char, y: char)
    requires !IsWhitespace(x) && !IsWhitespace(y)
    ensures NormalizeWhitespace([' ', ' ', x, ' ', ' ', ' ', y, ' ', ' ']) == [x, ' ', y]
  {
    CollapseExample(x, y);
    TrimExample(x, y);
  }

  // ---------------------------------------------------------------------
  // The diff

  /** The counters `calculateStats` shows, with the similarity of the two
      raw texts. */
  datatype DiffStats = DiffStats(added: nat, removed: nat, unchangedChars: nat, similarity: real)

  datatype DiffResult = DiffResult(text1: string, text2: string, diffs: seq<Segment>, stats: DiffStats)

  /** `calculateStats(diffs, original, modified)`: one pass over the
      segments, adding each text's length to `added` (type 1), `removed`
      (type -1) or `unchanged` (any other type). */
  method CalculateStats(diffs: seq<Segment>, original: string, modified: string) returns (stats: DiffStats)
    ensures stats.added == LengthOf(diffs, DIFF_INSERT)
    ensures stats.removed == LengthOf(diffs, DIFF_DELETE)
    ensures stats.unchangedChars == UnchangedLength(diffs)
    ensures stats.similarity == EditDistance.Similarity(original, modified)
  {
    var added, removed, kept := 0, 0, 0;
    for i := 0 to |diffs|
      invariant added == LengthOf(diffs[..i], DIFF_INSERT)
      invariant removed == LengthOf(diffs[..i], DIFF_DELETE)
      invariant kept == UnchangedLength(diffs[..i])
    {
      assert diffs[..i + 1][..i] == diffs[..i];
      var count := |diffs[i].text|;
      if diffs[i].op == DIFF_INSERT {
        added := added + count;
      } else if diffs[i].op == DIFF_DELETE {
        removed := removed + count;
      } else {
        kept := kept + count;
      }
    }
    assert diffs[..|diffs|] == diffs;
    stats := DiffStats(added, removed, kept, EditDistance.Similarity(original, modified));
  }

  /** The two texts `performDiff` hands to the diff, after the options. */
  function Normalize(text: string, ignoreWhitespace: bool, ignoreCase: bool): (r: string)
    ensures |r| <= |text|
    ensures !ignoreWhitespace && !ignoreCase ==> r == text
  {
    var t := if ignoreWhitespace then NormalizeWhitespace(text) else text;
    if ignoreCase then ToLower(t) else t
  }

  /** `performDiff()`: nothing unless both texts are non-empty; otherwise
      the texts are normalised, diffed according to `mode` (`"line"` diffs
      the munged line tokens without line checking, `"word"` the texts
      without, anything else the texts with it), cleaned up and counted.
      The similarity is that of the raw texts. */
  method PerformDiff(original: string, modified: string, ignoreWhitespace: bool, ignoreCase: bool, mode: string,
                     diffMain: (string, string, bool) -> seq<Segment>,
                     cleanup: seq<Segment> -> seq<Segment>,
                     munge: (string, string) -> (string, string))
    returns (result: Option<DiffResult>)
    requires DiffMainReconstructs(diffMain) && CleanupPreserves(cleanup)
    ensures result.None? <==> original == [] || modified == []
    ensures result.Some? ==>
              var r := result.value;
              && r.text1 == Normalize(original, ignoreWhitespace, ignoreCase)
              && r.text2 == Normalize(modified, ignoreWhitespace, ignoreCase)
              && (mode == "line" ==> r.diffs == cleanup(diffMain(munge(r.text1, r.text2).0, munge(r.text1, r.text2).1, false)))
              && (mode == "word" ==> r.diffs == cleanup(diffMain(r.text1, r.text2, false)))
              && (mode != "line" && mode != "word" ==> r.diffs == cleanup(diffMain(r.text1, r.text2, true)))
              && r.stats.similarity == EditDistance.Similarity(original, modified)
    ensures result.Some? && mode != "line" ==>
              var r := result.value;
              && Reconstructs(r.diffs, r.text1, r.text2)
              && r.stats.unchangedChars + r.stats.removed == |r.text1|
              && r.stats.unchangedChars + r.stats.added == |r.text2|
  {
    if original == [] || modified == [] {
      return None;
    }
    var text1 := original;
    var text2 := modified;
    if ignoreWhitespace {
      text1 := NormalizeWhitespace(text1);
      text2 := NormalizeWhitespace(text2);
    }
    if ignoreCase {
      text1 := ToLower(text1);
      text2 := ToLower(text2);
    }
    var diffs;
    if mode == "line" {
      var tokens := munge(text1, text2);
      diffs := diffMain(tokens.0, tokens.1, false);
    } else if mode == "word" {
      diffs := diffMain(text1, text2, false);
      CleanDiffReconstructs(diffMain, cleanup, text1, text2, false);
    } else {
      diffs := diffMain(text1, text2, true);
      CleanDiffReconstructs(diffMain, cleanup, text1, text2, true);
    }
    diffs := cleanup(diffs);
    var stats := CalculateStats(diffs, original, modified);
    if mode != "line" {
      CountsMeasureTexts(diffs, text1, text2);
    }
    return Some(DiffResult(text1, text2, diffs, stats));
  }

  /** `performDiff()` with the line mode completed: the placeholder diff is
      expanded back to lines, so every mode yields a diff of the two
      normalised texts and the counters measure characters in every mode. */
  method PerformDiffIntended(original: string, modified: string, ignoreWhitespace: bool, ignoreCase: bool, mode: string,
                             diffMain: (string, string, bool) -> seq<Segment>,
                             cleanup: seq<Segment> -> seq<Segment>)
    returns (result: Option<DiffResult>)
    requires DiffMainReconstructs(diffMain) && CleanupPreserves(cleanup)
    requires mode == "line" ==> |original| + |modified| <= LineTokens.MaxTokens
    ensures result.None? <==> original == [] || modified == []
    ensures result.Some? ==>
              var r := result.value;
              && r.text1 == Normalize(original, ignoreWhitespace, ignoreCase)
              && r.text2 == Normalize(modified, ignoreWhitespace, ignoreCase)
              && (mode == "line" ==> r.diffs == LineTokens.LineModeDiff(r.text1, r.text2, diffMain, cleanup))
              && Reconstructs(r.diffs, r.text1, r.text2)
              && r.stats.unchangedChars + r.stats.removed == |r.text1|
              && r.stats.unchangedChars + r.stats.added == |r.text2|
              && r.stats.similarity == EditDistance.Similarity(original, modified)
  {
    if original == [] || modified == [] {
      return None;
    }
    var text1 := Normalize(original, ignoreWhitespace, ignoreCase);
    var text2 := Normalize(modified, ignoreWhitespace, ignoreCase);
    var diffs;
    if mode == "line" {
      diffs := LineTokens.LineModeDiff(text1, text2, diffMain, cleanup);
    } else if mode == "word" {
      diffs := cleanup(diffMain(text1, text2, false));
      CleanDiffReconstructs(diffMain, cleanup, text1, text2, false);
    } else {
      diffs := cleanup(diffMain(text1, text2, true));
      CleanDiffReconstructs(diffMain, cleanup, text1, text2, true);
    }
    var stats := CalculateStats(diffs, original, modified);
    CountsMeasureTexts(diffs, text1, text2);
    return Some(DiffResult(text1, text2, diffs, stats));
  }
}
