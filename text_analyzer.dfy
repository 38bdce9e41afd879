/** `TextAnalyzerModule.performAnalysis` (js/text-analyzer.js): line, word,
    character and paragraph counts, duplicate lines, word frequencies and
    the longest and shortest words of a text. */
module TextAnalyzer {
  import opened Wrappers
  import opened Text

  // ---------------------------------------------------------------------
  // Filters

  /** `parts.filter(w => w.length > 0)`. */
  function NonEmpty(parts: seq<string>): (r: seq<string>)
    ensures |r| <= |parts|
    ensures forall k :: 0 <= k < |r| ==> r[k] != [] && r[k] in parts
  {
    if |parts| == 0 then []
    else (if parts[0] == [] then [] else [parts[0]]) + NonEmpty(parts[1..])
  }

  /** The filter works piecewise: it keeps, in order, exactly the
      non-empty pieces. */
  lemma {:induction false} NonEmptyAppend(a: seq<string>, b: seq<string>)
    ensures NonEmpty(a + b) == NonEmpty(a) + NonEmpty(b)
    decreases |a|
  {
    if |a| == 0 {
      assert a + b == b;
    } else {
      assert (a + b)[1..] == a[1..] + b && (a + b)[0] == a[0];
      NonEmptyAppend(a[1..], b);
      var h := if a[0] == [] then [] else [a[0]];
      AppendAssoc(h, NonEmpty(a[1..]), NonEmpty(b));
    }
  }

  lemma {:induction false} NonEmptyOne(w: string)
    ensures NonEmpty([w]) == if w == [] then [] else [w]
  {
    assert [w][1..] == [];
  }

  /** Pieces that are all non-empty pass the filter unchanged. */
  lemma {:induction false} NonEmptyKeepsAll(parts: seq<string>)
    requires NoEmptyPart(parts)
    ensures NonEmpty(parts) == parts
  {
    if |parts| > 0 {
      assert NoEmptyPart(parts[1..]) by {
        assert forall k :: 0 <= k < |parts| - 1 ==> parts[1..][k] == parts[k + 1];
      }
      NonEmptyKeepsAll(parts[1..]);
      assert parts == [parts[0]] + parts[1..];
    }
  }

  /** Dropping empty strings does not change the concatenation. */
  lemma {:induction false} ConcatNonEmpty(parts: seq<string>)
    ensures Concat(NonEmpty(parts)) == Concat(parts)
  {
    if |parts| > 0 {
      ConcatNonEmpty(parts[1..]);
      var rest := NonEmpty(parts[1..]);
      assert Concat(parts) == parts[0] + Concat(parts[1..]);
      if parts[0] != [] {
        assert NonEmpty(parts) == [parts[0]] + rest;
        assert ([parts[0]] + rest)[1..] == rest;
      } else {
        assert NonEmpty(parts) == [] + rest == rest;
        assert parts[0] + Concat(parts[1..]) == Concat(parts[1..]);
      }
    }
  }

  predicate IsBlank(s: string) {
    Trim(s) == []
  }

  /** `parts.filter(p => p.trim().length > 0)`. */
  function NonBlank(parts: seq<string>): (r: seq<string>)
    ensures |r| <= |parts|
    ensures forall k :: 0 <= k < |r| ==> !IsBlank(r[k])
  {
    if |parts| == 0 then []
    else
      var h := if IsBlank(parts[0]) then [] else [parts[0]];
      var rest := NonBlank(parts[1..]);
      NotBlankAppend(h, rest);
      h + rest
  }

  lemma {:induction false} NotBlankAppend(a: seq<string>, b: seq<string>)
    requires forall k :: 0 <= k < |a| ==> !IsBlank(a[k])
    requires forall k :: 0 <= k < |b| ==> !IsBlank(b[k])
    ensures forall k :: 0 <= k < |a + b| ==> !IsBlank((a + b)[k])
  {
    forall k | 0 <= k < |a + b|
      ensures !IsBlank((a + b)[k])
    {
      if k < |a| {
        assert (a + b)[k] == a[k];
      } else {
        assert (a + b)[k] == b[k - |a|];
      }
    }
  }

  /** The filter works piecewise: it keeps, in order, exactly the
      non-blank pieces. */
  lemma {:induction false} NonBlankAppend(a: seq<string>, b: seq<string>)
    ensures NonBlank(a + b) == NonBlank(a) + NonBlank(b)
    decreases |a|
  {
    if |a| == 0 {
      assert a + b == b;
    } else {
      assert (a + b)[1..] == a[1..] + b && (a + b)[0] == a[0];
      NonBlankAppend(a[1..], b);
      var h := if IsBlank(a[0]) then [] else [a[0]];
      AppendAssoc(h, NonBlank(a[1..]), NonBlank(b));
    }
  }

  lemma {:induction false} NonBlankOne(p: string)
    ensures NonBlank([p]) == if IsBlank(p) then [] else [p]
  {
    assert [p][1..] == [];
  }

  /** A string is all whitespace exactly when removing whitespace leaves
      nothing. */
  lemma {:induction false} AllWhitespaceIff(s: string)
    ensures AllWhitespace(s) <==> RemoveWhitespace(s) == []
  {
    if |s| > 0 {
      AllWhitespaceIff(s[1..]);
      assert RemoveWhitespace(s) == RemoveWhitespace([s[0]] + s[1..]) by {
        assert s == [s[0]] + s[1..];
      }
      RemoveWhitespaceAppend([s[0]], s[1..]);
      assert AllWhitespace(s) <==> IsWhitespace(s[0]) && AllWhitespace(s[1..]);
    }
  }

  /** No piece survives the blank filter exactly when the pieces together
      hold no non-whitespace character. */
  lemma {:induction false} NonBlankEmptyIff(parts: seq<string>)
    ensures NonBlank(parts) == [] <==> RemoveWhitespace(Concat(parts)) == []
  {
    if |parts| > 0 {
      NonBlankEmptyIff(parts[1..]);
      RemoveWhitespaceAppend(parts[0], Concat(parts[1..]));
      TrimEmptyIffAllWhitespace(parts[0]);
      AllWhitespaceIff(parts[0]);
    }
  }

  // ---------------------------------------------------------------------
  // Lines and words

  /** `text.split('\n')`. */
  function Lines(text: string): seq<string> {
    SplitOn(text, '\n')
  }

  /** `text.trim().split(/\s+/).filter(w => w.length > 0)`. Unless the text
      is blank the filter drops nothing: the words are the pieces of the
      trimmed text between its maximal runs of whitespace. */
  function Words(text: string): (words: seq<string>)
    ensures forall k :: 0 <= k < |words| ==> words[k] != [] && NoWhitespace(words[k])
    ensures AllWhitespace(text) ==> words == []
    ensures !AllWhitespace(text) ==> words == SplitWhitespace(Trim(text))
  {
    var t := Trim(text);
    TrimEmptyIffAllWhitespace(text);
    if t == [] then
      assert SplitWhitespace(t) == [[]];
      NonEmptyOne([]);
      NonEmpty(SplitWhitespace(t))
    else
      SplitTrimmedWords(t);
      NonEmptyKeepsAll(SplitWhitespace(t));
      NonEmpty(SplitWhitespace(t))
  }

  /** The words hold exactly the non-whitespace characters of the text, in
      order. */
  lemma {:induction false} WordsKeepText(text: string)
    ensures Concat(Words(text)) == RemoveWhitespace(text)
  {
    ConcatNonEmpty(SplitWhitespace(Trim(text)));
    ConcatSplitWhitespace(Trim(text));
    RemoveWhitespaceTrim(text);
  }

  /** Trimming removes whitespace only. */
  lemma {:induction false} RemoveWhitespaceTrim(text: string)
    ensures RemoveWhitespace(Trim(text)) == RemoveWhitespace(text)
  {
    var a, b := TrimStart(text), TrimEnd(text);
    assert Trim(text) == text[a..b];
    RemoveWhitespaceEnds(text, a, b);
  }

  /** Removing whitespace from the middle of `s` is removing it from `s`
      when the two ends are whitespace. */
  lemma {:induction false} RemoveWhitespaceEnds(s: string, a: nat, b: nat)
    requires a <= b <= |s| && AllWhitespace(s[..a]) && AllWhitespace(s[b..])
    ensures RemoveWhitespace(s[a..b]) == RemoveWhitespace(s)
  {
    RemoveWhitespaceSlices(s, a, b);
    RemoveWhitespaceOfAll(s[..a]);
    RemoveWhitespaceOfAll(s[b..]);
  }

  /** A text has no words exactly when it is all whitespace. */
  lemma {:induction false} NoWordsIffBlank(text: string)
    ensures Words(text) == [] <==> AllWhitespace(text)
  {
    WordsKeepText(text);
    AllWhitespaceIff(text);
    var words := Words(text);
    if words != [] {
      assert Concat(words) == words[0] + Concat(words[1..]);
    }
  }

  /** The number of words is the number of places where a non-whitespace
      character starts the text or follows whitespace. */
  lemma {:induction false} WordCount(text: string)
    ensures |Words(text)| == RunStarts(text, true, false)
  {
    if AllWhitespace(text) {
      RunStartsUniform(text, true, false, true);
    } else {
      WordCountText(text);
    }
  }

  lemma {:induction false} WordCountText(text: string)
    requires !AllWhitespace(text)
    ensures |Words(text)| == RunStarts(text, true, false)
  {
    TrimEmptyIffAllWhitespace(text);
    TrimParts(text);
    WordCountTrimmed(Trim(text));
    WordStartsPadded(text, text[..TrimStart(text)], Trim(text), text[TrimEnd(text)..]);
  }

  /** Whitespace around a text starts no word. */
  lemma {:induction false} WordStartsPadded(s: string, l: string, t: string, r: string)
    requires s == l + t + r && AllWhitespace(l) && AllWhitespace(r)
    requires t != [] && !IsWhitespace(t[|t| - 1])
    ensures RunStarts(s, true, false) == RunStarts(t, true, false)
  {
    AppendAssoc(l, t, r);
    RunStartsAppend(l, t + r, true, false);
    RunStartsUniform(l, true, false, true);
    RunStartsAppend(t, r, true, false);
    RunStartsUniform(r, false, false, true);
  }

  lemma {:induction false} WordCountTrimmed(t: string)
    requires t != [] && !IsWhitespace(t[0]) && !IsWhitespace(t[|t| - 1])
    ensures |SplitWhitespace(t)| == RunStarts(t, true, false)
  {
    RunStartsOther(t, true);
    RunStartsAlternate(t, true);
  }

  // ---------------------------------------------------------------------
  // Paragraphs: `text.split(/\n\s*\n/)`

  /** The end of the run of whitespace that starts at `j`. */
  function RunEnd(s: string, j: nat): (k: nat)
    requires j <= |s|
    ensures j <= k <= |s|
    ensures k < |s| ==> !IsWhitespace(s[k])
    decreases |s| - j
  {
    if j < |s| && IsWhitespace(s[j]) then RunEnd(s, j + 1) else j
  }

  lemma {:induction false} RunEndWhitespace(s: string, j: nat, k: nat)
    requires j <= |s| && j <= k < RunEnd(s, j)
    ensures IsWhitespace(s[k])
    decreases |s| - j
  {
    if j < k {
      RunEndWhitespace(s, j + 1, k);
    }
  }

  /** One past the last `'\n'` of `s[lo..hi]`, or `lo` when there is none. */
  function NewlineEndIn(s: string, lo: nat, hi: nat): (e: nat)
    requires lo <= hi <= |s|
    ensures lo <= e <= hi
    ensures e > lo ==> s[e - 1] == '\n'
    decreases hi
  {
    if hi == lo then lo
    else if s[hi - 1] == '\n' then hi
    else NewlineEndIn(s, lo, hi - 1)
  }

  /** No `'\n'` lies between the end `NewlineEndIn` finds and `hi`. */
  lemma {:induction false} NewlineEndInLast(s: string, lo: nat, hi: nat, x: nat)
    requires lo <= hi <= |s| && NewlineEndIn(s, lo, hi) <= x < hi
    ensures s[x] != '\n'
    decreases hi
  {
    if hi > lo && s[hi - 1] != '\n' && x < hi - 1 {
      NewlineEndInLast(s, lo, hi - 1, x);
    }
  }

  /** The length of the match of `/\n\s*\n/` at position `i`, or 0. The
      greedy `\s*` takes the whole run of whitespace after the first `'\n'`
      and gives back characters until a `'\n'` follows, so the match ends at
      the last `'\n'` of that run. */
  function BreakLen(s: string, i: nat): (n: nat)
    requires i < |s|
    ensures n == 0 || (2 <= n && i + n <= |s|)
  {
    if s[i] != '\n' then 0
    else
      var e := NewlineEndIn(s, i + 1, RunEnd(s, i + 1));
      if e == i + 1 then 0 else e - i
  }

  /** A match runs from a `'\n'` to a `'\n'` over whitespace only. */
  lemma {:induction false} BreakIsWhitespace(s: string, i: nat)
    requires i < |s| && BreakLen(s, i) > 0
    ensures var n := BreakLen(s, i);
            s[i] == '\n' && s[i + n - 1] == '\n' && AllWhitespace(s[i..i + n])
  {
    var n := BreakLen(s, i);
    forall k | i < k < i + n
      ensures IsWhitespace(s[k])
    {
      RunEndWhitespace(s, i + 1, k);
    }
    var m := s[i..i + n];
    assert forall k :: 0 <= k < n ==> m[k] == s[i + k];
  }

  /** A match holds no non-whitespace character. */
  lemma {:induction false} BreakRemoved(s: string, i: nat)
    requires i < |s| && BreakLen(s, i) > 0
    ensures RemoveWhitespace(s[i..i + BreakLen(s, i)]) == []
  {
    BreakIsWhitespace(s, i);
    RemoveWhitespaceOfAll(s[i..i + BreakLen(s, i)]);
  }

  /** The leftmost match at or after `i`, or `|s|`. */
  function FirstBreak(s: string, i: nat): (j: nat)
    requires i <= |s|
    ensures i <= j <= |s|
    ensures j < |s| ==> BreakLen(s, j) > 0
    ensures forall k :: i <= k < j ==> BreakLen(s, k) == 0
    decreases |s| - i
  {
    if i == |s| then |s|
    else if BreakLen(s, i) > 0 then i
    else
      var j := FirstBreak(s, i + 1);
      NoBreakBefore(s, i, j);
      j
  }

  lemma {:induction false} NoBreakBefore(s: string, i: nat, j: nat)
    requires i < j <= |s| && BreakLen(s, i) == 0
    requires forall k :: i + 1 <= k < j ==> BreakLen(s, k) == 0
    ensures forall k :: i <= k < j ==> BreakLen(s, k) == 0
  {
    forall k | i <= k < j
      ensures BreakLen(s, k) == 0
    {
      if k > i {
        assert i + 1 <= k < j;
      }
    }
  }

  /** `p` holds no match of `/\n\s*\n/`. */
  predicate NoBreak(p: string) {
    FirstBreak(p, 0) == |p|
  }

  /** The pieces between successive matches: none of them holds a match,
      the pieces joined back with the matches give the text, and each match
      is as long as it can be, so no piece after a match has a `'\n'`
      before its first non-whitespace character. */
  function SplitParagraphs(s: string): (parts: seq<string>)
    ensures |parts| >= 1
    ensures forall k :: 0 <= k < |parts| ==> NoBreak(parts[k])
    ensures |ParagraphBreaks(s)| + 1 == |parts| && Interleave(parts, ParagraphBreaks(s)) == s
    ensures forall k :: 0 < k < |parts| ==> NoNewlineInLead(parts[k])
    decreases |s|
  {
    var i := FirstBreak(s, 0);
    if i == |s| then
      assert s[..i] == s;
      [s]
    else
      var n := BreakLen(s, i);
      var rest := s[i + n..];
      var p := SplitParagraphs(rest);
      assert p[0] == rest[..FirstBreak(rest, 0)];
      PiecesStep(s, i, n, p);
      ParagraphBreaksUnfold(s, i, n);
      RejoinAtBreak(s, i, n, p, ParagraphBreaks(rest), ParagraphBreaks(s));
      GreedyStep(s, i, n, rest, FirstBreak(rest, 0), p);
      [s[..i]] + p
  }

  lemma {:induction false} PiecesStep(s: string, i: nat, n: nat, p: seq<string>)
    requires i < |s| && i == FirstBreak(s, 0) && n == BreakLen(s, i)
    requires forall k :: 0 <= k < |p| ==> NoBreak(p[k])
    ensures forall k :: 0 <= k < |p| + 1 ==> NoBreak(([s[..i]] + p)[k])
  {
    PrefixBeforeBreak(s, i);
    assert forall k :: 0 < k < |p| + 1 ==> ([s[..i]] + p)[k] == p[k - 1];
  }

  lemma {:induction false} RejoinAtBreak(s: string, i: nat, n: nat, p: seq<string>, tail: seq<string>, all: seq<string>)
    requires i + n <= |s| && all == [s[i..i + n]] + tail
    requires |tail| + 1 == |p| && Interleave(p, tail) == s[i + n..]
    ensures |all| == |p| && Interleave([s[..i]] + p, all) == s
  {
    RejoinSlices(s, i, i + n, p, tail);
  }

  lemma {:induction false} RejoinSlices(s: string, i: nat, j: nat, p: seq<string>, seps: seq<string>)
    requires i <= j <= |s| && |seps| + 1 == |p| && Interleave(p, seps) == s[j..]
    ensures Interleave([s[..i]] + p, [s[i..j]] + seps) == s
  {
    RejoinStep(s[..i], s[i..j], s[j..], p, seps);
    assert s == s[..i] + s[i..j] + s[j..];
  }

  lemma {:induction false} GreedyStep(s: string, i: nat, n: nat, rest: string, j: nat, p: seq<string>)
    requires i < |s| && n == BreakLen(s, i) && n > 0 && rest == s[i + n..]
    requires j <= |rest| && |p| >= 1 && p[0] == rest[..j]
    requires forall k :: 0 < k < |p| ==> NoNewlineInLead(p[k])
    ensures var parts := [s[..i]] + p;
            forall k :: 0 < k < |parts| ==> NoNewlineInLead(parts[k])
  {
    AfterBreak(s, i);
    LeadAfterBreak(rest, j, p[0]);
    GreedyCons(s[..i], p);
  }

  lemma {:induction false} LeadAfterBreak(rest: string, j: nat, piece: string)
    requires j <= |rest| && piece == rest[..j] && NoNewlineInLead(rest)
    ensures NoNewlineInLead(piece)
  {
    NoNewlineInLeadPrefix(rest, j);
  }

  /** A match is text of the shape `/\n\s*\n/`. */
  predicate IsParagraphBreak(sep: string) {
    |sep| >= 2 && sep[0] == '\n' && sep[|sep| - 1] == '\n' && AllWhitespace(sep)
  }

  /** The matches `text.split(/\n\s*\n/)` consumes, in order. */
  function ParagraphBreaks(s: string): seq<string>
    decreases |s|
  {
    var i := FirstBreak(s, 0);
    if i == |s| then [] else [s[i..i + BreakLen(s, i)]] + ParagraphBreaks(s[i + BreakLen(s, i)..])
  }

  /** Every separator has the shape of the pattern. */
  predicate AllBreaks(seps: seq<string>)
    decreases |seps|
  {
    |seps| == 0 || (IsParagraphBreak(seps[0]) && AllBreaks(seps[1..]))
  }

  lemma {:induction false} AllBreaksAt(seps: seq<string>, k: nat)
    requires AllBreaks(seps) && k < |seps|
    ensures IsParagraphBreak(seps[k])
  {
    if k > 0 {
      AllBreaksAt(seps[1..], k - 1);
      assert seps[1..][k - 1] == seps[k];
    }
  }

  /** Each match has the shape of the pattern. */
  lemma {:induction false} ParagraphBreaksShape(s: string, k: nat)
    requires k < |ParagraphBreaks(s)|
    ensures IsParagraphBreak(ParagraphBreaks(s)[k])
  {
    ParagraphBreaksAllBreaks(s);
    AllBreaksAt(ParagraphBreaks(s), k);
  }

  lemma {:induction false} ParagraphBreaksAllBreaks(s: string)
    ensures AllBreaks(ParagraphBreaks(s))
    decreases |s|
  {
    if FirstBreak(s, 0) < |s| {
      var i := FirstBreak(s, 0);
      var n := BreakLen(s, i);
      ParagraphBreaksUnfold(s, i, n);
      var seps := ParagraphBreaks(s);
      ParagraphBreaksAllBreaks(s[i + n..]);
      BreakShape(s, i);
      assert seps[0] == s[i..i + n] && seps[1..] == ParagraphBreaks(s[i + n..]);
    }
  }

  lemma {:induction false} BreakShape(s: string, i: nat)
    requires i < |s| && BreakLen(s, i) > 0
    ensures IsParagraphBreak(s[i..i + BreakLen(s, i)])
  {
    BreakIsWhitespace(s, i);
  }

  lemma {:induction false} RejoinStep(a: string, b: string, rest: string, parts: seq<string>, seps: seq<string>)
    requires |parts| == |seps| + 1 && Interleave(parts, seps) == rest
    ensures Interleave([a] + parts, [b] + seps) == a + b + rest
  {
    InterleaveCons(a, b, parts, seps);
  }

  lemma {:induction false} ParagraphBreaksUnfold(s: string, i: nat, n: nat)
    requires i < |s| && i == FirstBreak(s, 0) && n == BreakLen(s, i)
    ensures ParagraphBreaks(s) == [s[i..i + n]] + ParagraphBreaks(s[i + n..])
  {
  }

  /** A match found in a prefix of `s` is a match in `s`. */
  lemma {:induction false} BreakInPrefix(s: string, i: nat, k: nat)
    requires k < i <= |s| && BreakLen(s[..i], k) > 0
    ensures BreakLen(s, k) > 0
  {
    var t := s[..i];
    var rt := RunEnd(t, k + 1);
    var e := NewlineEndIn(t, k + 1, rt);
    RunEndPrefix(s, i, k + 1);
    assert t[e - 1] == s[e - 1];
    NewlineAt(s, k + 1, RunEnd(s, k + 1), e - 1);
  }

  lemma {:induction false} RunEndPrefix(s: string, i: nat, j: nat)
    requires j <= i <= |s|
    ensures RunEnd(s[..i], j) <= RunEnd(s, j)
    decreases i - j
  {
    if j < i && IsWhitespace(s[j]) {
      RunEndPrefix(s, i, j + 1);
    }
  }

  /** A `'\n'` inside the range lies before the end `NewlineEndIn` finds. */
  lemma {:induction false} NewlineAt(s: string, lo: nat, hi: nat, x: nat)
    requires lo <= x < hi <= |s| && s[x] == '\n'
    ensures NewlineEndIn(s, lo, hi) > x
    decreases hi
  {
    if s[hi - 1] != '\n' {
      NewlineAt(s, lo, hi - 1, x);
    }
  }

  /** The piece before the leftmost match holds no match. */
  lemma {:induction false} PrefixBeforeBreak(s: string, i: nat)
    requires i <= |s| && i == FirstBreak(s, 0)
    ensures NoBreak(s[..i])
  {
    var t := s[..i];
    forall k | 0 <= k < |t|
      ensures BreakLen(t, k) == 0
    {
      if BreakLen(t, k) > 0 {
        BreakInPrefix(s, i, k);
        assert false;
      }
    }
  }

  /** No `'\n'` comes before the first non-whitespace character of `p`. */
  predicate NoNewlineInLead(p: string) {
    forall x :: 0 <= x < LeadingWhitespace(p) ==> p[x] != '\n'
  }

  lemma {:induction false} RunEndAt(s: string, j: nat, m: nat)
    requires j <= m <= |s| && (forall x :: j <= x < m ==> IsWhitespace(s[x]))
    requires m < |s| ==> !IsWhitespace(s[m])
    ensures RunEnd(s, j) == m
    decreases m - j
  {
    if j < m {
      RunEndAt(s, j + 1, m);
    }
  }

  lemma {:induction false} LeadingWhitespaceRunEnd(s: string, j: nat)
    requires j <= |s|
    ensures LeadingWhitespace(s[j..]) == RunEnd(s, j) - j
  {
    var t, m := s[j..], RunEnd(s, j) - j;
    forall x | 0 <= x < m
      ensures t[..m][x] == s[j + x] && IsWhitespace(s[j + x])
    {
      RunEndWhitespace(s, j, j + x);
    }
    LeadingWhitespaceAt(t, m);
  }

  /** The match is greedy: what follows it has no `'\n'` before its first
      non-whitespace character. */
  lemma {:induction false} AfterBreak(s: string, i: nat)
    requires i < |s| && BreakLen(s, i) > 0
    ensures NoNewlineInLead(s[i + BreakLen(s, i)..])
  {
    var e, r := i + BreakLen(s, i), RunEnd(s, i + 1);
    AfterBreakLead(s, i, e, r);
    AfterBreakNoNewline(s, i, e, r, s[e..]);
  }

  /** The whitespace run after the match's first `'\n'` runs past the match. */
  lemma {:induction false} AfterBreakLead(s: string, i: nat, e: nat, r: nat)
    requires i < |s| && BreakLen(s, i) > 0 && e == i + BreakLen(s, i) && r == RunEnd(s, i + 1)
    ensures e <= r && LeadingWhitespace(s[e..]) == r - e
  {
    forall x | e <= x < r
      ensures IsWhitespace(s[x])
    {
      RunEndWhitespace(s, i + 1, x);
    }
    RunEndAt(s, e, r);
    LeadingWhitespaceRunEnd(s, e);
  }

  lemma {:induction false} AfterBreakNoNewline(s: string, i: nat, e: nat, r: nat, t: string)
    requires i < |s| && BreakLen(s, i) > 0 && e == i + BreakLen(s, i) && r == RunEnd(s, i + 1)
    requires e <= r && t == s[e..]
    ensures forall x :: 0 <= x < r - e ==> t[x] != '\n'
  {
    forall x | 0 <= x < r - e
      ensures t[x] != '\n'
    {
      NewlineEndInLast(s, i + 1, r, e + x);
    }
  }

  lemma {:induction false} NoNewlineInLeadPrefix(u: string, j: nat)
    requires j <= |u| && NoNewlineInLead(u)
    ensures NoNewlineInLead(u[..j])
  {
    var p := u[..j];
    var m := LeadingWhitespace(p);
    assert forall x :: 0 <= x < m ==> p[..m][x] == u[x];
    assert LeadingWhitespace(u) >= m;
  }

  lemma {:induction false} GreedyCons(a: string, p: seq<string>)
    requires |p| > 0 && forall k :: 0 <= k < |p| ==> NoNewlineInLead(p[k])
    ensures var parts := [a] + p;
            forall k :: 0 < k < |parts| ==> NoNewlineInLead(parts[k])
  {
    var parts := [a] + p;
    assert forall k :: 0 < k < |parts| ==> parts[k] == p[k - 1];
  }

  /** The separators are whitespace: the pieces keep every non-whitespace
      character of the text, in order. */
  lemma {:induction false} ParagraphsKeepText(s: string)
    ensures RemoveWhitespace(Concat(SplitParagraphs(s))) == RemoveWhitespace(s)
    decreases |s|
  {
    var i := FirstBreak(s, 0);
    if i == |s| {
      assert SplitParagraphs(s) == [s];
      ConcatCons(s, []);
      assert s + [] == s;
    } else {
      var n := BreakLen(s, i);
      ParagraphsKeepText(s[i + n..]);
      ParagraphsStep(s, i, n);
    }
  }

  lemma {:induction false} ParagraphsStep(s: string, i: nat, n: nat)
    requires i < |s| && i == FirstBreak(s, 0) && n == BreakLen(s, i)
    requires RemoveWhitespace(Concat(SplitParagraphs(s[i + n..]))) == RemoveWhitespace(s[i + n..])
    ensures RemoveWhitespace(Concat(SplitParagraphs(s))) == RemoveWhitespace(s)
  {
    SplitParagraphsUnfold(s, i, n);
    BreakRemoved(s, i);
    RemoveAcrossBreak(s, i, n, SplitParagraphs(s[i + n..]));
  }

  lemma {:induction false} SplitParagraphsUnfold(s: string, i: nat, n: nat)
    requires i < |s| && i == FirstBreak(s, 0) && n == BreakLen(s, i)
    ensures SplitParagraphs(s) == [s[..i]] + SplitParagraphs(s[i + n..])
  {
  }

  lemma {:induction false} RemoveAcrossBreak(s: string, i: nat, n: nat, parts: seq<string>)
    requires i + n <= |s| && RemoveWhitespace(s[i..i + n]) == []
    requires RemoveWhitespace(Concat(parts)) == RemoveWhitespace(s[i + n..])
    ensures RemoveWhitespace(Concat([s[..i]] + parts)) == RemoveWhitespace(s)
  {
    var head := s[..i];
    calc {
      RemoveWhitespace(Concat([head] + parts));
      == { ConcatCons(head, parts); }
      RemoveWhitespace(head + Concat(parts));
      == { RemoveWhitespaceAppend(head, Concat(parts)); }
      RemoveWhitespace(head) + RemoveWhitespace(s[i + n..]);
      == { RemoveWhitespaceSlices(s, i, i + n); }
      RemoveWhitespace(s);
    }
  }

  /** Removing whitespace works piecewise on three consecutive slices; the
      middle one contributes nothing when it holds only whitespace. */
  lemma {:induction false} RemoveWhitespaceSlices(s: string, a: nat, b: nat)
    requires a <= b <= |s|
    ensures RemoveWhitespace(s[a..b]) == [] ==> RemoveWhitespace(s) == RemoveWhitespace(s[..a]) + RemoveWhitespace(s[b..])
    ensures RemoveWhitespace(s) == RemoveWhitespace(s[..a]) + RemoveWhitespace(s[a..b]) + RemoveWhitespace(s[b..])
  {
    var lead, mid, trail := s[..a], s[a..b], s[b..];
    SliceThree(s, a, b);
    RemoveWhitespaceAppend(lead + mid, trail);
    RemoveWhitespaceAppend(lead, mid);
    if RemoveWhitespace(mid) == [] {
      assert RemoveWhitespace(lead) + RemoveWhitespace(mid) == RemoveWhitespace(lead);
    }
  }

  lemma {:induction false} SliceThree<T>(s: seq<T>, a: nat, b: nat)
    requires a <= b <= |s|
    ensures s == s[..a] + s[a..b] + s[b..]
  {
  }

  /** `text.split(/\n\s*\n/).filter(p => p.trim().length > 0).length`. */
  function ParagraphCount(text: string): nat {
    |NonBlank(SplitParagraphs(text))|
  }

  /** A text has no paragraph exactly when it is all whitespace. */
  lemma {:induction false} ParagraphCountZeroIff(text: string)
    ensures ParagraphCount(text) == 0 <==> AllWhitespace(text)
  {
    NonBlankEmptyIff(SplitParagraphs(text));
    ParagraphsKeepText(text);
    AllWhitespaceIff(text);
  }

  // ---------------------------------------------------------------------
  // Duplicate lines

  /** The distinct non-blank lines, gathered line by line as the scan
      does. */
  function NonBlankSet(lines: seq<string>): set<string> {
    if |lines| == 0 then {}
    else
      var last := lines[|lines| - 1];
      NonBlankSet(lines[..|lines| - 1]) + (if IsBlank(last) then {} else {last})
  }

  /** The set holds exactly the lines of the text that are not blank. */
  lemma {:induction false} NonBlankSetMembers(lines: seq<string>, x: string)
    ensures x in NonBlankSet(lines) <==> x in lines && !IsBlank(x)
  {
    if |lines| > 0 {
      NonBlankSetMembers(lines[..|lines| - 1], x);
      InSnoc(lines, x);
    }
  }

  /** The non-blank lines that repeat an earlier line. */
  function DuplicateCount(lines: seq<string>): nat {
    if |lines| == 0 then 0
    else
      var last := lines[|lines| - 1];
      DuplicateCount(lines[..|lines| - 1]) + (if !IsBlank(last) && last in lines[..|lines| - 1] then 1 else 0)
  }

  function NonBlankLineCount(lines: seq<string>): nat {
    if |lines| == 0 then 0
    else NonBlankLineCount(lines[..|lines| - 1]) + (if IsBlank(lines[|lines| - 1]) then 0 else 1)
  }

  lemma {:induction false} NonBlankSetSnoc(lines: seq<string>)
    requires |lines| > 0
    ensures var p, last := lines[..|lines| - 1], lines[|lines| - 1];
            NonBlankSet(lines) == NonBlankSet(p) + (if IsBlank(last) then {} else {last})
            && (!IsBlank(last) ==> (last in p <==> last in NonBlankSet(p)))
  {
    var p, last := lines[..|lines| - 1], lines[|lines| - 1];
    NonBlankSetMembers(p, last);
  }

  /** Every non-blank line is either the first of its text or a duplicate. */
  lemma {:induction false} DuplicatesAndDistinct(lines: seq<string>)
    ensures DuplicateCount(lines) + |NonBlankSet(lines)| == NonBlankLineCount(lines)
  {
    if |lines| > 0 {
      DuplicatesAndDistinct(lines[..|lines| - 1]);
      DuplicatesAndDistinctStep(lines);
    }
  }

  lemma {:induction false} DuplicatesAndDistinctStep(lines: seq<string>)
    requires |lines| > 0
    requires var p := lines[..|lines| - 1];
             DuplicateCount(p) + |NonBlankSet(p)| == NonBlankLineCount(p)
    ensures DuplicateCount(lines) + |NonBlankSet(lines)| == NonBlankLineCount(lines)
  {
    var p, last := lines[..|lines| - 1], lines[|lines| - 1];
    NonBlankSetSnoc(lines);
    CountsStep(DuplicateCount(p), NonBlankSet(p), NonBlankLineCount(p),
               DuplicateCount(lines), NonBlankSet(lines), NonBlankLineCount(lines),
               last, IsBlank(last), last in p);
  }

  /** The counting step of `DuplicatesAndDistinctStep`, over plain values. */
  lemma {:induction false} CountsStep(dp: nat, sp: set<string>, lp: nat, d: nat, s: set<string>, l: nat,
                                      last: string, blank: bool, seen: bool)
    requires dp + |sp| == lp
    requires s == sp + (if blank then {} else {last})
    requires !blank ==> (seen <==> last in sp)
    requires d == dp + (if !blank && seen then 1 else 0)
    requires l == lp + (if blank then 0 else 1)
    ensures d + |s| == l
  {
    if blank {
      assert s == sp;
    } else if seen {
      assert s == sp;
    } else {
      assert |sp + {last}| == |sp| + 1;
    }
  }

  /** The duplicate scan of `performAnalysis`: a map of the non-blank lines
      seen so far; a non-blank line already in it is a duplicate. */
  method CountDuplicates(lines: seq<string>) returns (count: nat)
    ensures count == DuplicateCount(lines)
  {
    var lineMap: map<string, nat> := map[];
    count := 0;
    for idx := 0 to |lines|
      invariant lineMap.Keys == NonBlankSet(lines[..idx])
      invariant count == DuplicateCount(lines[..idx])
    {
      var line := lines[idx];
      DuplicateScanStep(lines, idx, lineMap, count);
      if Trim(line) != [] {
        if line in lineMap {
          count := count + 1;
        } else {
          lineMap := lineMap[line := idx];
        }
      }
    }
    assert lines[..|lines|] == lines;
  }

  /** One step of the scan, stated as the loop needs it: the keys and the
      count after the line. */
  lemma {:induction false} DuplicateScanStep(lines: seq<string>, idx: nat, lineMap: map<string, nat>, count: nat)
    requires idx < |lines| && lineMap.Keys == NonBlankSet(lines[..idx])
    requires count == DuplicateCount(lines[..idx])
    ensures var line, q := lines[idx], lines[..idx + 1];
            && (Trim(line) == [] || line in lineMap ==> NonBlankSet(q) == lineMap.Keys)
            && (Trim(line) != [] && line !in lineMap ==> NonBlankSet(q) == lineMap[line := idx].Keys)
            && DuplicateCount(q) == count + (if Trim(line) != [] && line in lineMap then 1 else 0)
  {
    var line, p, q := lines[idx], lines[..idx], lines[..idx + 1];
    DuplicateStep(lines, idx);
    KeysStep(lineMap, NonBlankSet(p), NonBlankSet(q), count, DuplicateCount(q), line, idx, Trim(line) == []);
  }

  /** The map update of the scan, over plain values. */
  lemma {:induction false} KeysStep(lineMap: map<string, nat>, before: set<string>, after: set<string>,
                                    count: nat, dq: nat, line: string, idx: nat, blank: bool)
    requires lineMap.Keys == before
    requires after == before + (if blank then {} else {line})
    requires dq == count + (if !blank && line in before then 1 else 0)
    ensures blank || line in lineMap ==> after == lineMap.Keys
    ensures !blank && line !in lineMap ==> after == lineMap[line := idx].Keys
    ensures dq == count + (if !blank && line in lineMap then 1 else 0)
  {
    if !blank && line !in lineMap {
      assert lineMap[line := idx].Keys == lineMap.Keys + {line};
    }
  }

  /** One more line: how the set of non-blank lines and the duplicate count
      grow. */
  lemma {:induction false} DuplicateStep(lines: seq<string>, idx: nat)
    requires idx < |lines|
    ensures var p, line := lines[..idx], lines[idx];
            && NonBlankSet(lines[..idx + 1]) == NonBlankSet(p) + (if IsBlank(line) then {} else {line})
            && DuplicateCount(lines[..idx + 1]) == DuplicateCount(p) + (if !IsBlank(line) && line in NonBlankSet(p) then 1 else 0)
  {
    assert lines[..idx + 1][..idx] == lines[..idx];
    NonBlankSetSnoc(lines[..idx + 1]);
  }

  // ---------------------------------------------------------------------
  // Word frequency

  type Entry = (string, nat)

  /** The position of `key` among the entries, or `|entries|`. */
  function FindKey(entries: seq<Entry>, key: string): (i: nat)
    ensures i <= |entries|
    ensures i < |entries| ==> entries[i].0 == key
    ensures i == |entries| ==> forall k :: 0 <= k < |entries| ==> entries[k].0 != key
  {
    if |entries| == 0 then 0
    else if entries[0].0 == key then 0
    else 1 + FindKey(entries[1..], key)
  }

  /** The map `wordFrequency` as its entries in insertion order: the
      lower-cased words, each with a count. */
  function Frequencies(words: seq<string>): seq<Entry> {
    if |words| == 0 then []
    else
      var f := Frequencies(words[..|words| - 1]);
      var w := ToLower(words[|words| - 1]);
      var i := FindKey(f, w);
      if i < |f| then f[i := (w, f[i].1 + 1)] else f + [(w, 1)]
  }

  /** The number of words that lower-case to `key`. */
  function Occurrences(words: seq<string>, key: string): nat {
    if |words| == 0 then 0
    else Occurrences(words[..|words| - 1], key) + (if ToLower(words[|words| - 1]) == key then 1 else 0)
  }

  predicate DistinctKeys(entries: seq<Entry>) {
    forall i, j :: 0 <= i < j < |entries| ==> entries[i].0 != entries[j].0
  }

  /** Each entry of `f` counts exactly the words that lower-case to its
      key, the keys are distinct and lower case, and a string that is not a
      key counts no word. */
  ghost predicate CountsWords(words: seq<string>, f: seq<Entry>) {
    && DistinctKeys(f)
    && (forall k :: 0 <= k < |f| ==> HasNoUpper(f[k].0) && f[k].1 == Occurrences(words, f[k].0))
    && (forall key :: FindKey(f, key) == |f| ==> Occurrences(words, key) == 0)
  }

  /** The entries built by the loop count the words. */
  lemma {:induction false} FrequenciesCount(words: seq<string>)
    ensures CountsWords(words, Frequencies(words))
  {
    if |words| > 0 {
      var p, x := words[..|words| - 1], words[|words| - 1];
      FrequenciesCount(p);
      assert words == p + [x];
      FrequenciesStep(p, x, Frequencies(p), Frequencies(words));
      CountsSameWords(p + [x], words, Frequencies(words));
    }
  }

  lemma {:induction false} CountsSameWords(a: seq<string>, b: seq<string>, f: seq<Entry>)
    requires a == b && CountsWords(a, f)
    ensures CountsWords(b, f)
  {
  }

  lemma {:induction false} FrequenciesStep(p: seq<string>, x: string, f: seq<Entry>, g: seq<Entry>)
    requires CountsWords(p, f)
    requires g == var i := FindKey(f, ToLower(x));
                  if i < |f| then f[i := (ToLower(x), f[i].1 + 1)] else f + [(ToLower(x), 1)]
    ensures CountsWords(p + [x], g)
  {
    var i := FindKey(f, ToLower(x));
    if i < |f| {
      CountsBump(p, f, x, i, g);
    } else {
      CountsAppend(p, f, x, g);
    }
  }

  lemma {:induction false} OccurrencesSnoc(p: seq<string>, x: string, key: string)
    ensures Occurrences(p + [x], key) == Occurrences(p, key) + (if ToLower(x) == key then 1 else 0)
  {
    assert (p + [x])[..|p|] == p;
  }

  /** A word already counted bumps its entry. */
  lemma {:induction false} CountsBump(p: seq<string>, f: seq<Entry>, x: string, i: nat, g: seq<Entry>)
    requires CountsWords(p, f) && i == FindKey(f, ToLower(x)) < |f|
    requires g == f[i := (ToLower(x), f[i].1 + 1)]
    ensures CountsWords(p + [x], g)
  {
    var w := ToLower(x);
    forall k | 0 <= k < |g|
      ensures HasNoUpper(g[k].0) && g[k].1 == Occurrences(p + [x], g[k].0)
    {
      BumpEntry(p, f, x, i, k);
    }
    forall key | FindKey(g, key) == |g|
      ensures Occurrences(p + [x], key) == 0
    {
      BumpAbsent(p, f, x, i, key);
    }
    BumpKeys(f, i, w);
  }

  lemma {:induction false} BumpKeys(f: seq<Entry>, i: nat, w: string)
    requires DistinctKeys(f) && i < |f| && f[i].0 == w
    ensures DistinctKeys(f[i := (w, f[i].1 + 1)])
  {
    var g := f[i := (w, f[i].1 + 1)];
    assert forall k :: 0 <= k < |f| ==> g[k].0 == f[k].0;
  }

  lemma {:induction false} BumpEntry(p: seq<string>, f: seq<Entry>, x: string, i: nat, k: nat)
    requires CountsWords(p, f) && i == FindKey(f, ToLower(x)) < |f| && k < |f|
    ensures var g := f[i := (ToLower(x), f[i].1 + 1)];
            HasNoUpper(g[k].0) && g[k].1 == Occurrences(p + [x], g[k].0)
  {
    OccurrencesSnoc(p, x, f[k].0);
    if k != i {
      assert f[k].0 != f[i].0;
    }
  }

  lemma {:induction false} BumpAbsent(p: seq<string>, f: seq<Entry>, x: string, i: nat, key: string)
    requires CountsWords(p, f) && i == FindKey(f, ToLower(x)) < |f|
    requires FindKey(f[i := (ToLower(x), f[i].1 + 1)], key) == |f|
    ensures Occurrences(p + [x], key) == 0
  {
    var g := f[i := (ToLower(x), f[i].1 + 1)];
    assert forall k :: 0 <= k < |f| ==> g[k].0 == f[k].0;
    assert FindKey(f, key) == |f|;
    assert g[i].0 == ToLower(x);
    OccurrencesSnoc(p, x, key);
  }

  /** A new word gets a new last entry with count 1. */
  lemma {:induction false} CountsAppend(p: seq<string>, f: seq<Entry>, x: string, g: seq<Entry>)
    requires CountsWords(p, f) && FindKey(f, ToLower(x)) == |f|
    requires g == f + [(ToLower(x), 1)]
    ensures CountsWords(p + [x], g)
  {
    var w := ToLower(x);
    forall key
      ensures Occurrences(p + [x], key) == Occurrences(p, key) + (if w == key then 1 else 0)
    {
      OccurrencesSnoc(p, x, key);
    }
    assert Occurrences(p, w) == 0;
    forall key | FindKey(g, key) == |g|
      ensures Occurrences(p + [x], key) == 0
    {
      assert forall k :: 0 <= k < |f| ==> g[k].0 == f[k].0;
      assert FindKey(f, key) == |f|;
      assert g[|f|].0 == w;
    }
  }

  lemma {:induction false} OccurrencesPositive(words: seq<string>, i: nat)
    requires i < |words|
    ensures Occurrences(words, ToLower(words[i])) > 0
  {
    if i < |words| - 1 {
      OccurrencesPositive(words[..|words| - 1], i);
    }
  }

  /** Every word is counted under its lower-case form. */
  lemma {:induction false} EveryWordHasEntry(words: seq<string>, i: nat)
    requires i < |words|
    ensures FindKey(Frequencies(words), ToLower(words[i])) < |Frequencies(words)|
  {
    FrequenciesCount(words);
    OccurrencesPositive(words, i);
  }

  /** The sum of the counts of the entries. */
  function TotalCount(f: seq<Entry>): nat {
    if |f| == 0 then 0 else TotalCount(f[..|f| - 1]) + f[|f| - 1].1
  }

  /** Bumping one entry raises the sum by one. */
  lemma {:induction false} TotalBump(f: seq<Entry>, i: nat, w: string)
    requires i < |f|
    ensures TotalCount(f[i := (w, f[i].1 + 1)]) == TotalCount(f) + 1
  {
    var g := f[i := (w, f[i].1 + 1)];
    if i < |f| - 1 {
      assert g[..|g| - 1] == f[..|f| - 1][i := (w, f[i].1 + 1)];
      TotalBump(f[..|f| - 1], i, w);
    } else {
      assert g[..|g| - 1] == f[..|f| - 1];
    }
  }

  /** The counts of the whole table add up to the number of words. */
  lemma {:induction false} FrequenciesTotal(words: seq<string>)
    ensures TotalCount(Frequencies(words)) == |words|
  {
    if |words| > 0 {
      var p := words[..|words| - 1];
      FrequenciesTotal(p);
      var f, w := Frequencies(p), ToLower(words[|words| - 1]);
      var i := FindKey(f, w);
      if i < |f| {
        TotalBump(f, i, w);
      } else {
        assert (f + [(w, 1)])[..|f|] == f;
      }
    }
  }

  /** The word-frequency loop of `performAnalysis`. */
  method WordFrequency(words: seq<string>) returns (entries: seq<Entry>)
    ensures entries == Frequencies(words)
  {
    entries := [];
    for n := 0 to |words|
      invariant entries == Frequencies(words[..n])
    {
      assert words[..n + 1][..n] == words[..n];
      var lower := ToLower(words[n]);
      var i := FindKey(entries, lower);
      if i < |entries| {
        entries := entries[i := (lower, entries[i].1 + 1)];
      } else {
        entries := entries + [(lower, 1)];
      }
    }
    assert words[..|words|] == words;
  }

  // ---------------------------------------------------------------------
  // Stable sort, descending by a key

  predicate SortedDesc<T>(s: seq<T>, key: T -> int) {
    forall i, j :: 0 <= i < j < |s| ==> key(s[i]) >= key(s[j])
  }

  /** `x` placed after every leading element whose key is at least its
      own. */
  function Insert<T>(sorted: seq<T>, x: T, key: T -> int): (r: seq<T>)
    ensures |r| == |sorted| + 1
    ensures multiset(r) == multiset(sorted) + multiset{x}
  {
    if |sorted| == 0 then [x]
    else if key(sorted[0]) < key(x) then [x] + sorted
    else
      assert sorted == [sorted[0]] + sorted[1..];
      [sorted[0]] + Insert(sorted[1..], x, key)
  }

  /** `Array.prototype.sort` with the comparator `(a, b) => key(b) - key(a)`:
      a stable sort, largest key first. */
  function SortDesc<T>(s: seq<T>, key: T -> int): (r: seq<T>)
    ensures |r| == |s|
    ensures multiset(r) == multiset(s)
  {
    if |s| == 0 then []
    else
      assert s == s[..|s| - 1] + [s[|s| - 1]];
      Insert(SortDesc(s[..|s| - 1], key), s[|s| - 1], key)
  }

  lemma {:induction false} InsertSorted<T>(sorted: seq<T>, x: T, key: T -> int)
    requires SortedDesc(sorted, key)
    ensures SortedDesc(Insert(sorted, x, key), key)
    ensures |sorted| > 0 ==> Insert(sorted, x, key)[0] == (if key(sorted[0]) < key(x) then x else sorted[0])
  {
    if |sorted| > 0 && key(sorted[0]) >= key(x) {
      InsertSorted(sorted[1..], x, key);
      var r := Insert(sorted, x, key);
      forall j | 0 < j < |r|
        ensures key(r[0]) >= key(r[j])
      {
        assert r[j] in multiset(sorted[1..]) + multiset{x};
      }
    }
  }

  /** The sorted sequence has the same elements, largest key first. */
  lemma {:induction false} SortDescSorted<T>(s: seq<T>, key: T -> int)
    ensures SortedDesc(SortDesc(s, key), key)
  {
    if |s| > 0 {
      SortDescSorted(s[..|s| - 1], key);
      InsertSorted(SortDesc(s[..|s| - 1], key), s[|s| - 1], key);
    }
  }

  /** The position of the first element with the largest key. */
  function FirstMaxIndex<T>(s: seq<T>, key: T -> int): (i: nat)
    requires |s| > 0
    ensures i < |s|
    ensures forall j :: 0 <= j < |s| ==> key(s[j]) <= key(s[i])
    ensures forall j :: 0 <= j < i ==> key(s[j]) < key(s[i])
  {
    if |s| == 1 then 0
    else
      var i := FirstMaxIndex(s[..|s| - 1], key);
      if key(s[|s| - 1]) > key(s[i]) then |s| - 1 else i
  }

  /** The position of the last element with the smallest key. */
  function LastMinIndex<T>(s: seq<T>, key: T -> int): (i: nat)
    requires |s| > 0
    ensures i < |s|
    ensures forall j :: 0 <= j < |s| ==> key(s[j]) >= key(s[i])
    ensures forall j :: i < j < |s| ==> key(s[j]) > key(s[i])
  {
    if |s| == 1 then 0
    else
      var i := LastMinIndex(s[..|s| - 1], key);
      if key(s[|s| - 1]) <= key(s[i]) then |s| - 1 else i
  }

  /** The sort is stable at the front: it starts with the first element of
      largest key. */
  lemma {:induction false} SortDescHead<T>(s: seq<T>, key: T -> int)
    requires |s| > 0
    ensures SortDesc(s, key)[0] == s[FirstMaxIndex(s, key)]
  {
    if |s| > 1 {
      var p := s[..|s| - 1];
      SortDescHead(p, key);
      SortDescSorted(p, key);
      InsertSorted(SortDesc(p, key), s[|s| - 1], key);
    }
  }

  lemma {:induction false} InsertLast<T>(sorted: seq<T>, x: T, key: T -> int)
    requires SortedDesc(sorted, key) && |sorted| > 0
    ensures var r := Insert(sorted, x, key);
            r[|r| - 1] == (if key(x) <= key(sorted[|sorted| - 1]) then x else sorted[|sorted| - 1])
  {
    InsertAfterMin(sorted, x, key);
  }

  /** `InsertLast` needs only that the last key is the smallest. */
  lemma {:induction false} InsertAfterMin<T>(sorted: seq<T>, x: T, key: T -> int)
    requires |sorted| > 0
    requires forall i :: 0 <= i < |sorted| ==> key(sorted[|sorted| - 1]) <= key(sorted[i])
    ensures var r := Insert(sorted, x, key);
            r[|r| - 1] == (if key(x) <= key(sorted[|sorted| - 1]) then x else sorted[|sorted| - 1])
  {
    if key(sorted[0]) >= key(x) && |sorted| > 1 {
      var t := sorted[1..];
      assert forall i :: 0 <= i < |t| ==> t[i] == sorted[i + 1];
      InsertAfterMin(t, x, key);
    }
  }

  /** The sort is stable at the back: it ends with the last element of
      smallest key. */
  lemma {:induction false} SortDescLast<T>(s: seq<T>, key: T -> int)
    requires |s| > 0
    ensures SortDesc(s, key)[|s| - 1] == s[LastMinIndex(s, key)]
  {
    if |s| > 1 {
      var p, x := s[..|s| - 1], s[|s| - 1];
      var sp := SortDesc(p, key);
      SortDescLast(p, key);
      SortDescSorted(p, key);
      InsertLast(sp, x, key);
      assert SortDesc(s, key) == Insert(sp, x, key);
      var m := LastMinIndex(p, key);
      assert sp[|sp| - 1] == p[m] == s[m];
      assert LastMinIndex(s, key) == if key(x) <= key(p[m]) then |s| - 1 else m;
    }
  }

  function Take<T>(s: seq<T>, n: nat): (r: seq<T>)
    ensures |r| == if |s| < n then |s| else n
    ensures r == s[..|r|]
  {
    if |s| < n then s else s[..n]
  }

  // ---------------------------------------------------------------------
  // The ten most frequent words, the longest and shortest word

  function EntryCount(e: Entry): int { e.1 }

  function WordLength(w: string): int { |w| }

  /** `Array.from(wordFrequency.entries()).sort((a, b) => b[1] - a[1]).slice(0, 10)`. */
  function TopWords(entries: seq<Entry>): seq<Entry> {
    Take(SortDesc(entries, EntryCount), 10)
  }

  /** The top entries are at most ten entries of the map, most frequent
      first, and no entry left out is more frequent than any shown. */
  lemma {:induction false} TopWordsSpec(entries: seq<Entry>)
    ensures var top := TopWords(entries);
            && |top| == (if |entries| < 10 then |entries| else 10)
            && SortedDesc(top, EntryCount)
            && multiset(top) <= multiset(entries)
            && forall k, e :: 0 <= k < |top| && e in multiset(entries) - multiset(top) ==> e.1 <= top[k].1
  {
    var top := TopWords(entries);
    TakeOfSorted(entries, 10, EntryCount);
    forall k, e | 0 <= k < |top| && e in multiset(entries) - multiset(top)
      ensures e.1 <= top[k].1
    {
      assert EntryCount(e) <= EntryCount(top[k]);
    }
  }

  /** The first `n` elements of the sort are sorted, come from `s`, and
      nothing left out has a larger key than anything taken. */
  lemma {:induction false} TakeOfSorted<T>(s: seq<T>, n: nat, key: T -> int)
    ensures var r := Take(SortDesc(s, key), n);
            && SortedDesc(r, key)
            && multiset(r) <= multiset(s)
            && forall k, e :: 0 <= k < |r| && e in multiset(s) - multiset(r) ==> key(e) <= key(r[k])
  {
    var sorted := SortDesc(s, key);
    SortDescSorted(s, key);
    var r := Take(sorted, n);
    var m := |r|;
    assert r == sorted[..m];
    PrefixOfSorted(sorted, m, key);
    SplitMultiset(sorted, m);
    forall k, e | 0 <= k < m && e in multiset(s) - multiset(r)
      ensures key(e) <= key(r[k])
    {
      assert e in multiset(sorted[m..]);
    }
  }

  lemma {:induction false} SplitMultiset<T>(s: seq<T>, m: nat)
    requires m <= |s|
    ensures multiset(s) == multiset(s[..m]) + multiset(s[m..])
  {
    assert s == s[..m] + s[m..];
  }

  /** A prefix of a sorted sequence is sorted, and nothing after it has a
      larger key than anything in it. */
  lemma {:induction false} PrefixOfSorted<T>(sorted: seq<T>, n: nat, key: T -> int)
    requires SortedDesc(sorted, key) && n <= |sorted|
    ensures SortedDesc(sorted[..n], key)
    ensures forall k, e :: 0 <= k < n && e in sorted[n..] ==> key(e) <= key(sorted[k])
  {
    forall k, e | 0 <= k < n && e in sorted[n..]
      ensures key(e) <= key(sorted[k])
    {
      var j :| 0 <= j < |sorted| - n && sorted[n..][j] == e;
      assert sorted[n + j] == e;
    }
  }

  /** `words.sort((a, b) => b.length - a.length)[0]`. */
  function LongestWord(words: seq<string>): Option<string> {
    if |words| == 0 then None else Some(SortDesc(words, WordLength)[0])
  }

  /** The last element of the same sorted array. */
  function ShortestWord(words: seq<string>): Option<string> {
    if |words| == 0 then None else Some(SortDesc(words, WordLength)[|words| - 1])
  }

  /** The longest word is the first word of greatest length. */
  lemma {:induction false} LongestWordIsFirstLongest(words: seq<string>)
    ensures LongestWord(words).None? <==> words == []
    ensures words != [] ==>
              exists i :: 0 <= i < |words| && LongestWord(words).value == words[i]
                          && (forall j :: 0 <= j < |words| ==> |words[j]| <= |words[i]|)
                          && (forall j :: 0 <= j < i ==> |words[j]| < |words[i]|)
  {
    if words != [] {
      SortDescHead(words, WordLength);
      var i := FirstMaxIndex(words, WordLength);
      assert forall j :: 0 <= j < |words| ==> WordLength(words[j]) <= WordLength(words[i]);
    }
  }

  /** The shortest word is the last word of smallest length. */
  lemma {:induction false} ShortestWordIsLastShortest(words: seq<string>)
    ensures ShortestWord(words).None? <==> words == []
    ensures words != [] ==>
              exists i :: 0 <= i < |words| && ShortestWord(words).value == words[i]
                          && (forall j :: 0 <= j < |words| ==> |words[j]| >= |words[i]|)
                          && (forall j :: i < j < |words| ==> |words[j]| > |words[i]|)
  {
    if words != [] {
      SortDescLast(words, WordLength);
      var i := LastMinIndex(words, WordLength);
      assert forall j :: 0 <= j < |words| ==> WordLength(words[j]) >= WordLength(words[i]);
    }
  }

  // ---------------------------------------------------------------------
  // performAnalysis

  datatype Analysis = Analysis(
    lines: nat,
    words: nat,
    characters: nat,
    nonWhitespaceChars: nat,
    paragraphs: nat,
    duplicateCount: nat,
    wordFrequency: seq<Entry>,
    longestWord: Option<string>,
    shortestWord: Option<string>,
    avgWordLength: real)

  /** `characters / words.length`, or 0 without words: the whole text's
      length, whitespace included, over the number of words. */
  function AvgWordLengthAsWritten(text: string): real {
    Ratio(|text|, |Words(text)|)
  }

  /** `x / n`, or 0 when `n` is 0. */
  function Ratio(x: nat, n: nat): (r: real)
    ensures r >= 0.0
  {
    if n > 0 then (x as real) / (n as real) else 0.0
  }

  lemma {:induction false} RatioPlus(total: nat, x: nat, y: nat, n: nat)
    requires total == x + y
    ensures Ratio(total, n) == Ratio(x, n) + Ratio(y, n)
  {
  }

  /** The mean length of the words, or 0 without words. */
  function MeanWordLength(text: string): real {
    Ratio(|RemoveWhitespace(text)|, |Words(text)|)
  }

  /** The mean word length is the words' total length over their number. */
  lemma {:induction false} MeanWordLengthOfWords(text: string)
    ensures MeanWordLength(text) == Ratio(|Concat(Words(text))|, |Words(text)|)
  {
    WordsKeepText(text);
  }

  /** The figure `performAnalysis` reports exceeds the mean word length by
      the whitespace per word. */
  lemma {:induction false} AvgWordLengthCountsWhitespace(text: string)
    ensures AvgWordLengthAsWritten(text) == MeanWordLength(text) + Ratio(CountWhitespace(text), |Words(text)|)
  {
    var x, y, n := |RemoveWhitespace(text)|, CountWhitespace(text), |Words(text)|;
    RemoveWhitespaceLength(text);
    RatioPlus(|text|, x, y, n);
  }

  lemma {:induction false} WordsExample()
    ensures Words("a ") == ["a"]
  {
    var s := "a ";
    assert LeadingWhitespace(s) == 0;
    assert TrailingWhitespace(s) == 1 by {
      assert s[..1] == "a";
    }
    assert Trim(s) == "a";
    assert FirstWhitespace("a") == 1;
    assert SplitWhitespace("a") == ["a"];
    assert NonEmpty(["a"]) == ["a"] + NonEmpty([]);
  }

  /** For `"a "` the reported figure is 2 where the one word has length 1. */
  lemma {:induction false} AvgWordLengthExample()
    ensures AvgWordLengthAsWritten("a ") == 2.0 && MeanWordLength("a ") == 1.0
  {
    WordsExample();
    RemoveWhitespaceLength("a ");
    assert CountWhitespace("a ") == 1;
  }

  /** `performAnalysis(text)`. */
  method PerformAnalysis(text: string) returns (a: Analysis)
    ensures a.lines == Count(text, '\n') + 1
    ensures a.words == |Words(text)|
    ensures a.characters == |text|
    ensures a.nonWhitespaceChars == |RemoveWhitespace(text)|
    ensures a.paragraphs == ParagraphCount(text)
    ensures a.duplicateCount == DuplicateCount(Lines(text))
    ensures a.wordFrequency == TopWords(Frequencies(Words(text)))
    ensures a.longestWord == LongestWord(Words(text))
    ensures a.shortestWord == ShortestWord(Words(text))
    ensures a.avgWordLength == AvgWordLengthAsWritten(text)
  {
    var lines := Lines(text);
    var words := Words(text);
    var duplicateCount := CountDuplicates(lines);
    var frequency := WordFrequency(words);
    a := Analysis(
      |lines|,
      |words|,
      |text|,
      |RemoveWhitespace(text)|,
      ParagraphCount(text),
      duplicateCount,
      TopWords(frequency),
      LongestWord(words),
      ShortestWord(words),
      AvgWordLengthAsWritten(text));
  }
}
