/** The line-mode step that `performDiff` (js/diff-viewer.js:96-98) leaves
    out: each distinct line is replaced by one placeholder character before
    the character diff, and every placeholder is expanded back to its line
    afterwards. Nothing in js/diff-viewer.js performs the expansion; this
    module is the intended behaviour against which that gap is stated. */
module LineTokens {
  import opened Text
  import opened DiffSegments

  /** The largest number of placeholders: one `char` below the surrogate
      range for each table entry. */
  const MaxTokens: nat := 0xD800

  /** The end of the line that starts at `j`: just past its `'\n'`, or
      the end of `s`. */
  function LineEnd(s: string, j: nat): (e: nat)
    requires j <= |s|
    ensures j <= e <= |s| && (j < |s| ==> j < e)
    decreases |s| - j
  {
    if j == |s| then j else if s[j] == '\n' then j + 1 else LineEnd(s, j + 1)
  }

  /** The lines of `s[j..]`. */
  function LinesFrom(s: string, j: nat): (lines: seq<string>)
    requires j <= |s|
    ensures |lines| <= |s| - j
    ensures forall k :: 0 <= k < |lines| ==> lines[k] != []
    decreases |s| - j
  {
    if j == |s| then [] else var e := LineEnd(s, j); [s[j..e]] + LinesFrom(s, e)
  }

  /** `s` cut after every `'\n'`: each line keeps its terminator, the last
      one may have none. */
  function SplitLines(s: string): (lines: seq<string>)
    ensures |lines| <= |s|
    ensures forall k :: 0 <= k < |lines| ==> lines[k] != []
  {
    LinesFrom(s, 0)
  }

  /** The lines of `s[j..]` joined back together are `s[j..]`. */
  lemma {:induction false} ConcatLinesFrom(s: string, j: nat)
    requires j <= |s|
    ensures Concat(LinesFrom(s, j)) == s[j..]
    decreases |s| - j
  {
    if j < |s| {
      var e := LineEnd(s, j);
      ConcatLinesFrom(s, e);
      ConcatCons(s[j..e], LinesFrom(s, e));
      assert s[j..] == s[j..e] + s[e..];
    }
  }

  /** Joining the lines gives back the text. */
  lemma {:induction false} ConcatSplitLines(s: string)
    ensures Concat(SplitLines(s)) == s
  {
    ConcatLinesFrom(s, 0);
    assert s[0..] == s;
  }

  predicate Distinct(table: seq<string>) {
    forall i, j :: 0 <= i < j < |table| ==> table[i] != table[j]
  }

  /** The placeholder of table entry `i`. */
  function TokenChar(i: nat): char
    requires i < MaxTokens
  {
    i as char
  }

  /** The position of `line` in `table`, or `|table|`. */
  function Find(table: seq<string>, line: string): (i: nat)
    ensures i <= |table|
    ensures i < |table| ==> table[i] == line
    ensures i == |table| ==> line !in table
  {
    if |table| == 0 then 0
    else
      var i := Find(table[..|table| - 1], line);
      if i < |table| - 1 then i
      else if table[|table| - 1] == line then |table| - 1
      else |table|
  }

  /** Placeholders for `lines`, extending `table` with each line not seen
      before. */
  function Encode(lines: seq<string>, table: seq<string>): (r: (string, seq<string>))
    requires Distinct(table) && |table| + |lines| <= MaxTokens
    ensures var (tokens, table') := r;
            && |tokens| == |lines|
            && |table| <= |table'| <= |table| + |lines|
            && table'[..|table|] == table
            && Distinct(table')
            && (forall k :: 0 <= k < |tokens| ==> tokens[k] as int < |table'| && table'[tokens[k] as int] == lines[k])
    decreases |lines|
  {
    if |lines| == 0 then ([], table)
    else
      var i := Find(table, lines[0]);
      var table1 := if i < |table| then table else table + [lines[0]];
      TableExtend(table, lines[0], i, table1);
      var (rest, table') := Encode(lines[1..], table1);
      EncodeStep(lines, table, i, table1, rest, table');
      ([TokenChar(i)] + rest, table')
  }

  /** The table after the first line: unchanged when the line is in it,
      else the line appended. */
  lemma {:induction false} TableExtend(table: seq<string>, line: string, i: nat, table1: seq<string>)
    requires Distinct(table) && i <= |table|
    requires i < |table| ==> table[i] == line
    requires i == |table| ==> line !in table
    requires table1 == if i < |table| then table else table + [line]
    ensures Distinct(table1) && |table1| <= |table| + 1 && table1[..|table|] == table
    ensures i < |table1| && table1[i] == line
  {
  }

  lemma {:induction false} EncodeStep(lines: seq<string>, table: seq<string>, i: nat, table1: seq<string>,
                                      rest: string, table': seq<string>)
    requires |lines| > 0 && i < MaxTokens && |table| <= |table1| <= |table| + 1
    requires table1[..|table|] == table && i < |table1| && table1[i] == lines[0]
    requires |rest| == |lines| - 1
    requires |table1| <= |table'| <= |table1| + |lines| - 1
    requires table'[..|table1|] == table1 && Distinct(table')
    requires forall k :: 0 <= k < |rest| ==> rest[k] as int < |table'| && table'[rest[k] as int] == lines[1..][k]
    ensures var tokens := [TokenChar(i)] + rest;
            && |tokens| == |lines|
            && |table| <= |table'| <= |table| + |lines|
            && table'[..|table|] == table
            && (forall k :: 0 <= k < |tokens| ==> tokens[k] as int < |table'| && table'[tokens[k] as int] == lines[k])
  {
    var tokens := [TokenChar(i)] + rest;
    assert table'[..|table|] == table'[..|table1|][..|table|];
    assert table'[i] == table'[..|table1|][i];
    forall k | 0 < k < |tokens|
      ensures tokens[k] == rest[k - 1] && lines[k] == lines[1..][k - 1]
    {
    }
  }

  /** Every placeholder replaced by its line; any other character kept. */
  function Expand(tokens: string, table: seq<string>): string {
    if |tokens| == 0 then []
    else
      var last := tokens[|tokens| - 1];
      Expand(tokens[..|tokens| - 1], table) + (if last as int < |table| then table[last as int] else [last])
  }

  lemma {:induction false} ExpandAppend(a: string, b: string, table: seq<string>)
    ensures Expand(a + b, table) == Expand(a, table) + Expand(b, table)
  {
    if |b| == 0 {
      assert a + b == a;
    } else {
      var front, last := b[..|b| - 1], b[|b| - 1];
      assert (a + b)[..|a + b| - 1] == a + front && (a + b)[|a + b| - 1] == last;
      ExpandAppend(a, front, table);
      AppendAssoc(Expand(a, table), Expand(front, table), if last as int < |table| then table[last as int] else [last]);
    }
  }

  /** Expanding the placeholders of `lines` gives back their text. */
  lemma {:induction false} ExpandEncode(lines: seq<string>, table: seq<string>)
    requires Distinct(table) && |table| + |lines| <= MaxTokens
    ensures Expand(Encode(lines, table).0, Encode(lines, table).1) == Concat(lines)
  {
    var (tokens, table') := Encode(lines, table);
    ExpandTokens(tokens, lines, table');
  }

  lemma {:induction false} ExpandTokens(tokens: string, lines: seq<string>, table: seq<string>)
    requires |tokens| == |lines|
    requires forall k :: 0 <= k < |tokens| ==> tokens[k] as int < |table| && table[tokens[k] as int] == lines[k]
    ensures Expand(tokens, table) == Concat(lines)
  {
    if |tokens| > 0 {
      ExpandTokens(tokens[1..], lines[1..], table);
      assert tokens == [tokens[0]] + tokens[1..];
      ExpandAppend([tokens[0]], tokens[1..], table);
      assert Expand([tokens[0]], table) == Expand([], table) + table[tokens[0] as int];
    }
  }

  /** Identical lines get identical placeholders, different lines
      different ones. */
  lemma {:induction false} EncodeBijective(lines: seq<string>, table: seq<string>, j: nat, k: nat)
    requires Distinct(table) && |table| + |lines| <= MaxTokens
    requires j < |lines| && k < |lines|
    ensures var tokens := Encode(lines, table).0;
            tokens[j] == tokens[k] <==> lines[j] == lines[k]
  {
    var (tokens, table') := Encode(lines, table);
    var a, b := tokens[j] as int, tokens[k] as int;
    assert table'[a] == lines[j] && table'[b] == lines[k];
    if lines[j] == lines[k] {
      assert table'[a] == table'[b];
    }
  }

  /** `diff_linesToChars_(text1, text2)`: the placeholder strings of both
      texts over one table shared by the two. */
  function LinesToChars(text1: string, text2: string): (r: (string, string, seq<string>))
    requires |text1| + |text2| <= MaxTokens
  {
    var (chars1, table1) := Encode(SplitLines(text1), []);
    var (chars2, table) := Encode(SplitLines(text2), table1);
    (chars1, chars2, table)
  }

  /** Both placeholder strings expand back to their texts over the shared
      table. */
  lemma {:induction false} ExpandLinesToChars(text1: string, text2: string)
    requires |text1| + |text2| <= MaxTokens
    ensures var (chars1, chars2, table) := LinesToChars(text1, text2);
            Expand(chars1, table) == text1 && Expand(chars2, table) == text2
  {
    var lines1, lines2 := SplitLines(text1), SplitLines(text2);
    var (chars1, table1) := Encode(lines1, []);
    var (chars2, table) := Encode(lines2, table1);
    ExpandEncode(lines2, table1);
    ConcatSplitLines(text2);
    ExpandTokens(chars1, lines1, table) by {
      forall k | 0 <= k < |chars1|
        ensures chars1[k] as int < |table| && table[chars1[k] as int] == lines1[k]
      {
        assert table[..|table1|][chars1[k] as int] == table1[chars1[k] as int];
      }
    }
    ConcatSplitLines(text1);
  }

  // ---------------------------------------------------------------------
  // Expanding a diff of placeholders

  function ExpandSegments(ds: seq<Segment>, table: seq<string>): (r: seq<Segment>)
    ensures |r| == |ds|
    ensures forall k :: 0 <= k < |ds| ==> r[k] == Segment(ds[k].op, Expand(ds[k].text, table))
  {
    if |ds| == 0 then [] else ExpandSegments(ds[..|ds| - 1], table) + [Segment(ds[|ds| - 1].op, Expand(ds[|ds| - 1].text, table))]
  }

  lemma {:induction false} ExpandSource(ds: seq<Segment>, table: seq<string>)
    ensures SourceText(ExpandSegments(ds, table)) == Expand(SourceText(ds), table)
    ensures TargetText(ExpandSegments(ds, table)) == Expand(TargetText(ds), table)
  {
    if |ds| > 0 {
      var ds' := ds[..|ds| - 1];
      ExpandSource(ds', table);
      assert ExpandSegments(ds, table)[..|ds| - 1] == ExpandSegments(ds', table);
      var last := ds[|ds| - 1];
      ExpandAppend(SourceText(ds'), if last.op == DIFF_EQUAL || last.op == DIFF_DELETE then last.text else [], table);
      ExpandAppend(TargetText(ds'), if last.op == DIFF_EQUAL || last.op == DIFF_INSERT then last.text else [], table);
    }
  }

  /** A diff of the placeholder strings, expanded, is a diff of the texts. */
  lemma {:induction false} ExpandReconstructs(ds: seq<Segment>, chars1: string, chars2: string, table: seq<string>)
    requires Reconstructs(ds, chars1, chars2)
    ensures Reconstructs(ExpandSegments(ds, table), Expand(chars1, table), Expand(chars2, table))
  {
    ExpandSource(ds, table);
  }

  /** Line mode as intended: tokenise, diff the placeholders without line
      checking, clean up, expand. The result is a diff of the two texts. */
  function LineModeDiff(text1: string, text2: string,
                        diffMain: (string, string, bool) -> seq<Segment>,
                        cleanup: seq<Segment> -> seq<Segment>): (ds: seq<Segment>)
    requires |text1| + |text2| <= MaxTokens
    requires DiffMainReconstructs(diffMain) && CleanupPreserves(cleanup)
    ensures Reconstructs(ds, text1, text2)
  {
    var (chars1, chars2, table) := LinesToChars(text1, text2);
    var raw := cleanup(diffMain(chars1, chars2, false));
    ExpandReconstructs(raw, chars1, chars2, table);
    ExpandLinesToChars(text1, text2);
    ExpandSegments(raw, table)
  }

  /** A diff of the placeholder strings, left unexpanded as `performDiff`
      leaves it, counts one per line rather than one per character. */
  lemma {:induction false} LineModeCountsLines(ds: seq<Segment>, text1: string, text2: string)
    requires |text1| + |text2| <= MaxTokens
    requires Reconstructs(ds, LinesToChars(text1, text2).0, LinesToChars(text1, text2).1)
    ensures UnchangedLength(ds) + LengthOf(ds, DIFF_DELETE) == |SplitLines(text1)|
    ensures UnchangedLength(ds) + LengthOf(ds, DIFF_INSERT) == |SplitLines(text2)|
  {
    CountsMeasureTexts(ds, LinesToChars(text1, text2).0, LinesToChars(text1, text2).1);
  }

  /** `"a\nb\nc"` has three lines but five characters: line mode as
      written reports 3 where the character count is 5. */
  lemma {:induction false} LineModeCountExample()
    ensures |SplitLines("a\nb\nc")| == 3 && |"a\nb\nc"| == 5
  {
    var s := "a\nb\nc";
    assert LineEnd(s, 4) == 5 && LineEnd(s, 2) == 4 && LineEnd(s, 0) == 2;
    assert |LinesFrom(s, 4)| == 1;
    assert |LinesFrom(s, 2)| == 2;
  }

  /** The intended line mode counts characters: `unchanged + removed` is
      the length of the left text, `unchanged + added` of the right one. */
  lemma {:induction false} LineModeDiffCounts(text1: string, text2: string,
                           diffMain: (string, string, bool) -> seq<Segment>,
                           cleanup: seq<Segment> -> seq<Segment>)
    requires |text1| + |text2| <= MaxTokens
    requires DiffMainReconstructs(diffMain) && CleanupPreserves(cleanup)
    ensures var ds := LineModeDiff(text1, text2, diffMain, cleanup);
            && UnchangedLength(ds) + LengthOf(ds, DIFF_DELETE) == |text1|
            && UnchangedLength(ds) + LengthOf(ds, DIFF_INSERT) == |text2|
  {
    CountsMeasureTexts(LineModeDiff(text1, text2, diffMain, cleanup), text1, text2);
  }
}
