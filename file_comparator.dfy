/** The file comparator (js/file-comparator.js): two file slots, the
    compare button that is enabled only when both are loaded, the rows of
    the rendered diff, and the added/removed character counts. Reading a
    file is asynchronous in the browser; here its outcome is a parameter,
    `None` for a failed read. */
module FileComparator {
  import opened Wrappers
  import opened Text
  import opened DiffSegments
  import HtmlEscape
  import EditDistance

  datatype File = File(name: string, content: string)

  // ---------------------------------------------------------------------
  // displayComparison

  /** One `diff-line` row: the operation (1 added, -1 removed) and one
      non-empty line of the escaped segment text. */
  datatype Row = Row(op: int, line: string)

  /** A row for each non-empty line. */
  function LineRows(op: int, lines: seq<string>): (rows: seq<Row>)
    ensures |rows| <= |lines|
    ensures forall k :: 0 <= k < |rows| ==> rows[k].op == op && rows[k].line != []
  {
    if |lines| == 0 then []
    else
      var last := lines[|lines| - 1];
      LineRows(op, lines[..|lines| - 1]) + (if last != [] then [Row(op, last)] else [])
  }

  predicate IsChange(op: int) {
    op == DIFF_INSERT || op == DIFF_DELETE
  }

  /** The rows of one segment: none for an equality, otherwise one per
      non-empty line of its escaped text. */
  function SegmentRows(seg: Segment): seq<Row> {
    if IsChange(seg.op) then LineRows(seg.op, SplitOn(HtmlEscape.EscapeHtml(seg.text), '\n')) else []
  }

  /** The rows `displayComparison` renders, in segment order. */
  function ChangedRows(ds: seq<Segment>): (rows: seq<Row>)
    ensures forall k :: 0 <= k < |rows| ==> IsChange(rows[k].op) && rows[k].line != []
  {
    if |ds| == 0 then [] else ChangedRows(ds[..|ds| - 1]) + SegmentRows(ds[|ds| - 1])
  }

  predicate OnlyNewlines(s: string) {
    forall k :: 0 <= k < |s| ==> s[k] == '\n'
  }

  /** `displayComparison(diffs)`: the rows, and whether the pane shows
      "Files are identical" because there are none. */
  method DisplayComparison(diffs: seq<Segment>) returns (rows: seq<Row>, identical: bool)
    ensures rows == ChangedRows(diffs)
    ensures identical <==> rows == []
  {
    rows := [];
    for i := 0 to |diffs|
      invariant rows == ChangedRows(diffs[..i])
    {
      assert diffs[..i + 1][..i] == diffs[..i];
      var seg := diffs[i];
      if IsChange(seg.op) {
        var lines := SplitOn(HtmlEscape.EscapeHtml(seg.text), '\n');
        var segRows: seq<Row> := [];
        for j := 0 to |lines|
          invariant segRows == LineRows(seg.op, lines[..j])
        {
          assert lines[..j + 1][..j] == lines[..j];
          if lines[j] != [] {
            segRows := segRows + [Row(seg.op, lines[j])];
          }
        }
        assert lines[..|lines|] == lines;
        rows := rows + segRows;
      }
    }
    assert diffs[..|diffs|] == diffs;
    identical := rows == [];
  }

  /** Every added or removed segment holds nothing but line breaks. */
  predicate ChangesOnlyNewlines(ds: seq<Segment>) {
    forall k :: 0 <= k < |ds| && IsChange(ds[k].op) ==> OnlyNewlines(ds[k].text)
  }

  predicate AllEmpty(parts: seq<string>) {
    forall k :: 0 <= k < |parts| ==> parts[k] == []
  }

  /** "Files are identical" is shown exactly when every added or removed
      segment holds nothing but line breaks. */
  lemma {:induction false} IdenticalIff(ds: seq<Segment>)
    ensures ChangedRows(ds) == [] <==> ChangesOnlyNewlines(ds)
  {
    if |ds| > 0 {
      IdenticalIff(ds[..|ds| - 1]);
      SegmentRowsEmptyIff(ds[|ds| - 1]);
      ChangesSnoc(ds);
    }
  }

  lemma {:induction false} ChangesSnoc(ds: seq<Segment>)
    requires |ds| > 0
    ensures var p, last := ds[..|ds| - 1], ds[|ds| - 1];
            && (ChangesOnlyNewlines(ds) <==> ChangesOnlyNewlines(p) && (IsChange(last.op) ==> OnlyNewlines(last.text)))
            && (ChangedRows(ds) == [] <==> ChangedRows(p) == [] && SegmentRows(last) == [])
  {
    var p := ds[..|ds| - 1];
    assert forall k :: 0 <= k < |p| ==> p[k] == ds[k];
  }

  /** A segment renders no row exactly when it is an equality or holds
      nothing but line breaks. */
  lemma {:induction false} SegmentRowsEmptyIff(seg: Segment)
    ensures SegmentRows(seg) == [] <==> (IsChange(seg.op) ==> OnlyNewlines(seg.text))
  {
    if IsChange(seg.op) {
      var escaped := HtmlEscape.EscapeHtml(seg.text);
      LineRowsEmptyIff(seg.op, SplitOn(escaped, '\n'));
      SplitEmptyIff(escaped);
      EscapeOnlyNewlines(seg.text);
    }
  }

  lemma {:induction false} LineRowsEmptyIff(op: int, lines: seq<string>)
    ensures LineRows(op, lines) == [] <==> AllEmpty(lines)
  {
    if |lines| > 0 {
      var p := lines[..|lines| - 1];
      LineRowsEmptyIff(op, p);
      assert forall k :: 0 <= k < |p| ==> p[k] == lines[k];
    }
  }

  /** Every piece of `s.split('\n')` is empty exactly when `s` holds only
      line breaks. */
  lemma {:induction false} SplitEmptyIff(s: string)
    ensures AllEmpty(SplitOn(s, '\n')) <==> OnlyNewlines(s)
    decreases |s|
  {
    var i := IndexOf(s, '\n');
    if i < |s| {
      var rest := s[i + 1..];
      SplitEmptyIff(rest);
      SplitOnUnfold(s, i);
      AllEmptyCons(s[..i], SplitOn(rest, '\n'));
      OnlyNewlinesAt(s, i);
    } else {
      assert SplitOn(s, '\n') == [s];
      assert s[..i] == s;
      if |s| > 0 {
        assert s[0] in s[..i];
        assert [s][0] == s;
      }
    }
  }

  lemma {:induction false} SplitOnUnfold(s: string, i: nat)
    requires i == IndexOf(s, '\n') && i < |s|
    ensures SplitOn(s, '\n') == [s[..i]] + SplitOn(s[i + 1..], '\n')
  {
  }

  lemma {:induction false} AllEmptyCons(w: string, parts: seq<string>)
    ensures AllEmpty([w] + parts) <==> w == [] && AllEmpty(parts)
  {
    assert ([w] + parts)[0] == w;
    assert forall k :: 0 <= k < |parts| ==> ([w] + parts)[k + 1] == parts[k];
  }

  /** A text cut at its first line break holds only line breaks exactly
      when the cut is at 0 and the rest holds only line breaks. */
  lemma {:induction false} OnlyNewlinesAt(s: string, i: nat)
    requires i == IndexOf(s, '\n') && i < |s|
    ensures OnlyNewlines(s) <==> s[..i] == [] && OnlyNewlines(s[i + 1..])
  {
    var rest := s[i + 1..];
    assert forall k :: 0 <= k < |rest| ==> rest[k] == s[i + 1 + k];
    if i > 0 {
      assert s[0] in s[..i];
    }
  }

  lemma {:induction false} OnlyNewlinesAppend(a: string, b: string)
    ensures OnlyNewlines(a + b) <==> OnlyNewlines(a) && OnlyNewlines(b)
  {
    var ab := a + b;
    assert forall k :: 0 <= k < |a| ==> ab[k] == a[k];
    assert forall k :: 0 <= k < |b| ==> ab[|a| + k] == b[k];
  }

  lemma {:induction false} EscapeCharNewline(c: char)
    ensures OnlyNewlines(HtmlEscape.EscapeChar(c)) <==> c == '\n'
    ensures OnlyNewlines([c]) <==> c == '\n'
  {
    var e := HtmlEscape.EscapeChar(c);
    assert e[0] == (if HtmlEscape.IsSpecial(c) then '&' else c);
    assert [c][0] == c;
  }

  /** Escaping keeps a text of line breaks as it is and adds no line break
      to any other text. */
  lemma {:induction false} EscapeOnlyNewlines(s: string)
    ensures OnlyNewlines(HtmlEscape.EscapeHtml(s)) <==> OnlyNewlines(s)
  {
    if |s| > 0 {
      EscapeOnlyNewlines(s[1..]);
      var head, tail := HtmlEscape.EscapeChar(s[0]), HtmlEscape.EscapeHtml(s[1..]);
      assert HtmlEscape.EscapeHtml(s) == head + tail;
      EscapeCharNewline(s[0]);
      OnlyNewlinesAppend(head, tail);
      OnlyNewlinesAppend([s[0]], s[1..]);
      assert s == [s[0]] + s[1..];
    }
  }

  // ---------------------------------------------------------------------
  // calculateComparationStats

  datatype Summary = Summary(added: nat, removed: nat, totalChars: nat, changePercentage: real, similarity: real)

  /** `(changedChars / totalChars) * 100`, or 0 for two empty files. */
  function ChangePercentage(changed: nat, total: nat): (r: real)
    ensures r >= 0.0
    ensures r == 0.0 <==> total == 0 || changed == 0
  {
    if total > 0 then (changed as real / total as real) * 100.0 else 0.0
  }

  function Max(a: nat, b: nat): nat {
    if a >= b then a else b
  }

  /** The summary of `diffs` between files `a` and `b`. */
  predicate Summarizes(s: Summary, diffs: seq<Segment>, a: File, b: File) {
    && s.added == LengthOf(diffs, DIFF_INSERT) && s.removed == LengthOf(diffs, DIFF_DELETE)
    && s.totalChars == Max(|a.content|, |b.content|)
    && s.changePercentage == ChangePercentage(s.added + s.removed, s.totalChars)
    && s.similarity == EditDistance.Similarity(a.content, b.content)
  }

  /** `calculateComparationStats(diffs)`: one pass summing the lengths of
      added and removed segments; equal segments are skipped. */
  method CalculateComparationStats(diffs: seq<Segment>, fileA: File, fileB: File) returns (s: Summary)
    ensures Summarizes(s, diffs, fileA, fileB)
  {
    var added, removed := 0, 0;
    for i := 0 to |diffs|
      invariant added == LengthOf(diffs[..i], DIFF_INSERT)
      invariant removed == LengthOf(diffs[..i], DIFF_DELETE)
    {
      assert diffs[..i + 1][..i] == diffs[..i];
      if diffs[i].op == DIFF_INSERT {
        added := added + |diffs[i].text|;
      } else if diffs[i].op == DIFF_DELETE {
        removed := removed + |diffs[i].text|;
      }
    }
    assert diffs[..|diffs|] == diffs;
    var total := Max(|fileA.content|, |fileB.content|);
    s := Summary(added, removed, total, ChangePercentage(added + removed, total),
                 EditDistance.Similarity(fileA.content, fileB.content));
  }

  /** For a diff of the two files, the removed characters come from file A
      and the added ones from file B, so at most twice the longer length
      changes: the percentage is at most 200. */
  lemma {:induction false} ChangeBounded(diffs: seq<Segment>, a: string, b: string)
    requires Reconstructs(diffs, a, b)
    ensures LengthOf(diffs, DIFF_DELETE) <= |a| && LengthOf(diffs, DIFF_INSERT) <= |b|
    ensures ChangePercentage(LengthOf(diffs, DIFF_INSERT) + LengthOf(diffs, DIFF_DELETE), Max(|a|, |b|)) <= 200.0
  {
    CountsMeasureTexts(diffs, a, b);
    var changed, total := LengthOf(diffs, DIFF_INSERT) + LengthOf(diffs, DIFF_DELETE), Max(|a|, |b|);
    if total > 0 {
      RatioAtMostTwo(changed as real, total as real);
    }
  }

  lemma {:induction false} RatioAtMostTwo(x: real, y: real)
    requires y > 0.0 && x <= 2.0 * y
    ensures (x / y) * 100.0 <= 200.0
  {
    assert x / y <= 2.0;
  }

  // ---------------------------------------------------------------------
  // The tool

  class FileComparatorModule {
    var fileA: Option<File>
    var fileB: Option<File>
    /** The `disabled` state of the compare button. */
    var compareDisabled: bool
    /** What `displayFileInfo` shows for each slot: name and length. */
    var fileAInfo: Option<(string, nat)>
    var fileBInfo: Option<(string, nat)>
    /** The rendered rows, and whether "Files are identical" is shown. */
    var result: Option<(seq<Row>, bool)>
    var summary: Option<Summary>

    ghost predicate Valid()
      reads this
    {
      compareDisabled <==> fileA.None? || fileB.None?
    }

    constructor()
      ensures Valid()
      ensures fileA.None? && fileB.None? && compareDisabled
      ensures fileAInfo.None? && fileBInfo.None? && result.None? && summary.None?
    {
      fileA := None;
      fileB := None;
      compareDisabled := true;
      fileAInfo := None;
      fileBInfo := None;
      result := None;
      summary := None;
    }

    /** `updateCompareButton()`. */
    method UpdateCompareButton()
      modifies this
      ensures Valid()
      ensures fileA == old(fileA) && fileB == old(fileB) && fileAInfo == old(fileAInfo) && fileBInfo == old(fileBInfo)
      ensures result == old(result) && summary == old(summary)
    {
      compareDisabled := fileA.None? || fileB.None?;
    }

    /** `handleFileUpload(file, target)`: a successful read fills slot A
        for the target `'fileA'` and slot B for any other target; a failed
        read changes nothing. */
    method HandleFileUpload(name: string, content: Option<string>, target: string)
      requires Valid()
      modifies this
      ensures Valid()
      ensures content.None? ==>
                fileA == old(fileA) && fileB == old(fileB) && compareDisabled == old(compareDisabled)
                && fileAInfo == old(fileAInfo) && fileBInfo == old(fileBInfo)
      ensures content.Some? && target == "fileA" ==>
                fileA == Some(File(name, content.value)) && fileB == old(fileB)
                && fileAInfo == Some((name, |content.value|)) && fileBInfo == old(fileBInfo)
      ensures content.Some? && target != "fileA" ==>
                fileB == Some(File(name, content.value)) && fileA == old(fileA)
                && fileBInfo == Some((name, |content.value|)) && fileAInfo == old(fileAInfo)
      ensures result == old(result) && summary == old(summary)
    {
      if content.Some? {
        var file := File(name, content.value);
        if target == "fileA" {
          fileA := Some(file);
          fileAInfo := Some((name, |content.value|));
        } else {
          fileB := Some(file);
          fileBInfo := Some((name, |content.value|));
        }
        UpdateCompareButton();
      }
    }

    /** `compareFiles()`: with both files loaded, diff their contents and
        render the rows and the summary; otherwise only a toast. */
    method CompareFiles(diffMain: (string, string, bool) -> seq<Segment>, cleanup: seq<Segment> -> seq<Segment>)
      requires Valid()
      modifies this
      ensures Valid()
      ensures fileA == old(fileA) && fileB == old(fileB) && compareDisabled == old(compareDisabled)
      ensures fileAInfo == old(fileAInfo) && fileBInfo == old(fileBInfo)
      ensures fileA.None? || fileB.None? ==> result == old(result) && summary == old(summary)
      ensures fileA.Some? && fileB.Some? ==>
                var diffs := cleanup(diffMain(fileA.value.content, fileB.value.content, true));
                && result == Some((ChangedRows(diffs), ChangedRows(diffs) == []))
                && summary.Some? && Summarizes(summary.value, diffs, fileA.value, fileB.value)
    {
      if fileA.None? || fileB.None? {
        return;
      }
      var a, b := fileA.value, fileB.value;
      var diffs := cleanup(diffMain(a.content, b.content, true));
      var rows, identical := DisplayComparison(diffs);
      result := Some((rows, identical));
      var s := CalculateComparationStats(diffs, a, b);
      summary := Some(s);
    }

    /** `clearFiles()`: both slots and every pane emptied, the button
        disabled. */
    method ClearFiles()
      modifies this
      ensures Valid()
      ensures fileA.None? && fileB.None? && compareDisabled
      ensures fileAInfo.None? && fileBInfo.None? && result.None? && summary.None?
    {
      fileA := None;
      fileB := None;
      fileAInfo := None;
      fileBInfo := None;
      result := None;
      summary := None;
      UpdateCompareButton();
    }
  }
}
