/** The `[type, text]` pairs `diff_match_patch` returns, shared by the diff
    viewer, the file comparator and the terminal's `diff` command: `-1`
    deletes `text` from the left operand, `1` inserts it into the right
    one, `0` keeps it in both. */
module DiffSegments {

  const DIFF_DELETE: int := -1
  const DIFF_INSERT: int := 1
  const DIFF_EQUAL: int := 0

  datatype Segment = Segment(op: int, text: string)

  /** Every segment carries one of the three operations. */
  predicate WellTyped(ds: seq<Segment>) {
    forall i :: 0 <= i < |ds| ==> ds[i].op in {DIFF_DELETE, DIFF_INSERT, DIFF_EQUAL}
  }

  /** The text of the `Equal` and `Delete` segments, in order. */
  function SourceText(ds: seq<Segment>): string {
    if |ds| == 0 then []
    else
      var last := ds[|ds| - 1];
      SourceText(ds[..|ds| - 1]) + (if last.op == DIFF_EQUAL || last.op == DIFF_DELETE then last.text else [])
  }

  /** The text of the `Equal` and `Insert` segments, in order. */
  function TargetText(ds: seq<Segment>): string {
    if |ds| == 0 then []
    else
      var last := ds[|ds| - 1];
      TargetText(ds[..|ds| - 1]) + (if last.op == DIFF_EQUAL || last.op == DIFF_INSERT then last.text else [])
  }

  /** The reconstruction invariant of a diff of `a` against `b`. */
  predicate Reconstructs(ds: seq<Segment>, a: string, b: string) {
    WellTyped(ds) && SourceText(ds) == a && TargetText(ds) == b
  }

  /** What the external `diff_main(a, b, checklines)` promises. */
  ghost predicate DiffMainReconstructs(diffMain: (string, string, bool) -> seq<Segment>) {
    forall a, b, checklines :: Reconstructs(diffMain(a, b, checklines), a, b)
  }

  /** What the external `diff_cleanupSemantic` promises: it rearranges the
      segments without changing what they reconstruct. */
  ghost predicate CleanupPreserves(cleanup: seq<Segment> -> seq<Segment>) {
    forall ds, a, b :: Reconstructs(ds, a, b) ==> Reconstructs(cleanup(ds), a, b)
  }

  /** A diff of `a` and `b`, cleaned up, still reconstructs them. */
  lemma {:induction false} CleanDiffReconstructs(diffMain: (string, string, bool) -> seq<Segment>,
                                                 cleanup: seq<Segment> -> seq<Segment>,
                                                 a: string, b: string, checklines: bool)
    requires DiffMainReconstructs(diffMain) && CleanupPreserves(cleanup)
    ensures Reconstructs(cleanup(diffMain(a, b, checklines)), a, b)
  {
    assert Reconstructs(diffMain(a, b, checklines), a, b);
  }

  // ---------------------------------------------------------------------
  // Character counts

  /** The summed length of the segments with operation `op`. */
  function LengthOf(ds: seq<Segment>, op: int): nat {
    if |ds| == 0 then 0
    else LengthOf(ds[..|ds| - 1], op) + (if ds[|ds| - 1].op == op then |ds[|ds| - 1].text| else 0)
  }

  /** The summed length of the segments that are neither insertions nor
      deletions. */
  function UnchangedLength(ds: seq<Segment>): nat {
    if |ds| == 0 then 0
    else
      var last := ds[|ds| - 1];
      UnchangedLength(ds[..|ds| - 1]) + (if last.op != DIFF_INSERT && last.op != DIFF_DELETE then |last.text| else 0)
  }

  /** The total length of all segment texts. */
  function TotalLength(ds: seq<Segment>): nat {
    if |ds| == 0 then 0 else TotalLength(ds[..|ds| - 1]) + |ds[|ds| - 1].text|
  }

  /** Every character is counted exactly once. */
  lemma {:induction false} CountsPartition(ds: seq<Segment>)
    ensures LengthOf(ds, DIFF_INSERT) + LengthOf(ds, DIFF_DELETE) + UnchangedLength(ds) == TotalLength(ds)
  {
    if |ds| > 0 {
      CountsPartition(ds[..|ds| - 1]);
    }
  }

  /** The kept and deleted characters make up the left text. */
  lemma {:induction false} SourceLength(ds: seq<Segment>)
    requires WellTyped(ds)
    ensures |SourceText(ds)| == UnchangedLength(ds) + LengthOf(ds, DIFF_DELETE)
  {
    if |ds| > 0 {
      SourceLength(ds[..|ds| - 1]);
    }
  }

  /** The kept and inserted characters make up the right text. */
  lemma {:induction false} TargetLength(ds: seq<Segment>)
    requires WellTyped(ds)
    ensures |TargetText(ds)| == UnchangedLength(ds) + LengthOf(ds, DIFF_INSERT)
  {
    if |ds| > 0 {
      TargetLength(ds[..|ds| - 1]);
    }
  }

  /** Under the reconstruction invariant, the counts measure the two
      texts: `unchanged + removed = |a|` and `unchanged + added = |b|`. */
  lemma {:induction false} CountsMeasureTexts(ds: seq<Segment>, a: string, b: string)
    requires Reconstructs(ds, a, b)
    ensures UnchangedLength(ds) + LengthOf(ds, DIFF_DELETE) == |a|
    ensures UnchangedLength(ds) + LengthOf(ds, DIFF_INSERT) == |b|
  {
    SourceLength(ds);
    TargetLength(ds);
  }
}
