/** `DevFusionUtils.getEditDistance` and `DevFusionUtils.calculateSimilarity`
    (js/utils.js). Strings are compared character by character. */
module EditDistance {

  function Min3(a: int, b: int, c: int): int {
    if a <= b && a <= c then a else if b <= c then b else c
  }

  /** The Levenshtein distance: the Wagner-Fischer recurrence over the
      prefixes of `s` and `t` (insertion, deletion and substitution each
      cost 1; keeping an equal character costs 0). */
  function Lev(s: string, t: string): nat
    decreases |s| + |t|
  {
    if |s| == 0 then |t|
    else if |t| == 0 then |s|
    else
      var cost := if s[|s| - 1] == t[|t| - 1] then 0 else 1;
      Min3(Lev(s[..|s| - 1], t[..|t| - 1]) + cost,
           Lev(s[..|s| - 1], t) + 1,
           Lev(s, t[..|t| - 1]) + 1)
  }

  /** The distance is never below the difference of the lengths. */
  lemma {:induction false} LevLowerBound(s: string, t: string)
    ensures Lev(s, t) >= |s| - |t| && Lev(s, t) >= |t| - |s|
    decreases |s| + |t|
  {
    if |s| > 0 && |t| > 0 {
      LevLowerBound(s[..|s| - 1], t[..|t| - 1]);
      LevLowerBound(s[..|s| - 1], t);
      LevLowerBound(s, t[..|t| - 1]);
    }
  }

  /** The distance is at most the length of the longer string. */
  lemma {:induction false} LevUpperBound(s: string, t: string)
    ensures Lev(s, t) <= if |s| >= |t| then |s| else |t|
    decreases |s| + |t|
  {
    if |s| > 0 && |t| > 0 {
      LevUpperBound(s[..|s| - 1], t[..|t| - 1]);
    }
  }

  /** The distance is symmetric. */
  lemma {:induction false} LevSymmetric(s: string, t: string)
    ensures Lev(s, t) == Lev(t, s)
    decreases |s| + |t|
  {
    if |s| > 0 && |t| > 0 {
      LevSymmetric(s[..|s| - 1], t[..|t| - 1]);
      LevSymmetric(s[..|s| - 1], t);
      LevSymmetric(s, t[..|t| - 1]);
    }
  }

  /** The distance is zero exactly between equal strings. */
  lemma {:induction false} LevZeroIffEqual(s: string, t: string)
    ensures Lev(s, t) == 0 <==> s == t
    decreases |s| + |t|
  {
    if |s| > 0 && |t| > 0 {
      var s', t' := s[..|s| - 1], t[..|t| - 1];
      LevZeroIffEqual(s', t');
      assert s == s' + [s[|s| - 1]] && t == t' + [t[|t| - 1]];
      if s == t {
        assert s' == t';
      }
    }
  }

  /** Dropping the last character of the second string raises the
      distance by at most one. */
  lemma {:induction false} LevDropLastRight(s: string, t: string)
    requires |t| > 0
    ensures Lev(s, t[..|t| - 1]) <= Lev(s, t) + 1
    decreases |s| + |t|
  {
    var t' := t[..|t| - 1];
    if |s| == 0 {
    } else if |t'| == 0 {
      LevLowerBound(s, t);
    } else {
      var s' := s[..|s| - 1];
      LevDropLastRight(s', t);
      assert Lev(s, t') <= Lev(s', t') + 1;
    }
  }

  /** Dropping the last character of the first string raises the distance
      by at most one. */
  lemma {:induction false} LevDropLastLeft(s: string, t: string)
    requires |s| > 0
    ensures Lev(s[..|s| - 1], t) <= Lev(s, t) + 1
  {
    LevDropLastRight(t, s);
    LevSymmetric(s, t);
    LevSymmetric(s[..|s| - 1], t);
  }

  /** When the last characters agree, the recurrence's minimum is the
      diagonal entry: the shortcut `getEditDistance` takes. */
  lemma {:induction false} LevMatchIsDiagonal(s: string, t: string)
    requires |s| > 0 && |t| > 0 && s[|s| - 1] == t[|t| - 1]
    ensures Lev(s, t) == Lev(s[..|s| - 1], t[..|t| - 1])
  {
    LevDropLastRight(s[..|s| - 1], t);
    LevDropLastLeft(s, t[..|t| - 1]);
  }

  /** Entry `(i, k)` of the distance matrix of `s1` and `s2`. */
  ghost function Cell(s1: string, s2: string, i: nat, k: nat): nat
    requires i <= |s1| && k <= |s2|
  {
    Lev(s1[..i], s2[..k])
  }

  /** One cell of the matrix from its three neighbours, with the shortcut
      `getEditDistance` takes when the characters agree. */
  lemma {:induction false} CellStep(s1: string, s2: string, i: nat, j: nat)
    requires 0 < i <= |s1| && 0 < j <= |s2|
    ensures s1[i - 1] == s2[j - 1] ==> Cell(s1, s2, i, j) == Cell(s1, s2, i - 1, j - 1)
    ensures s1[i - 1] != s2[j - 1] ==>
              Cell(s1, s2, i, j) ==
              Min3(Cell(s1, s2, i - 1, j - 1), Cell(s1, s2, i, j - 1), Cell(s1, s2, i - 1, j)) + 1
  {
    var a, b := s1[..i], s2[..j];
    assert a[..i - 1] == s1[..i - 1];
    assert b[..j - 1] == s2[..j - 1];
    if s1[i - 1] == s2[j - 1] {
      LevMatchIsDiagonal(a, b);
    }
  }

  /** The first row and column of the matrix. */
  lemma {:induction false} CellBorder(s1: string, s2: string, i: nat, k: nat)
    requires i <= |s1| && k <= |s2|
    ensures Cell(s1, s2, 0, k) == k && Cell(s1, s2, i, 0) == i
  {
  }

  /** `getEditDistance(s1, s2)`: the full distance matrix is computed row by
      row in a single array `costs`, overwritten in place, with the entry to
      the left of the current cell kept in `lastValue`. */
  method GetEditDistance(s1: string, s2: string) returns (d: nat)
    ensures d == Lev(s1, s2)
  {
    var n := |s2|;
    var costs := new nat[n + 1];
    for i := 0 to |s1| + 1
      invariant i > 0 ==> forall k :: 0 <= k <= n ==> costs[k] == Cell(s1, s2, i - 1, k)
    {
      var lastValue: nat := i;
      for j := 0 to n + 1
        invariant i == 0 ==> forall k :: 0 <= k < j ==> costs[k] == Cell(s1, s2, 0, k)
        invariant i > 0 ==> lastValue == Cell(s1, s2, i, if j == 0 then 0 else j - 1)
        invariant i > 0 ==> forall k :: 0 <= k < j - 1 ==> costs[k] == Cell(s1, s2, i, k)
        invariant i > 0 ==> forall k :: j - 1 <= k <= n && 0 <= k ==> costs[k] == Cell(s1, s2, i - 1, k)
      {
        CellBorder(s1, s2, i, j);
        if i == 0 {
          costs[j] := j;
        } else if j > 0 {
          var newValue := costs[j - 1];
          CellStep(s1, s2, i, j);
          if s1[i - 1] != s2[j - 1] {
            newValue := Min3(newValue, lastValue, costs[j]) + 1;
          }
          costs[j - 1] := lastValue;
          lastValue := newValue;
        }
      }
      if i > 0 {
        costs[n] := lastValue;
      }
    }
    d := costs[n];
    assert s1[..|s1|] == s1 && s2[..n] == s2;
  }

  /** `calculateSimilarity(str1, str2)`: the percentage of the longer
      string left untouched by the edit distance, or 100 when both strings
      are empty. */
  function Similarity(s1: string, s2: string): (r: real)
    ensures 0.0 <= r <= 100.0
  {
    var longer := if |s1| > |s2| then s1 else s2;
    var shorter := if |s1| > |s2| then s2 else s1;
    if |longer| == 0 then 100.0
    else
      LevUpperBound(longer, shorter);
      Percentage(|longer| - Lev(longer, shorter), |longer|)
  }

  /** `part / whole * 100` on exact rationals. */
  function Percentage(part: nat, whole: nat): (r: real)
    requires 0 < whole && part <= whole
    ensures 0.0 <= r <= 100.0
    ensures r == 100.0 <==> part == whole
    ensures r == 0.0 <==> part == 0
  {
    (part as real / whole as real) * 100.0
  }

  /** Whichever argument is longer, the similarity is the share of the
      longer length not covered by the distance between the two strings. */
  lemma {:induction false} SimilarityFromDistance(s1: string, s2: string)
    requires |s1| + |s2| > 0
    ensures var m := if |s1| >= |s2| then |s1| else |s2|;
            Lev(s1, s2) <= m && Similarity(s1, s2) == Percentage(m - Lev(s1, s2), m)
  {
    LevSymmetric(s1, s2);
    LevUpperBound(s1, s2);
  }

  /** A string is 100% similar to itself, and only to itself. */
  lemma {:induction false} SimilarityIs100Iff(s1: string, s2: string)
    ensures Similarity(s1, s2) == 100.0 <==> s1 == s2
  {
    var longer := if |s1| > |s2| then s1 else s2;
    var shorter := if |s1| > |s2| then s2 else s1;
    LevZeroIffEqual(longer, shorter);
  }

  /** Swapping the arguments does not change the similarity. */
  lemma {:induction false} SimilaritySymmetric(s1: string, s2: string)
    ensures Similarity(s1, s2) == Similarity(s2, s1)
  {
    LevSymmetric(s1, s2);
  }

  /** Against the empty string, a non-empty string is 0% similar. */
  lemma {:induction false} SimilarityToEmpty(s: string)
    requires |s| > 0
    ensures Similarity(s, []) == 0.0 && Similarity([], s) == 0.0
  {
  }
}
