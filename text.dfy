/** The JavaScript string built-ins the tool modules rely on: the `\s`
    character class, `trim`, `split`, `join`, and `toLowerCase` /
    `toUpperCase` restricted to ASCII letters. A JavaScript string is a
    `string`, a sequence of code points; JavaScript itself counts UTF-16
    code units, and the two agree on text inside the Basic Multilingual
    Plane. */
module Text {

  /** The characters of the regular-expression class `\s`; they are also
      exactly the characters that `String.prototype.trim` removes. */
  predicate IsWhitespace(c: char) {
    || c == '\t' || c == '\n' || c == '\U{B}' || c == '\U{C}' || c == '\r' || c == ' '
    || c == '\U{A0}' || c == '\U{1680}' || ('\U{2000}' <= c <= '\U{200A}')
    || c == '\U{2028}' || c == '\U{2029}' || c == '\U{202F}' || c == '\U{205F}'
    || c == '\U{3000}' || c == '\U{FEFF}'
  }

  predicate NoWhitespace(s: string) {
    forall k :: 0 <= k < |s| ==> !IsWhitespace(s[k])
  }

  predicate AllWhitespace(s: string) {
    forall k :: 0 <= k < |s| ==> IsWhitespace(s[k])
  }

  /** Concatenation is associative. Stated on its own so that proofs about
      functions of a concatenation need not rebuild it element by element. */
  lemma {:induction false} AppendAssoc<T>(a: seq<T>, b: seq<T>, c: seq<T>)
    ensures a + b + c == a + (b + c)
  {
  }

  /** The first run of whitespace in a text that has one: the text is the
      part before it, the run, and the rest, which starts with no
      whitespace. */
  lemma {:induction false} FirstRun(s: string, i: nat, n: nat)
    requires i == FirstWhitespace(s) && i < |s| && n == LeadingWhitespace(s[i..])
    ensures i + n <= |s| && s == s[..i] + s[i..i + n] + s[i + n..]
    ensures NoWhitespace(s[..i]) && s[i..i + n] != [] && AllWhitespace(s[i..i + n])
    ensures s[i + n..] == [] || !IsWhitespace(s[i + n..][0])
  {
    assert s[i..i + n] == s[i..][..n] && s[i + n..] == s[i..][n..];
    AppendThreeSlices(s, i, i + n);
  }

  /** A text that is not blank is its trim with whitespace on both sides. */
  lemma {:induction false} TrimParts(s: string)
    requires Trim(s) != []
    ensures var l, t, r := s[..TrimStart(s)], Trim(s), s[TrimEnd(s)..];
            && s == l + t + r && AllWhitespace(l) && AllWhitespace(r)
            && !IsWhitespace(t[0]) && !IsWhitespace(t[|t| - 1])
  {
    AppendThreeSlices(s, TrimStart(s), TrimEnd(s));
  }

  /** A sequence is its three slices at two cuts, joined back. */
  lemma {:induction false} AppendThreeSlices<T>(s: seq<T>, i: nat, j: nat)
    requires i <= j <= |s|
    ensures s[..i] + s[i..j] + s[j..] == s
  {
    assert s[..i] + s[i..j] == s[..j];
  }

  /** A whitespace character after a trailing run extends it by one. */
  lemma {:induction false} TrailingExtend(s: string, p: string, m: nat)
    requires |s| > 0 && IsWhitespace(s[|s| - 1]) && p == s[..|s| - 1] && m <= |p|
    requires AllWhitespace(p[|p| - m..]) && (m < |p| ==> !IsWhitespace(p[|p| - m - 1]))
    ensures AllWhitespace(s[|s| - (1 + m)..])
    ensures 1 + m < |s| ==> !IsWhitespace(s[|s| - (1 + m) - 1])
  {
    assert s[|s| - (1 + m)..] == p[|p| - m..] + [s[|s| - 1]];
    AllWhitespaceAppend(p[|p| - m..], [s[|s| - 1]]);
  }

  /** Whitespace-only pieces join into whitespace only. */
  lemma {:induction false} AllWhitespaceAppend(a: string, b: string)
    ensures AllWhitespace(a + b) <==> AllWhitespace(a) && AllWhitespace(b)
  {
    assert forall k :: 0 <= k < |a| ==> (a + b)[k] == a[k];
    assert forall k :: 0 <= k < |b| ==> (a + b)[|a| + k] == b[k];
  }

  /** A non-empty sequence is its head in front of its tail. */
  lemma {:induction false} HeadTail<T>(s: seq<T>)
    requires |s| > 0
    ensures s == [s[0]] + s[1..]
  {
  }

  /** A sequence is its two slices at any cut, joined back. */
  lemma {:induction false} AppendSlices<T>(s: seq<T>, i: nat)
    requires i <= |s|
    ensures s[..i] + s[i..] == s
  {
  }

  /** An element of a non-empty sequence is in its front or is its last. */
  lemma {:induction false} InSnoc<T>(s: seq<T>, x: T)
    requires |s| > 0
    ensures x in s <==> x in s[..|s| - 1] || x == s[|s| - 1]
  {
    AppendSlices(s, |s| - 1);
    assert s[|s| - 1..] == [s[|s| - 1]];
  }

  // ---------------------------------------------------------------------
  // ASCII case mapping

  predicate IsAsciiUpper(c: char) { 'A' <= c <= 'Z' }
  predicate IsAsciiLower(c: char) { 'a' <= c <= 'z' }

  function ToLowerChar(c: char): (r: char)
    ensures !IsAsciiUpper(r)
    ensures IsAsciiUpper(c) ==> IsAsciiLower(r) && r as int == c as int + 32
    ensures !IsAsciiUpper(c) ==> r == c
  {
    if IsAsciiUpper(c) then (c as int + 32) as char else c
  }

  function ToUpperChar(c: char): (r: char)
    ensures !IsAsciiLower(r)
    ensures IsAsciiLower(c) ==> IsAsciiUpper(r) && r as int == c as int - 32
    ensures !IsAsciiLower(c) ==> r == c
  {
    if IsAsciiLower(c) then (c as int - 32) as char else c
  }

  /** `s.toLowerCase()` on ASCII letters. */
  function ToLower(s: string): (r: string)
    ensures |r| == |s|
    ensures forall k :: 0 <= k < |s| ==> r[k] == ToLowerChar(s[k])
  {
    seq(|s|, k requires 0 <= k < |s| => ToLowerChar(s[k]))
  }

  /** `s.toUpperCase()` on ASCII letters. */
  function ToUpper(s: string): (r: string)
    ensures |r| == |s|
    ensures forall k :: 0 <= k < |s| ==> r[k] == ToUpperChar(s[k])
  {
    seq(|s|, k requires 0 <= k < |s| => ToUpperChar(s[k]))
  }

  predicate HasNoUpper(s: string) {
    forall k :: 0 <= k < |s| ==> !IsAsciiUpper(s[k])
  }

  /** Case mapping twice is case mapping once, and the last mapping
      applied decides the case. */
  lemma {:induction false} CaseMappingLaws(s: string)
    ensures ToLower(ToLower(s)) == ToLower(s)
    ensures ToUpper(ToUpper(s)) == ToUpper(s)
    ensures ToLower(ToUpper(s)) == ToLower(s)
    ensures ToUpper(ToLower(s)) == ToUpper(s)
  {
  }

  /** Lower-casing works piecewise. */
  lemma {:induction false} ToLowerAppend(a: string, b: string)
    ensures ToLower(a + b) == ToLower(a) + ToLower(b)
  {
  }

  lemma {:induction false} ToLowerDrop(s: string, i: nat)
    requires i <= |s|
    ensures ToLower(s)[i..] == ToLower(s[i..])
  {
  }

  // ---------------------------------------------------------------------
  // Whitespace runs and trim

  /** The length of the run of whitespace at the start of `s`. */
  function LeadingWhitespace(s: string): (n: nat)
    ensures n <= |s|
    ensures AllWhitespace(s[..n])
    ensures n < |s| ==> !IsWhitespace(s[n])
  {
    if |s| > 0 && IsWhitespace(s[0]) then 1 + LeadingWhitespace(s[1..]) else 0
  }

  /** The length of the run of whitespace at the end of `s`. */
  function TrailingWhitespace(s: string): (n: nat)
    ensures n <= |s|
    ensures AllWhitespace(s[|s| - n..])
    ensures n < |s| ==> !IsWhitespace(s[|s| - n - 1])
  {
    if |s| > 0 && IsWhitespace(s[|s| - 1]) then
      var p := s[..|s| - 1];
      var m := TrailingWhitespace(p);
      TrailingExtend(s, p, m);
      1 + m
    else 0
  }

  /** The index of the first whitespace character of `s`, or `|s|`. */
  function FirstWhitespace(s: string): (i: nat)
    ensures i <= |s|
    ensures NoWhitespace(s[..i])
    ensures i < |s| ==> IsWhitespace(s[i])
  {
    if |s| == 0 || IsWhitespace(s[0]) then 0 else 1 + FirstWhitespace(s[1..])
  }

  /** Where `s.trim()` starts. */
  function TrimStart(s: string): nat {
    LeadingWhitespace(s)
  }

  /** Where `s.trim()` ends. */
  function TrimEnd(s: string): nat {
    var lo := LeadingWhitespace(s);
    |s| - TrailingWhitespace(s[lo..])
  }

  /** `s.trim()`: the slice of `s` left after removing the whitespace at
      both ends. */
  function Trim(s: string): (r: string)
    ensures TrimStart(s) <= TrimEnd(s) <= |s| && r == s[TrimStart(s)..TrimEnd(s)]
    ensures AllWhitespace(s[..TrimStart(s)]) && AllWhitespace(s[TrimEnd(s)..])
    ensures r == [] || (!IsWhitespace(r[0]) && !IsWhitespace(r[|r| - 1]))
  {
    TrimSlices(s);
    s[TrimStart(s)..TrimEnd(s)]
  }

  lemma {:induction false} TrimSlices(s: string)
    ensures TrimStart(s) <= TrimEnd(s) <= |s|
    ensures AllWhitespace(s[..TrimStart(s)]) && AllWhitespace(s[TrimEnd(s)..])
    ensures TrimStart(s) == TrimEnd(s) || (!IsWhitespace(s[TrimStart(s)]) && !IsWhitespace(s[TrimEnd(s) - 1]))
  {
    var lo := LeadingWhitespace(s);
    var t := s[lo..];
    TrimPieces(s, lo, t, TrailingWhitespace(t));
  }

  /** `TrimSlices` on plain values: a whitespace run cut from the front,
      then one cut from the back of what is left. */
  lemma {:induction false} TrimPieces(s: string, lo: nat, t: string, n: nat)
    requires lo <= |s| && t == s[lo..] && n <= |t|
    requires lo < |s| ==> !IsWhitespace(s[lo])
    requires AllWhitespace(t[|t| - n..]) && (n < |t| ==> !IsWhitespace(t[|t| - n - 1]))
    ensures AllWhitespace(s[|s| - n..])
    ensures lo == |s| - n || (!IsWhitespace(s[lo]) && !IsWhitespace(s[|s| - n - 1]))
  {
    assert s[|s| - n..] == t[|t| - n..];
    if n < |t| {
      assert s[|s| - n - 1] == t[|t| - n - 1];
    }
  }

  /** A string without whitespace at either end is its own trim. */
  lemma {:induction false} TrimOfTrimmed(s: string)
    requires s == [] || (!IsWhitespace(s[0]) && !IsWhitespace(s[|s| - 1]))
    ensures Trim(s) == s
  {
    if s != [] {
      assert LeadingWhitespace(s) == 0;
      assert TrailingWhitespace(s) == 0;
    }
  }

  /** `trim` is idempotent. */
  lemma {:induction false} TrimIdempotent(s: string)
    ensures Trim(Trim(s)) == Trim(s)
  {
    TrimOfTrimmed(Trim(s));
  }

  /** A string trims to nothing exactly when it is all whitespace. */
  lemma {:induction false} TrimEmptyIffAllWhitespace(s: string)
    ensures Trim(s) == [] <==> AllWhitespace(s)
  {
    var lo, hi := TrimStart(s), TrimEnd(s);
    if Trim(s) == [] {
      assert lo == hi;
      forall k | 0 <= k < |s| ensures IsWhitespace(s[k]) {
        assert s[..lo][k] == s[k];
      }
    } else {
      assert s[lo] == Trim(s)[0];
    }
  }

  // ---------------------------------------------------------------------
  // Removing whitespace

  /** `s.replace(/\s/g, '')`, which is also `s.replace(/\s+/g, '')`. */
  function RemoveWhitespace(s: string): (r: string)
    ensures |r| <= |s|
    ensures NoWhitespace(r)
  {
    if |s| == 0 then []
    else if IsWhitespace(s[0]) then RemoveWhitespace(s[1..])
    else [s[0]] + RemoveWhitespace(s[1..])
  }

  /** The number of whitespace characters in `s`. */
  function CountWhitespace(s: string): nat {
    if |s| == 0 then 0
    else (if IsWhitespace(s[0]) then 1 else 0) + CountWhitespace(s[1..])
  }

  lemma {:induction false} RemoveWhitespaceLength(s: string)
    ensures |RemoveWhitespace(s)| + CountWhitespace(s) == |s|
  {
    if |s| > 0 { RemoveWhitespaceLength(s[1..]); }
  }

  lemma {:induction false} RemoveWhitespaceAppend(a: string, b: string)
    ensures RemoveWhitespace(a + b) == RemoveWhitespace(a) + RemoveWhitespace(b)
  {
    if |a| > 0 {
      assert (a + b)[1..] == a[1..] + b;
      RemoveWhitespaceAppend(a[1..], b);
    } else {
      assert a + b == b;
    }
  }

  lemma {:induction false} RemoveWhitespaceOfNone(s: string)
    requires NoWhitespace(s)
    ensures RemoveWhitespace(s) == s
  {
    if |s| > 0 { RemoveWhitespaceOfNone(s[1..]); }
  }

  lemma {:induction false} RemoveWhitespaceOfAll(s: string)
    requires AllWhitespace(s)
    ensures RemoveWhitespace(s) == []
  {
    if |s| > 0 { RemoveWhitespaceOfAll(s[1..]); }
  }

  // ---------------------------------------------------------------------
  // split and join

  function Concat(parts: seq<string>): string {
    if |parts| == 0 then [] else parts[0] + Concat(parts[1..])
  }

  lemma {:induction false} ConcatCons(head: string, parts: seq<string>)
    ensures Concat([head] + parts) == head + Concat(parts)
  {
    assert ([head] + parts)[1..] == parts;
  }

  /** `parts.join(sep)`. */
  function Join(parts: seq<string>, sep: string): string {
    if |parts| == 0 then []
    else if |parts| == 1 then parts[0]
    else parts[0] + sep + Join(parts[1..], sep)
  }

  /** The number of occurrences of `c` in `s`. */
  function Count(s: string, c: char): nat {
    if |s| == 0 then 0 else (if s[0] == c then 1 else 0) + Count(s[1..], c)
  }

  /** The index of the first `c` in `s`, or `|s|`. */
  function IndexOf(s: string, c: char): (i: nat)
    ensures i <= |s|
    ensures c !in s[..i]
    ensures i < |s| ==> s[i] == c
  {
    if |s| == 0 || s[0] == c then 0 else 1 + IndexOf(s[1..], c)
  }

  /** `s.split(c)` for a one-character separator: the pieces between the
      occurrences of `c`, one more piece than there are occurrences. */
  function SplitOn(s: string, c: char): (parts: seq<string>)
    ensures |parts| == Count(s, c) + 1
    ensures forall k :: 0 <= k < |parts| ==> c !in parts[k]
    decreases |s|
  {
    var i := IndexOf(s, c);
    if i == |s| then
      CountAbsent(s, c);
      [s]
    else
      CountSplit(s, c, i);
      [s[..i]] + SplitOn(s[i + 1..], c)
  }

  lemma {:induction false} CountAbsent(s: string, c: char)
    requires c !in s
    ensures Count(s, c) == 0
  {
    if |s| > 0 { CountAbsent(s[1..], c); }
  }

  lemma {:induction false} CountSplit(s: string, c: char, i: nat)
    requires i < |s| && s[i] == c && c !in s[..i]
    ensures Count(s, c) == 1 + Count(s[i + 1..], c)
  {
    if i > 0 {
      assert s[1..][..i - 1] == s[..i][1..];
      CountSplit(s[1..], c, i - 1);
      assert s[1..][i..] == s[i + 1..];
    }
  }

  /** Joining the pieces of `s.split(c)` with `c` gives back `s`. */
  lemma {:induction false} JoinSplitOn(s: string, c: char)
    ensures Join(SplitOn(s, c), [c]) == s
    decreases |s|
  {
    var i := IndexOf(s, c);
    if i < |s| {
      JoinSplitOn(s[i + 1..], c);
      var rest := SplitOn(s[i + 1..], c);
      assert SplitOn(s, c) == [s[..i]] + rest;
      assert s == s[..i] + [c] + s[i + 1..];
    }
  }

  /** `s.split(/\s+/)`: the pieces between the maximal runs of whitespace,
      one more piece than there are runs. */
  function SplitWhitespace(s: string): (parts: seq<string>)
    ensures |parts| >= 1
    ensures forall k :: 0 <= k < |parts| ==> NoWhitespace(parts[k])
    ensures CutAtWhitespaceRuns(s, parts, WhitespaceRuns(s))
    ensures |parts| == 1 + RunStarts(s, false, true)
    decreases |s|
  {
    var i := FirstWhitespace(s);
    if i == |s| then
      assert s[..i] == s;
      RunStartsUniform(s, false, true, false);
      [s]
    else
      var n := LeadingWhitespace(s[i..]);
      var a, b, c := s[..i], s[i..i + n], s[i + n..];
      FirstRun(s, i, n);
      WhitespaceRunsUnfold(s, i, n);
      var p := SplitWhitespace(c);
      assert |p| >= 2 ==> p[0] == c[..FirstWhitespace(c)];
      CutCons(a, b, c, p, WhitespaceRuns(c));
      RunStartsStep(a, b, c);
      [a] + p
  }

  lemma {:induction false} RemoveWhitespaceAround(a: string, b: string, c: string)
    requires NoWhitespace(a) && AllWhitespace(b)
    ensures RemoveWhitespace(a + b + c) == a + RemoveWhitespace(c)
  {
    var ab := a + b;
    RemoveWhitespaceAppend(ab, c);
    RemoveWhitespaceAppend(a, b);
    RemoveWhitespaceOfNone(a);
    RemoveWhitespaceOfAll(b);
    assert RemoveWhitespace(ab) == a;
  }

  /** The pieces of `s.split(/\s+/)` hold exactly the non-whitespace
      characters of `s`, in order. */
  lemma {:induction false} ConcatSplitWhitespace(s: string)
    ensures Concat(SplitWhitespace(s)) == RemoveWhitespace(s)
    decreases |s|
  {
    var i := FirstWhitespace(s);
    if i == |s| {
      RemoveWhitespaceOfNone(s);
      assert Concat([s]) == s + Concat([]);
    } else {
      var n := LeadingWhitespace(s[i..]);
      var a, b, c := s[..i], s[i..][..n], s[i + n..];
      assert s == a + b + c;
      ConcatSplitWhitespace(c);
      RemoveWhitespaceAround(a, b, c);
      var parts := SplitWhitespace(s);
      assert parts == [a] + SplitWhitespace(c);
      assert parts[1..] == SplitWhitespace(c);
    }
  }

  /** No part is empty. */
  predicate NoEmptyPart(parts: seq<string>) {
    forall k :: 0 <= k < |parts| ==> parts[k] != []
  }

  /** `s.split(/\s+/)` of a trimmed, non-empty text yields non-empty
      pieces. */
  lemma {:induction false} SplitTrimmedWords(s: string)
    requires s != [] && !IsWhitespace(s[0]) && !IsWhitespace(s[|s| - 1])
    ensures NoEmptyPart(SplitWhitespace(s))
    decreases |s|
  {
    var i := FirstWhitespace(s);
    if i < |s| {
      var n := LeadingWhitespace(s[i..]);
      TrimmedRest(s, i, n);
      var rest := s[i + n..];
      SplitTrimmedWords(rest);
      SplitWhitespaceUnfold(s, i, n);
      NoEmptyPartCons(s[..i], SplitWhitespace(rest));
    } else {
      assert SplitWhitespace(s) == [s];
    }
  }

  lemma {:induction false} NoEmptyPartCons(w: string, parts: seq<string>)
    requires w != [] && NoEmptyPart(parts)
    ensures NoEmptyPart([w] + parts)
  {
    assert forall k :: 1 <= k < |parts| + 1 ==> ([w] + parts)[k] == parts[k - 1];
  }

  /** What follows the first gap of a trimmed text is trimmed too. */
  lemma {:induction false} TrimmedRest(s: string, i: nat, n: nat)
    requires s != [] && !IsWhitespace(s[0]) && !IsWhitespace(s[|s| - 1])
    requires i == FirstWhitespace(s) && i < |s| && n == LeadingWhitespace(s[i..])
    ensures 0 < i && i + n < |s|
    ensures var rest := s[i + n..]; rest != [] && !IsWhitespace(rest[0]) && !IsWhitespace(rest[|rest| - 1])
  {
    var t := s[i..];
    assert t[|t| - 1] == s[|s| - 1];
    assert t[..n] == s[i..i + n];
  }

  lemma {:induction false} SplitWhitespaceUnfold(s: string, i: nat, n: nat)
    requires i == FirstWhitespace(s) && i < |s| && n == LeadingWhitespace(s[i..])
    ensures SplitWhitespace(s) == [s[..i]] + SplitWhitespace(s[i + n..])
  {
  }

  // ---------------------------------------------------------------------
  // What `split(/\s+/)` cuts at

  /** `parts[0] + seps[0] + parts[1] + ... + parts[|parts| - 1]`. */
  function Interleave(parts: seq<string>, seps: seq<string>): string
    requires |parts| == |seps| + 1
    decreases |seps|
  {
    if |seps| == 0 then parts[0] else parts[0] + seps[0] + Interleave(parts[1..], seps[1..])
  }

  lemma {:induction false} InterleaveCons(a: string, b: string, parts: seq<string>, seps: seq<string>)
    requires |parts| == |seps| + 1
    ensures Interleave([a] + parts, [b] + seps) == a + b + Interleave(parts, seps)
  {
    assert ([a] + parts)[1..] == parts && ([b] + seps)[1..] == seps;
  }

  /** `seps` are the maximal runs of whitespace of `s` and `parts` what lies
      between them: the pieces hold no whitespace, the separators are
      non-empty runs of it, and only the first and the last piece may be
      empty (a run cannot be followed by another run). */
  predicate CutAtWhitespaceRuns(s: string, parts: seq<string>, seps: seq<string>) {
    && |parts| == |seps| + 1
    && (forall k :: 0 <= k < |parts| ==> NoWhitespace(parts[k]))
    && (forall k :: 0 < k < |parts| - 1 ==> parts[k] != [])
    && (forall k :: 0 <= k < |seps| ==> seps[k] != [] && AllWhitespace(seps[k]))
    && Interleave(parts, seps) == s
  }

  /** The runs of whitespace that `s.split(/\s+/)` drops, in order. */
  function WhitespaceRuns(s: string): seq<string>
    decreases |s|
  {
    var i := FirstWhitespace(s);
    if i == |s| then []
    else
      var n := LeadingWhitespace(s[i..]);
      [s[i..i + n]] + WhitespaceRuns(s[i + n..])
  }

  lemma {:induction false} FirstWhitespaceAt(s: string, i: nat)
    requires i <= |s| && NoWhitespace(s[..i]) && (i < |s| ==> IsWhitespace(s[i]))
    ensures FirstWhitespace(s) == i
  {
    var j := FirstWhitespace(s);
    assert forall k :: 0 <= k < i ==> s[..i][k] == s[k];
    assert forall k :: 0 <= k < j ==> s[..j][k] == s[k];
  }

  lemma {:induction false} LeadingWhitespaceAt(s: string, n: nat)
    requires n <= |s| && AllWhitespace(s[..n]) && (n < |s| ==> !IsWhitespace(s[n]))
    ensures LeadingWhitespace(s) == n
  {
    var m := LeadingWhitespace(s);
    assert forall k :: 0 <= k < n ==> s[..n][k] == s[k];
    assert forall k :: 0 <= k < m ==> s[..m][k] == s[k];
  }

  lemma {:induction false} TrailingWhitespaceAt(s: string, n: nat)
    requires n <= |s| && AllWhitespace(s[|s| - n..]) && (n < |s| ==> !IsWhitespace(s[|s| - n - 1]))
    ensures TrailingWhitespace(s) == n
  {
    var m := TrailingWhitespace(s);
    assert forall k :: |s| - n <= k < |s| ==> s[|s| - n..][k - (|s| - n)] == s[k];
    assert forall k :: |s| - m <= k < |s| ==> s[|s| - m..][k - (|s| - m)] == s[k];
  }

  /** Trimming whitespace padding off text that starts and ends with a
      non-whitespace character gives that text. */
  lemma {:induction false} TrimPadded(p: string, m: string, q: string)
    requires AllWhitespace(p) && AllWhitespace(q)
    requires m != [] && !IsWhitespace(m[0]) && !IsWhitespace(m[|m| - 1])
    ensures Trim(p + m + q) == m
  {
    var s := p + m + q;
    assert s[..|p|] == p && s[|p|] == m[0];
    LeadingWhitespaceAt(s, |p|);
    var t := s[|p|..];
    assert t == m + q && t[|t| - |q|..] == q && t[|t| - |q| - 1] == m[|m| - 1];
    TrailingWhitespaceAt(t, |q|);
    assert s[|p|..|s| - |q|] == m;
  }

  /** The first piece of `s.split(/\s+/)` runs up to the first whitespace. */
  lemma {:induction false} SplitWhitespaceHead(s: string)
    ensures SplitWhitespace(s)[0] == s[..FirstWhitespace(s)]
  {
  }

  /** A piece, a run and a cut of the rest make a cut. */
  lemma {:induction false} CutCons(a: string, b: string, c: string, p: seq<string>, r: seq<string>)
    requires NoWhitespace(a) && b != [] && AllWhitespace(b)
    requires CutAtWhitespaceRuns(c, p, r) && (|p| >= 2 ==> p[0] != [])
    ensures CutAtWhitespaceRuns(a + b + c, [a] + p, [b] + r)
  {
    var parts, seps := [a] + p, [b] + r;
    assert parts[1..] == p && seps[1..] == r;
    assert forall k :: 0 < k < |parts| ==> parts[k] == p[k - 1];
    assert forall k :: 0 < k < |seps| ==> seps[k] == r[k - 1];
  }

  /** What follows a separator in a cut starts with a non-whitespace
      character, or is empty. */
  lemma {:induction false} CutRestHead(s: string, parts: seq<string>, seps: seq<string>)
    requires CutAtWhitespaceRuns(s, parts, seps) && |seps| > 0
    ensures var rest := Interleave(parts[1..], seps[1..]);
            rest == [] || !IsWhitespace(rest[0])
  {
    var rest := Interleave(parts[1..], seps[1..]);
    if parts[1] != [] {
      assert rest[0] == parts[1][0];
    } else {
      assert |parts| == 2;
    }
  }

  lemma {:induction false} CutTail(s: string, parts: seq<string>, seps: seq<string>)
    requires CutAtWhitespaceRuns(s, parts, seps) && |seps| > 0
    ensures CutAtWhitespaceRuns(Interleave(parts[1..], seps[1..]), parts[1..], seps[1..])
  {
    assert forall k :: 0 <= k < |parts| - 1 ==> parts[1..][k] == parts[k + 1];
    assert forall k :: 0 <= k < |seps| - 1 ==> seps[1..][k] == seps[k + 1];
  }

  /** The first piece and the first run of a cut are where `split`
      finds them. */
  lemma {:induction false} CutHead(s: string, parts: seq<string>, seps: seq<string>)
    requires CutAtWhitespaceRuns(s, parts, seps) && |seps| > 0
    ensures var a, b := parts[0], seps[0];
            && FirstWhitespace(s) == |a| && |a| < |s|
            && LeadingWhitespace(s[|a|..]) == |b|
            && s[..|a|] == a && s[|a| + |b|..] == Interleave(parts[1..], seps[1..])
            && s[|a|..|a| + |b|] == b
  {
    var a, b, rest := parts[0], seps[0], Interleave(parts[1..], seps[1..]);
    assert s == a + b + rest;
    CutRestHead(s, parts, seps);
    assert s[..|a|] == a;
    FirstWhitespaceAt(s, |a|);
    var t := s[|a|..];
    assert t == b + rest && t[..|b|] == b;
    assert s[|a|..|a| + |b|] == t[..|b|];
    LeadingWhitespaceAt(t, |b|);
  }

  lemma {:induction false} WhitespaceRunsUnfold(s: string, i: nat, n: nat)
    requires i == FirstWhitespace(s) && i < |s| && n == LeadingWhitespace(s[i..])
    ensures WhitespaceRuns(s) == [s[i..i + n]] + WhitespaceRuns(s[i + n..])
  {
  }

  /** Only one way to cut `s` at its maximal runs of whitespace exists:
      the one `s.split(/\s+/)` takes. */
  lemma {:induction false} CutAtWhitespaceRunsUnique(s: string, parts: seq<string>, seps: seq<string>)
    requires CutAtWhitespaceRuns(s, parts, seps)
    ensures parts == SplitWhitespace(s) && seps == WhitespaceRuns(s)
    decreases |seps|
  {
    if |seps| == 0 {
      FirstWhitespaceAt(s, |s|);
    } else {
      var rest := Interleave(parts[1..], seps[1..]);
      CutTail(s, parts, seps);
      CutAtWhitespaceRunsUnique(rest, parts[1..], seps[1..]);
      CutUniqueStep(s, parts, seps);
    }
  }

  lemma {:induction false} CutUniqueStep(s: string, parts: seq<string>, seps: seq<string>)
    requires CutAtWhitespaceRuns(s, parts, seps) && |seps| > 0
    requires var rest := Interleave(parts[1..], seps[1..]);
             parts[1..] == SplitWhitespace(rest) && seps[1..] == WhitespaceRuns(rest)
    ensures parts == SplitWhitespace(s) && seps == WhitespaceRuns(s)
  {
    var a, b, rest := parts[0], seps[0], Interleave(parts[1..], seps[1..]);
    CutHead(s, parts, seps);
    SplitWhitespaceUnfold(s, |a|, |b|);
    WhitespaceRunsUnfold(s, |a|, |b|);
    HeadTail(parts);
    HeadTail(seps);
  }

  // ---------------------------------------------------------------------
  // Counting runs

  /** The number of positions of `s` where a run of characters whose
      whitespace status is `ws` begins, `prev` being the status of the
      character before `s`. */
  function RunStarts(s: string, prev: bool, ws: bool): nat {
    if |s| == 0 then 0
    else (if IsWhitespace(s[0]) == ws && prev != ws then 1 else 0) + RunStarts(s[1..], IsWhitespace(s[0]), ws)
  }

  /** The whitespace status of the last character of `s`, or `prev`. */
  function LastStatus(s: string, prev: bool): bool {
    if |s| == 0 then prev else IsWhitespace(s[|s| - 1])
  }

  lemma {:induction false} RunStartsAppend(x: string, y: string, prev: bool, ws: bool)
    ensures RunStarts(x + y, prev, ws) == RunStarts(x, prev, ws) + RunStarts(y, LastStatus(x, prev), ws)
  {
    if |x| == 0 {
      assert x + y == y;
    } else {
      assert (x + y)[1..] == x[1..] + y;
      RunStartsAppend(x[1..], y, IsWhitespace(x[0]), ws);
      if |x| > 1 {
        assert x[1..][|x| - 2] == x[|x| - 1];
      }
    }
  }

  /** Inside a run nothing new starts. */
  lemma {:induction false} RunStartsUniform(x: string, prev: bool, ws: bool, st: bool)
    requires forall k :: 0 <= k < |x| ==> IsWhitespace(x[k]) == st
    ensures RunStarts(x, prev, ws) == if x != [] && st == ws && prev != ws then 1 else 0
  {
    if |x| > 0 {
      RunStartsUniform(x[1..], st, ws, st);
    }
  }

  /** A character of the other status does not start a run, whatever came
      before it. */
  lemma {:induction false} RunStartsOther(x: string, ws: bool)
    requires x == [] || IsWhitespace(x[0]) != ws
    ensures RunStarts(x, true, ws) == RunStarts(x, false, ws)
  {
  }

  /** Runs of the two kinds alternate. */
  lemma {:induction false} RunStartsAlternate(x: string, prev: bool)
    ensures RunStarts(x, prev, false) + (if prev then 0 else 1)
         == RunStarts(x, prev, true) + (if LastStatus(x, prev) then 0 else 1)
  {
    if |x| > 0 {
      RunStartsAlternate(x[1..], IsWhitespace(x[0]));
      if |x| > 1 {
        assert x[1..][|x| - 2] == x[|x| - 1];
      }
    }
  }

  /** A piece, then a whole run of whitespace: one run starts. */
  lemma {:induction false} RunStartsStep(a: string, b: string, c: string)
    requires NoWhitespace(a) && b != [] && AllWhitespace(b) && (c == [] || !IsWhitespace(c[0]))
    ensures RunStarts(a + b + c, false, true) == 1 + RunStarts(c, false, true)
  {
    assert a + b + c == a + (b + c);
    RunStartsAppend(a, b + c, false, true);
    RunStartsUniform(a, false, true, false);
    RunStartsAppend(b, c, false, true);
    RunStartsUniform(b, false, true, true);
    RunStartsOther(c, true);
  }
}
