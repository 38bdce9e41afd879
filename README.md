# DevFusion comparison core in Dafny

DevFusion is a browser toolkit of small developer tools. This project models
the comparison and text logic those tools share, and proves what that logic
promises.

- **Similarity** (`js/utils.js`). `getEditDistance` is modelled as a method
  over a rolling `costs` array. It is proved equal to the Levenshtein
  recurrence `Lev`. `calculateSimilarity` is an exact `real` percentage.
- **Structural JSON diff** (`js/utils.js`). `compareJSONObjects` walks two
  parsed objects. It reports `added`, `removed` and `modified` records with
  dot-joined paths, and recurses where both values are objects.
- **HTML escaping** (`js/utils.js`). `escapeHtml` and `unescapeHtml`, and
  their round trip.
- **Hex colours** (`js/utils.js`). `rgbToHex` and `hexToRgb`: the six-digit
  `#rrggbb` notation of CSS Color Module Level 4, section 5.2, and its exact
  round trip.
- **Diff viewer** (`js/diff-viewer.js`). `performDiff` normalises whitespace
  and case, then dispatches on the mode. `calculateStats` folds the segments
  into counts.
- **Text analyzer** (`js/text-analyzer.js`). `performAnalysis` counts lines,
  words, characters and paragraphs. It also finds duplicate lines, builds the
  word-frequency table with its top ten, and picks the longest and shortest
  words.
- **String utilities** (`js/string-utils.js`). The encode/decode and
  transform branches of `performAction`, and which output field each writes.
- **Terminal** (`js/terminal.js`). The newest-first command history browsed
  with the arrow keys, the dispatch of a command on its first word, the
  argument split of `diff`, and the saved copy of the history. Modelled as a
  class.
- **File comparator** (`js/file-comparator.js`). Two file slots, the compare
  button, the rows of the rendered comparison and the added/removed
  summary. Modelled as a class.

`diff_match_patch` is an external library. Its `diff_main`,
`diff_cleanupSemantic` and line munger are function parameters. The library
promises the reconstruction invariant: the equal and deleted segments spell
the left text, and the equal and inserted segments spell the right text. The
model assumes that as a precondition (`DiffSegments.DiffMainReconstructs`,
`DiffSegments.CleanupPreserves`).

JavaScript strings are `string`, a sequence of Dafny `char`s. A `char` is a
Unicode code point, while JavaScript's `length`, `charAt` and `split('')`
see UTF-16 code units. The two agree for text inside the Basic Multilingual
Plane, and "## Left out" names what differs outside it. The
regular-expression class `\s` and `trim` share one whitespace predicate,
`Text.IsWhitespace`.

Behaviour a reader might not expect, which the model keeps as the code has
it:

- **Line mode.** Nothing expands the line placeholders back to lines: see
  Findings.
- **Empty operands.** `performDiff` returns early unless both texts are
  non-empty (`js/diff-viewer.js:73-76`), so an empty text is never diffed.
- **Unknown mode.** Any mode other than `line` and `word` is the character
  mode with line checking on.
- **JSON equality.** Values are compared with `JSON.stringify`, which sees
  key order. The model compares the ordered representation. The order of
  an `Obj`'s fields is the object's property order as `Object.keys` lists
  it (integer-like keys first, ascending, then the others in insertion
  order), not the order of the keys in the JSON text.
  `JsonCompare.CompareEmptyIffEquivalent` proves that the records are still
  empty exactly when the two objects are equivalent regardless of key
  order, because reordered objects are recursed into and then report
  nothing.

## Model

| member | source | states |
|---|---|---|
| DiffSegments.CleanDiffReconstructs | js/diff-viewer.js:95-105 | a diff from `diff_main`, after `diff_cleanupSemantic`, still spells both texts |
| DiffSegments.CountsPartition | js/diff-viewer.js:146-151 | every character of every segment is counted exactly once as added, removed or unchanged |
| DiffSegments.SourceLength | js/diff-viewer.js:146-151 | the kept and removed counts add up to the length of the left text the segments spell |
| DiffSegments.TargetLength | js/diff-viewer.js:146-151 | the kept and added counts add up to the length of the right text the segments spell |
| DiffSegments.CountsMeasureTexts | js/diff-viewer.js:105-107 | for a diff of `a` and `b`: unchanged + removed = \|a\| and unchanged + added = \|b\| |
| EditDistance.GetEditDistance | js/utils.js:43-62 | the rolling single-row computation returns the Levenshtein distance of the two strings |
| EditDistance.CellStep | js/utils.js:50-56 | each matrix cell is its diagonal when the characters agree, else one more than the least of its three neighbours |
| EditDistance.CellBorder | js/utils.js:46-49 | the first row of the matrix is `j` and the first column is `i` |
| EditDistance.LevMatchIsDiagonal | js/utils.js:51-54 | when the last characters agree, the distance is the distance of the shorter prefixes (the shortcut the code takes) |
| EditDistance.LevZeroIffEqual | js/utils.js:43-62 | the distance is 0 exactly when the strings are equal |
| EditDistance.LevSymmetric | js/utils.js:43-62 | the distance does not depend on the order of the arguments |
| EditDistance.LevUpperBound | js/utils.js:43-62 | the distance is at most the length of the longer string |
| EditDistance.LevLowerBound | js/utils.js:43-62 | the distance is at least the difference of the lengths |
| EditDistance.LevDropLastRight | js/utils.js:43-62 | dropping the last character of one string changes the distance by at most one |
| EditDistance.LevDropLastLeft | js/utils.js:43-62 | the same for the other string |
| EditDistance.Similarity | js/utils.js:33-41 | the similarity lies in [0, 100] |
| EditDistance.Percentage | js/utils.js:40 | `part / whole * 100` is in [0, 100], is 100 exactly for the whole and 0 exactly for nothing |
| EditDistance.SimilarityFromDistance | js/utils.js:33-41 | the similarity is (longer length − distance) / longer length · 100, whichever argument is longer |
| EditDistance.SimilarityIs100Iff | js/utils.js:33-41 | the similarity is 100 exactly for equal strings (two empty strings included) |
| EditDistance.SimilaritySymmetric | js/utils.js:34-35 | swapping the arguments does not change the similarity |
| EditDistance.SimilarityToEmpty | js/utils.js:33-41 | a non-empty string against the empty one is 0% similar |
| JsonCompare.Get | js/utils.js:230-231 | `obj?.[key]` is undefined exactly when the key is not an own property of `obj` |
| JsonCompare.IndexOfKey | js/utils.js:230-231 | the lookup finds the first property with that key, or reports that there is none |
| JsonCompare.Dedup | js/utils.js:226 | the `Set` holds the same keys, each once |
| JsonCompare.DedupAppend | js/utils.js:226 | the `Set` of a concatenation is the first part's keys, then the second part's keys not already seen |
| JsonCompare.KeyOrder | js/utils.js:226-228 | keys are visited as all of `obj1`'s in its order, then those only in `obj2` in `obj2`'s order |
| JsonCompare.ExampleKeys | js/utils.js:226 | `{a,b}` and `{a,b,c}` are visited as `a`, `b`, `c` |
| JsonCompare.Compare | js/utils.js:223-248 | every record's type matches the missing side; its two values differ; the values are not both objects |
| JsonCompare.CompareKeys | js/utils.js:228-245 | every record of the key loop is classified in the same way |
| JsonCompare.CompareKey | js/utils.js:229-243 | every record for one key is classified in the same way |
| JsonCompare.CompareJsonObjects | js/utils.js:223-248 | the loop that pushes onto `differences` and recurses returns exactly the records of the recursive definition |
| JsonCompare.CompareKeysSelf | js/utils.js:228-233 | a key loop over an object and itself emits nothing |
| JsonCompare.CompareSelf | js/utils.js:226-233 | an object compared with itself has no differences |
| JsonCompare.SwapCompareKey | js/utils.js:233-242 | one key's records, seen with the arguments swapped, are its records with old/new and added/removed exchanged |
| JsonCompare.SwapCompare | js/utils.js:233-242 | every record of `compare(a, b)` appears swapped in `compare(b, a)` |
| JsonCompare.CompareAntisymmetric | js/utils.js:233-242 | a record is in `compare(a, b)` exactly when its swap is in `compare(b, a)` |
| JsonCompare.AllAgreeIffEquivalent | js/utils.js:226-231 | agreement under every visited key is order-independent equivalence |
| JsonCompare.KeyEmptyIffAgrees | js/utils.js:229-243 | a key yields no record exactly when both sides hold equivalent values under it |
| JsonCompare.CompareEmptyIffEquivalent | js/utils.js:223-248 | no differences exactly when the objects have the same keys with equivalent values, in any order |
| JsonCompare.CompareExample | js/utils.js:223-248 | `{a:1,b:2}` against `{a:1,b:3,c:4}` gives `b` modified, then `c` added |
| HtmlEscape.EscapeHtml | js/utils.js:269-278 | no `<`, `>`, `"` or `'` survives, and the output is never shorter |
| HtmlEscape.EscapePlain | js/utils.js:277 | text without special characters is left alone |
| HtmlEscape.EscapeAppend | js/utils.js:277 | escaping works piecewise |
| HtmlEscape.LowerRun | js/utils.js:288 | the run of lower-case letters the `[a-z]+` of the pattern can match |
| HtmlEscape.EntityMatch | js/utils.js:288 | a match starts with `&` and ends with `;` and is at least three long |
| HtmlEscape.NamedEntityMatch | js/utils.js:288 | an `&name;` at the start of a text is exactly the match there |
| HtmlEscape.EscapedEntityMatch | js/utils.js:270-288 | the entity of `&`, `<`, `>` or `"` is matched whole by the pattern |
| HtmlEscape.UnescapeEscapedChar | js/utils.js:280-288 | an escaped character other than `'` unescapes back to itself |
| HtmlEscape.UnescapeEscape | js/utils.js:269-289 | `unescapeHtml(escapeHtml(s)) == s` for every `s` without `'` |
| HtmlEscape.UnknownEntityPassesThrough | js/utils.js:288 | an `&name;` missing from the map is copied unchanged |
| HtmlEscape.PlainUnescape | js/utils.js:288 | a text without `&` unescapes to itself |
| HtmlEscape.ApostropheEntityNeverMatches | js/utils.js:286-288 | the pattern never matches `&#039;`, so that entry of the map is unreachable |
| HtmlEscape.EscapeApostrophe | js/utils.js:275-277 | `'` escapes to `&#039;` |
| HtmlEscape.UnescapeApostropheEntity | js/utils.js:286-288 | `&#039;` unescapes to itself |
| HtmlEscape.UnescapeMissesApostrophe | js/utils.js:275-288 | the round trip of `'` fails: it comes back as `&#039;` |
| HtmlEscape.IntendedMatch | js/utils.js:286-288 | the corrected pattern's match also starts with `&` and ends with `;` |
| HtmlEscape.UnescapeIntendedEscapedChar | js/utils.js:280-288 | with the corrected pattern, every escaped character, `'` included, unescapes to itself |
| HtmlEscape.UnescapeIntendedEscape | js/utils.js:269-289 | with the corrected pattern, unescaping undoes escaping for every string |
| HexColor.HexDigit | js/utils.js:98 | `toString(16)` writes lower-case digits |
| HexColor.HexValue | js/utils.js:91-93 | `parseInt(c, 16)` of one digit is below 16 |
| HexColor.HexValueOfDigit | js/utils.js:91-98 | reading back a written digit gives its value |
| HexColor.HexDigitOfValue | js/utils.js:91-98 | writing back a read digit lower-cases it |
| HexColor.ToHex | js/utils.js:98 | `n.toString(16)` is at least one lower-case hexadecimal digit |
| HexColor.Fixed | js/utils.js:98 | exactly `w` lower-case hexadecimal digits |
| HexColor.ToHexFixed | js/utils.js:98 | a number with exactly `w` digits is written in `w` digits |
| HexColor.FixedConcat | js/utils.js:98 | the digits of `a · 16^w + b` are those of `a`, then `w` digits of `b` |
| HexColor.ParseFixed | js/utils.js:91-93 | reading back `w` written digits gives the number |
| HexColor.FixedParse | js/utils.js:91-93 | writing back the value of some digits gives them lower-cased |
| HexColor.LeadingOne | js/utils.js:98 | `(1 << 24) + v` is written as `1` followed by `v` in six digits |
| HexColor.SixDigits | js/utils.js:98 | six digits of the packed colour are the three components in two digits each |
| HexColor.RgbToHexDigits | js/utils.js:97-99 | `rgbToHex` is `#` then each component in two lower-case digits |
| HexColor.RgbToHexShape | js/utils.js:97-99 | `rgbToHex` always yields `#` and six lower-case hexadecimal digits |
| HexColor.Digits | js/utils.js:89 | an accepted colour has six hexadecimal digits after the optional `#` |
| HexColor.HexToRgb | js/utils.js:88-95 | `null` exactly unless the input is six hexadecimal digits after an optional `#`; otherwise three components in 0..255 |
| HexColor.HexToRgbOfRgbToHex | js/utils.js:88-99 | `hexToRgb(rgbToHex(r, g, b))` gives back `(r, g, b)` |
| HexColor.RgbToHexOfHexToRgb | js/utils.js:88-99 | an accepted colour read and written back is `#` and its digits lower-cased |
| HexColor.ComponentDigits | js/utils.js:89-93 | the components, written in two digits each, are the colour's digits lower-cased |
| Text.ToLowerChar | js/diff-viewer.js:91-92 | lower-casing maps `A`-`Z` to `a`-`z` and keeps every other character |
| Text.ToUpperChar | js/string-utils.js:113 | upper-casing maps `a`-`z` to `A`-`Z` and keeps every other character |
| Text.ToLower | js/diff-viewer.js:91-92 | `toLowerCase` keeps the length and maps each character |
| Text.ToUpper | js/string-utils.js:113 | `toUpperCase` keeps the length and maps each character |
| Text.CaseMappingLaws | js/string-utils.js:111-121 | both case mappings are idempotent, and the last one applied decides the case |
| Text.Trim | js/string-utils.js:143 | `trim` is a slice of the input, cut only at whitespace, with no whitespace at either end |
| Text.TrimOfTrimmed | js/string-utils.js:143 | a text without whitespace at its ends is its own trim |
| Text.TrimIdempotent | js/string-utils.js:141-143 | trimming twice is trimming once |
| Text.TrimEmptyIffAllWhitespace | js/terminal.js:24-25 | a line trims to nothing exactly when it is all whitespace |
| Text.RemoveWhitespace | js/string-utils.js:137 | removing whitespace leaves no whitespace and never lengthens the text |
| Text.RemoveWhitespaceLength | js/text-analyzer.js:35-36 | the non-whitespace count is the character count minus the whitespace count |
| Text.RemoveWhitespaceAppend | js/text-analyzer.js:36 | removing whitespace works piecewise |
| Text.IndexOf | js/file-comparator.js:122 | the first occurrence of the separator, or none |
| Text.SplitOn | js/file-comparator.js:122 | `split('\n')` gives one more piece than there are separators, none holding one |
| Text.JoinSplitOn | js/text-analyzer.js:33 | joining the pieces of `split` with the separator gives back the text |
| Text.SplitWhitespace | js/text-analyzer.js:34 | `split(/\s+/)` cuts the text exactly at its maximal runs of whitespace (`CutAtWhitespaceRuns` with the runs `WhitespaceRuns`): the pieces hold no whitespace, only the first and the last piece may be empty, and the pieces joined back with the runs give the text; there is one more piece than there are runs |
| Text.CutAtWhitespaceRunsUnique | js/text-analyzer.js:34 | no other cut of the text at its maximal runs of whitespace exists, so the pieces of `split(/\s+/)` are determined |
| Text.TrimPadded | js/diff-viewer.js:86-87 | `trim` removes exactly the whitespace around a text that starts and ends with a non-whitespace character |
| Text.ConcatSplitWhitespace | js/text-analyzer.js:34 | the pieces of `split(/\s+/)` hold exactly the non-whitespace characters, in order |
| DiffViewer.CollapseWhitespace | js/diff-viewer.js:86-87 | the shape of the result: only single spaces remain as whitespace, never two together, it is empty only if the text was, and it starts with whitespace exactly when the text does (its value is stated by `CollapseIsJoin`) |
| DiffViewer.CollapseIsJoin | js/diff-viewer.js:86-87 | `replace(/\s+/g, ' ')` equals `split(/\s+/).join(' ')`: the text between the maximal runs of whitespace is kept and each run becomes exactly one space |
| DiffViewer.CollapseAppend | js/diff-viewer.js:86-87 | collapsing works piecewise wherever no run of whitespace crosses the seam |
| DiffViewer.TrimCollapse | js/diff-viewer.js:86-87 | trimming after collapsing gives the same text as collapsing after trimming |
| DiffViewer.CollapseRun | js/diff-viewer.js:86-87 | a run of spaces before a letter collapses to one space |
| DiffViewer.CollapseOfCollapsed | js/diff-viewer.js:86-87 | collapsing a collapsed text changes nothing |
| DiffViewer.NormalizeWhitespace | js/diff-viewer.js:85-88 | the shape after collapse and trim: only single spaces, none at either end, never longer than the text (its value is stated by `NormalizeWhitespaceIsJoin`) |
| DiffViewer.NormalizeWhitespaceIsJoin | js/diff-viewer.js:85-88 | the normalised text is the pieces of the trimmed text between its maximal runs of whitespace, joined with single spaces |
| DiffViewer.NormalizeWhitespaceIsWords | js/diff-viewer.js:85-88 | the normalised text is the words of the text, as the text analyzer finds them, one space apart |
| DiffViewer.NormalizeWhitespaceIdempotent | js/diff-viewer.js:85-88 | normalising whitespace twice is normalising once |
| DiffViewer.LowerKeepsWhitespace | js/diff-viewer.js:85-93 | lower-casing neither creates nor changes whitespace |
| DiffViewer.CollapseLowerCommute | js/diff-viewer.js:85-93 | collapsing before lower-casing, as the code does, equals the other order |
| DiffViewer.CollapseExample | js/diff-viewer.js:86 | `"  x   y  "` collapses to `" x y "` |
| DiffViewer.TrimExample | js/diff-viewer.js:86-87 | `" x y "` trims to `"x y"` |
| DiffViewer.NormalizeExample | js/diff-viewer.js:85-88 | `"  x   y  "` normalises to `"x y"` |
| DiffViewer.Normalize | js/diff-viewer.js:82-93 | the normalised text is never longer, and is the raw text when both options are off |
| DiffViewer.CalculateStats | js/diff-viewer.js:143-153 | added, removed and unchanged are the summed lengths of type 1, type −1 and other segments; similarity is that of the raw texts |
| DiffViewer.PerformDiff | js/diff-viewer.js:69-108 | nothing unless both texts are non-empty; the normalised texts; the mode dispatch with its `checklines` flags; raw-text similarity; outside line mode, a diff of the normalised texts whose counts measure them |
| DiffViewer.PerformDiffIntended | js/diff-viewer.js:95-107 | with line mode expanding its placeholders, every mode yields a diff of the normalised texts and the counts measure them |
| LineTokens.LineEnd | js/diff-viewer.js:97 | a line runs to just past its `'\n'` or to the end of the text |
| LineTokens.LinesFrom | js/diff-viewer.js:97 | no line is empty, and there are at most as many lines as characters |
| LineTokens.SplitLines | js/diff-viewer.js:97 | the lines of a text are non-empty and at most as many as its characters |
| LineTokens.ConcatLinesFrom | js/diff-viewer.js:97 | the lines from any position join back to the rest of the text |
| LineTokens.ConcatSplitLines | js/diff-viewer.js:97 | the lines join back to the text |
| LineTokens.Find | js/diff-viewer.js:97 | a line's position in the table, or proof that it is absent |
| LineTokens.Encode | js/diff-viewer.js:97 | one placeholder per line; the table only grows, keeps distinct lines, and maps each placeholder to its line |
| LineTokens.EncodeBijective | js/diff-viewer.js:97 | identical lines get identical placeholders, and different lines different ones |
| LineTokens.ExpandTokens | js/diff-viewer.js:97-98 | placeholders that name their lines expand to the lines joined |
| LineTokens.ExpandEncode | js/diff-viewer.js:97-98 | the placeholders of some lines expand back to their text |
| LineTokens.ExpandLinesToChars | js/diff-viewer.js:97-98 | both placeholder strings expand back to their texts over the shared table |
| LineTokens.ExpandSegments | js/diff-viewer.js:98-106 | each segment is expanded in place, keeping its operation |
| LineTokens.ExpandSource | js/diff-viewer.js:98-106 | expanding the segments expands the texts they spell |
| LineTokens.ExpandReconstructs | js/diff-viewer.js:98-106 | a diff of the placeholders, expanded, is a diff of the expanded texts |
| LineTokens.LineModeDiff | js/diff-viewer.js:96-98 | line mode with expansion yields a diff of the two texts |
| LineTokens.LineModeDiffCounts | js/diff-viewer.js:96-107 | with expansion, the line-mode counts measure characters of the two texts |
| LineTokens.LineModeCountsLines | js/diff-viewer.js:96-107 | without expansion, the line-mode counts measure lines, not characters |
| LineTokens.LineModeCountExample | js/diff-viewer.js:96-107 | `"a\nb\nc"` has three lines but five characters |
| TextAnalyzer.NonEmpty | js/text-analyzer.js:34 | every piece kept is a non-empty piece of the input, and none is added (which pieces are kept is stated by `NonEmptyAppend` and `NonEmptyOne`) |
| TextAnalyzer.NonEmptyAppend | js/text-analyzer.js:34 | the filter works piecewise: filtering a concatenation concatenates the filtered parts, so the non-empty pieces are kept in order |
| TextAnalyzer.NonEmptyOne | js/text-analyzer.js:34 | a single piece is kept exactly when it is non-empty |
| TextAnalyzer.NonEmptyKeepsAll | js/text-analyzer.js:34 | pieces that are all non-empty pass the filter unchanged |
| TextAnalyzer.ConcatNonEmpty | js/text-analyzer.js:34 | dropping empty pieces keeps the text they spell |
| TextAnalyzer.NonBlank | js/text-analyzer.js:37 | every piece kept is not blank, and no more pieces come out than went in (which pieces are kept is stated by `NonBlankAppend` and `NonBlankOne`) |
| TextAnalyzer.NonBlankAppend | js/text-analyzer.js:37 | the filter works piecewise: filtering a concatenation concatenates the filtered parts, so the non-blank pieces are kept in order |
| TextAnalyzer.NonBlankOne | js/text-analyzer.js:37 | a single piece is kept exactly when its trim is not empty |
| TextAnalyzer.AllWhitespaceIff | js/text-analyzer.js:36 | a text is all whitespace exactly when removing whitespace leaves nothing |
| TextAnalyzer.NonBlankEmptyIff | js/text-analyzer.js:37 | no piece survives the blank filter exactly when the pieces hold no non-whitespace character |
| TextAnalyzer.Words | js/text-analyzer.js:34 | a blank text has no words; otherwise the filter drops nothing and the words are exactly the pieces of `split(/\s+/)` of the trimmed text, each non-empty and without whitespace |
| TextAnalyzer.WordCount | js/text-analyzer.js:34 | the number of words is the number of places where a non-whitespace character starts the text or follows whitespace |
| TextAnalyzer.WordsKeepText | js/text-analyzer.js:34 | the words hold exactly the non-whitespace characters of the text, in order |
| TextAnalyzer.RemoveWhitespaceTrim | js/text-analyzer.js:34 | trimming removes whitespace only |
| TextAnalyzer.RemoveWhitespaceEnds | js/text-analyzer.js:34 | cutting whitespace off both ends keeps the non-whitespace characters |
| TextAnalyzer.NoWordsIffBlank | js/text-analyzer.js:34 | a text has no words exactly when it is all whitespace |
| TextAnalyzer.BreakLen | js/text-analyzer.js:37 | a separator match is at least two characters long |
| TextAnalyzer.BreakIsWhitespace | js/text-analyzer.js:37 | a separator runs from a `'\n'` to a `'\n'` over whitespace only |
| TextAnalyzer.BreakRemoved | js/text-analyzer.js:37 | a separator holds no non-whitespace character |
| TextAnalyzer.FirstBreak | js/text-analyzer.js:37 | the leftmost separator at or after a position: a match where it stops, none between the position and it, and the end when there is none |
| TextAnalyzer.SplitParagraphs | js/text-analyzer.js:37 | no piece holds a separator; the pieces joined back with the separators consumed (`ParagraphBreaks`) give the text; each separator is as long as the greedy `\s*` makes it, so no piece after one has a `'\n'` before its first non-whitespace character |
| TextAnalyzer.ParagraphBreaksAllBreaks | js/text-analyzer.js:37 | every separator in the list consumed has the shape of `/\n\s*\n/` |
| TextAnalyzer.ParagraphBreaksShape | js/text-analyzer.js:37 | each separator consumed starts and ends with `'\n'`, is at least two long and holds whitespace only, the shape of `/\n\s*\n/` |
| TextAnalyzer.PrefixBeforeBreak | js/text-analyzer.js:37 | the text before the leftmost separator holds no separator |
| TextAnalyzer.AfterBreak | js/text-analyzer.js:37 | a separator match is greedy: the text after it has no `'\n'` before its first non-whitespace character |
| TextAnalyzer.ParagraphsKeepText | js/text-analyzer.js:37 | the pieces keep every non-whitespace character, in order |
| TextAnalyzer.ParagraphCountZeroIff | js/text-analyzer.js:37 | the paragraph count is 0 exactly for an all-whitespace text |
| TextAnalyzer.DuplicatesAndDistinct | js/text-analyzer.js:40-53 | duplicates = non-blank lines − distinct non-blank lines (exact, untrimmed comparison) |
| TextAnalyzer.DuplicateStep | js/text-analyzer.js:42-52 | one more line grows the seen set and counts a duplicate exactly when a non-blank line was seen before |
| TextAnalyzer.CountDuplicates | js/text-analyzer.js:40-53 | the `lineMap` loop counts the non-blank lines that repeat an earlier line |
| TextAnalyzer.FindKey | js/text-analyzer.js:59 | the map lookup finds a key's entry or reports that there is none |
| TextAnalyzer.FrequenciesCount | js/text-analyzer.js:56-60 | each entry counts exactly the words that lower-case to its key; keys are distinct and lower case; no other string counts a word |
| TextAnalyzer.FrequenciesTotal | js/text-analyzer.js:56-60 | the counts of the table add up to the number of words |
| TextAnalyzer.EveryWordHasEntry | js/text-analyzer.js:56-60 | every word is counted under its lower-case form |
| TextAnalyzer.OccurrencesPositive | js/text-analyzer.js:58-59 | a word's lower-case form counts at least that word |
| TextAnalyzer.CountsBump | js/text-analyzer.js:59 | a repeated word bumps its own entry, keeping the counts right |
| TextAnalyzer.CountsAppend | js/text-analyzer.js:59 | a new word gets a last entry with count 1, keeping the counts right |
| TextAnalyzer.WordFrequency | js/text-analyzer.js:56-60 | the loop builds the table in insertion order |
| TextAnalyzer.Insert | js/text-analyzer.js:63-64 | insertion adds exactly one element |
| TextAnalyzer.SortDesc | js/text-analyzer.js:63-68 | the sort is a permutation |
| TextAnalyzer.InsertSorted | js/text-analyzer.js:63-64 | insertion keeps the order largest first |
| TextAnalyzer.SortDescSorted | js/text-analyzer.js:63-68 | the sort puts the largest key first |
| TextAnalyzer.Take | js/text-analyzer.js:65 | `slice(0, n)` is the first `n` elements, or all of them when there are fewer |
| TextAnalyzer.PrefixOfSorted | js/text-analyzer.js:63-65 | a prefix of a sorted sequence is sorted and dominates the rest |
| TextAnalyzer.TakeOfSorted | js/text-analyzer.js:63-65 | the first `n` of the sort are sorted, come from the input, and nothing left out outranks them |
| TextAnalyzer.TopWordsSpec | js/text-analyzer.js:62-65 | at most ten entries of the table, most frequent first; no entry left out is more frequent than one shown |
| TextAnalyzer.FirstMaxIndex | js/text-analyzer.js:68-69 | the first element of largest key |
| TextAnalyzer.LastMinIndex | js/text-analyzer.js:68-70 | the last element of smallest key |
| TextAnalyzer.SortDescHead | js/text-analyzer.js:68-69 | the stable sort starts with the first element of largest key |
| TextAnalyzer.InsertLast | js/text-analyzer.js:68-70 | where an inserted element lands at the back of a sorted sequence |
| TextAnalyzer.SortDescLast | js/text-analyzer.js:68-70 | the stable sort ends with the last element of smallest key |
| TextAnalyzer.LongestWordIsFirstLongest | js/text-analyzer.js:68-69 | undefined exactly without words; otherwise the first word of greatest length |
| TextAnalyzer.ShortestWordIsLastShortest | js/text-analyzer.js:68-70 | undefined exactly without words; otherwise the last word of smallest length |
| TextAnalyzer.Ratio | js/text-analyzer.js:82 | the average is non-negative, and 0 without words |
| TextAnalyzer.RatioPlus | js/text-analyzer.js:82 | an average over the same count splits over a sum |
| TextAnalyzer.WordsExample | js/text-analyzer.js:34 | `"a "` has the one word `"a"` |
| TextAnalyzer.AvgWordLengthCountsWhitespace | js/text-analyzer.js:82 | the reported average is the mean word length plus the whitespace per word |
| TextAnalyzer.AvgWordLengthExample | js/text-analyzer.js:82 | for `"a "` the report is 2 where the mean word length is 1 |
| TextAnalyzer.MeanWordLengthOfWords | js/text-analyzer.js:82 | the corrected average is the words' total length over their number |
| TextAnalyzer.PerformAnalysis | js/text-analyzer.js:32-84 | lines = `'\n'` count + 1; words, characters, non-whitespace and paragraph counts; duplicate count; top ten table; longest and shortest words; average, each as defined above |
| StringUtils.Reverse | js/string-utils.js:131 | the same length, with each character mirrored |
| StringUtils.ReverseInvolution | js/string-utils.js:129-131 | reversing twice gives back the input |
| StringUtils.ReverseAppend | js/string-utils.js:131 | reversal turns concatenation around |
| StringUtils.CapitalizeAfter | js/string-utils.js:125 | capitalising keeps the length |
| StringUtils.CapitalizeAfterAt | js/string-utils.js:125 | each character is upper-cased exactly when it is a word character after a non-word one |
| StringUtils.CapitalizeStartsOfWords | js/string-utils.js:123-125 | capitalising keeps the length, upper-cases exactly the characters at a `\b\w` match, and keeps the rest |
| StringUtils.UpperKeepsWordChar | js/string-utils.js:125 | upper-casing keeps a character a word character or a non-word one |
| StringUtils.CapitalizeIdempotent | js/string-utils.js:123-125 | capitalising twice is capitalising once |
| StringUtils.Transform | js/string-utils.js:111-145 | a result exactly for the six transform actions |
| StringUtils.TransformLaws | js/string-utils.js:111-145 | case mapping, capitalising and reversal keep the length; reversal is an involution; remove-spaces leaves no whitespace; trim is a slice with no whitespace at either end |
| StringUtils.TransformIdempotent | js/string-utils.js:111-145 | every transform but reversal is idempotent |
| StringUtils.RemoveWhitespaceIdempotent | js/string-utils.js:135-137 | removing whitespace twice is removing it once |
| StringUtils.Code | js/string-utils.js:66-109 | a result only for coding actions, always one except for a failing decoder, and the HTML actions are the escape functions |
| StringUtils.PerformAction | js/string-utils.js:63-149 | the inputs never change; a coding action that succeeds writes its result to `encodeOutput` and nothing else; a transform writes its result to `transformOutput` and nothing else; a failed decode and an unknown action change nothing |
| StringUtils.HtmlRoundTrip | js/string-utils.js:99-109 | html-encode then html-decode gives back an input without `'` |
| Terminal.ParseCommand | js/terminal.js:66-110 | a known command exactly for the thirteen names, any other name is unknown and kept |
| Terminal.DiffSplit | js/terminal.js:123-124 | `ceil(n / 2)` lies in [2, n) for n ≥ 3 |
| Terminal.DiffArgs | js/terminal.js:117-124 | the usage error exactly below three parts |
| Terminal.DiffArgsSplitWords | js/terminal.js:123-124 | the two texts, space-joined, are the arguments; the second has as many words as the first or one more |
| Terminal.DiffArgsNonEmpty | js/terminal.js:117-124 | with non-empty words, both texts are non-empty |
| Text.SplitTrimmedWords | js/terminal.js:64 | splitting a trimmed non-empty command gives non-empty words |
| Text.TrimmedRest | js/terminal.js:64 | after the first gap of a trimmed command, the rest is trimmed and non-empty |
| Terminal.Respond | js/terminal.js:60-115 | `clear` empties the pane; at most one block follows the echo; an unknown command gives exactly one unknown-command error |
| Terminal.SavedHistory | js/terminal.js:431-438 | the saved copy has at most 100 entries |
| Terminal.SavedHistoryNewest | js/terminal.js:431-438 | the saved copy is the newest 100 commands, and after a new command it starts with that command |
| Terminal.Navigate | js/terminal.js:45-51 | ArrowUp moves to an older entry only while one exists, ArrowDown to a newer one only above 0; the index stays in [−1, length − 1] and never returns to −1 |
| Terminal.NavigateUpDown | js/terminal.js:45-51 | a possible move up followed by a move down returns to the same entry |
| Terminal.TerminalModule.constructor | js/terminal.js:4-8 | an empty history with the index at −1 |
| Terminal.TerminalModule.NavigateHistory | js/terminal.js:45-58 | the index steps as `Navigate` says and the line shows that entry, or nothing |
| Terminal.TerminalModule.ExecuteCommand | js/terminal.js:60-115 | the command is put first in the history and saved; the pane keeps its blocks and gets the echo unless the command is `clear`, which empties it, then the response follows |
| Terminal.TerminalModule.Submit | js/terminal.js:24-29 | an empty trimmed command changes nothing; any other is put first in the history, its echo and response reach the pane, the line is emptied and the index reset to −1 |
| Terminal.TerminalModule.HandleKeydown | js/terminal.js:21-37 | Enter on a blank line changes nothing; otherwise the trimmed command runs, the line is emptied and the index reset; the arrows browse |
| Terminal.EnteredDiffTexts | js/terminal.js:117-124 | an entered `diff` with three or more words always has two non-empty texts |
| FileComparator.LineRows | js/file-comparator.js:122-128 | one row per non-empty line, with the segment's operation |
| FileComparator.ChangedRows | js/file-comparator.js:108-130 | only added and removed segments render rows, and no row is empty |
| FileComparator.DisplayComparison | js/file-comparator.js:105-133 | the loop renders the rows of the changed segments, and "identical" exactly when there are none |
| FileComparator.IdenticalIff | js/file-comparator.js:105-133 | "Files are identical" appears exactly when every added or removed segment holds only line breaks |
| FileComparator.SegmentRowsEmptyIff | js/file-comparator.js:112-129 | a segment renders no row exactly when it is an equality or holds only line breaks |
| FileComparator.LineRowsEmptyIff | js/file-comparator.js:124-128 | no row exactly when every line is empty |
| FileComparator.SplitEmptyIff | js/file-comparator.js:122 | every piece of `split('\n')` is empty exactly when the text holds only line breaks |
| FileComparator.EscapeOnlyNewlines | js/file-comparator.js:121 | escaping keeps a text of line breaks and adds no line break to any other |
| FileComparator.ChangePercentage | js/file-comparator.js:146 | the percentage is non-negative, and 0 exactly for two empty files or no change |
| FileComparator.CalculateComparationStats | js/file-comparator.js:135-147 | added and removed are the summed lengths of type 1 and type −1 segments; total is the longer length; percentage and similarity follow |
| FileComparator.ChangeBounded | js/file-comparator.js:135-146 | for a diff of the two files the removed count is at most \|A\|, the added at most \|B\|, and the percentage at most 200 |
| FileComparator.FileComparatorModule.constructor | js/file-comparator.js:4-9 | both slots empty, nothing rendered, compare disabled |
| FileComparator.FileComparatorModule.UpdateCompareButton | js/file-comparator.js:87-90 | compare is disabled exactly when a slot is empty; nothing else changes |
| FileComparator.FileComparatorModule.HandleFileUpload | js/file-comparator.js:63-78 | a read into `'fileA'` fills slot A only, any other target slot B only; a failed read changes nothing |
| FileComparator.FileComparatorModule.CompareFiles | js/file-comparator.js:92-103 | nothing without both files; otherwise the rows and summary of the cleaned-up diff of their contents |
| FileComparator.FileComparatorModule.ClearFiles | js/file-comparator.js:173-183 | both slots and every pane emptied, compare disabled |

## Left out

- Rendering is not modelled: HTML strings, `innerHTML`, `displayDiff`, `displayAnalysis`, `displayFileInfo` with `formatBytes`, and toasts. The terminal's output pane is a list of `Block` values and the file comparator's result is its list of rows.
- `diff_match_patch` is not modelled. `diff_main`, `diff_cleanupSemantic` and the line munger are parameters whose reconstruction promise is assumed. Its merging of adjacent segments of the same kind is not assumed and not stated.
- The line munger is modelled as the code calls it at `js/diff-viewer.js:97`: a method from two texts to two placeholder strings. In the published `diff_match_patch`, `diff_linesToCharsMunge_` is a one-argument helper local to `diff_linesToChars_`, not a method. With that library, line 97 most likely throws a `TypeError` and line mode shows nothing. The model does not capture that exception.
- DiffViewer.CollapseWhitespace: its own ensures states only the shape of the result, to keep its many callers cheap to verify; the value is stated by `DiffViewer.CollapseIsJoin`.
- DiffViewer.NormalizeWhitespace: its own ensures states only the shape of the result; the value is stated by `DiffViewer.NormalizeWhitespaceIsJoin` and `DiffViewer.NormalizeWhitespaceIsWords`.
- TextAnalyzer.NonEmpty: its own ensures states only what is kept; which pieces are kept, and in what order, is stated by `NonEmptyAppend` and `NonEmptyOne`.
- TextAnalyzer.NonBlank: its own ensures states only what is kept; which pieces are kept, and in what order, is stated by `NonBlankAppend` and `NonBlankOne`.
- Text is a sequence of code points. That matches JavaScript's UTF-16 code units only for text inside the Basic Multilingual Plane. Outside it, lengths and positions differ, which affects `EditDistance.GetEditDistance`, `EditDistance.Similarity`, the counts of `DiffViewer.CalculateStats` and `FileComparator.CalculateComparationStats`, the `characters` of `TextAnalyzer.PerformAnalysis`, and `StringUtils.Reverse`. `Reverse` splits a surrogate pair in JavaScript and cannot here.
- The file reader is asynchronous. `HandleFileUpload` takes its outcome as a parameter, with `None` for a failed read.
- `FileComparator.FileComparatorModule.ClearFiles`: does not model emptying the two `<input type=file>` values, which are DOM state.
- `FileComparator.FileComparatorModule.constructor`: the button's initial `disabled` state comes from the page markup; the model starts it disabled.
- Base64 and URL coding call the browser's `btoa`/`atob`/`encodeURIComponent`. They are parameters of `StringUtils.Code`, with `None` where the built-in throws. `htmlEntitiesEncode`/`Decode` are not used by any modelled action.
- `Terminal.Respond`: the `hash`, `regex`, `encode`, `decode`, `analyze`, `uuid`, `timestamp` and `jwt` handlers call CryptoJS, `RegExp`, `Date` and `Math.random`. They are the single `Handled` block. `exit` toggles the application window and writes nothing. An exception thrown by a handler is not modelled.
- `Terminal.TerminalModule.ExecuteCommand`: `saveHistory` also builds a JSON string it never uses. `loadHistory` reads a different variable than `saveHistory` writes, so nothing is restored and it is not modelled.
- `Terminal.Respond`: the `diff` command's diff and rendering are external; its block carries the two texts.
- `Text.ToLower`: maps ASCII letters only, because JavaScript's full Unicode case mapping is not modelled. The same holds for `Text.ToUpper`, `Text.ToLowerChar`, `Text.ToUpperChar`, and the `i` flag of `hexToRgb`.
- `EditDistance.Similarity`: an exact `real`. The `toFixed(2)` string shown on the page is not modelled, and neither is the same formatting in `FileComparator.ChangePercentage` and `TextAnalyzer.PerformAnalysis`.
- `TextAnalyzer.PerformAnalysis`: the `duplicates` records, with each line cut to 100 characters, are not kept; only their number is reported. `words.sort` reorders the `words` array in place, but only its length is read afterwards, so the model sorts a copy.
- `JsonCompare.Get`: the lookup covers own properties only. JavaScript's `obj?.[key]` also finds inherited properties, so the model does not capture keys that name `Object.prototype` members (`toString`, `constructor`, `__proto__`, `hasOwnProperty`, ...), whose lookup on the side lacking them yields a function or an object instead of `undefined` (a `modified` record, or a recursion into `Object.prototype`, where the model reports `added` or `removed`), nor an array's `length`, which JavaScript finds on every array while the model reports it as added or removed.
- JSON numbers are `int`: floating point is not modelled. Arrays are objects keyed by their indices, so an array and an object with the same index keys compare as equal here although `JSON.stringify` tells them apart. The root of a comparison is always an object, so the `obj || {}` guard for a missing root is not modelled.
- `LineTokens.MaxTokens`: the tokenizer gives each distinct line a `char` below the surrogate range. `DiffViewer.PerformDiffIntended` therefore requires at most that many characters in line mode.

## Findings

| source | as written | input that shows it | evidently intended | confidence | as-written member | corrected member |
|---|---|---|---|---|---|---|
| js/utils.js:286-288 | `unescapeHtml` only matches `/&[a-z]+;/`, so its `&#039;` entry is never reached | `unescapeHtml(escapeHtml("'"))` is `&#039;`, not `'` | the pattern also matches `&#039;`, so unescaping undoes escaping for every string | high, not executed | HtmlEscape.UnescapeMissesApostrophe | HtmlEscape.UnescapeIntendedEscape |
| js/diff-viewer.js:96-106 | line mode either throws at `diff_linesToCharsMunge_` or, with a munger of the shape the call assumes, diffs the placeholder strings; nothing expands the placeholders back to lines, so line mode never diffs characters and its counts are counts of lines | `"a\nb\nc"` against any text: the left count is 3 (lines), not 5 (characters) | every placeholder segment is expanded back to its lines, so the result is a diff of the texts and the counts measure characters | medium, not executed | LineTokens.LineModeCountsLines | DiffViewer.PerformDiffIntended |
| js/text-analyzer.js:82 | `avgWordLength` divides the whole text's length, whitespace included, by the number of words | `"a "`: one word of length 1, reported average 2 | the total length of the words over their number | medium, not executed | TextAnalyzer.AvgWordLengthCountsWhitespace | TextAnalyzer.MeanWordLengthOfWords |
