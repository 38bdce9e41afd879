/** The encode/decode and transform actions of the string utility tool
    (`performAction`, js/string-utils.js:63-149). Each action reads one
    input field and writes one output field. Base64 and URL coding call
    browser built-ins, so they are parameters here. A decoder that throws
    returns `None`. */
module StringUtils {
  import opened Wrappers
  import opened Text
  import HtmlEscape

  // ---------------------------------------------------------------------
  // The transforms

  /** `s.split('').reverse().join('')`: the characters in reverse order.
      A `char` is a code point, so unlike the JavaScript, which reverses
      UTF-16 code units, this never splits a surrogate pair. */
  function Reverse(s: string): (r: string)
    ensures |r| == |s|
    ensures forall k :: 0 <= k < |s| ==> r[k] == s[|s| - 1 - k]
  {
    if |s| == 0 then [] else Reverse(s[1..]) + [s[0]]
  }

  /** Reversing twice gives back the input. */
  lemma {:induction false} ReverseInvolution(s: string)
    ensures Reverse(Reverse(s)) == s
  {
    var r := Reverse(s);
    assert forall k :: 0 <= k < |s| ==> Reverse(r)[k] == r[|s| - 1 - k] == s[k];
  }

  /** Reversal turns concatenation around. */
  lemma {:induction false} ReverseAppend(a: string, b: string)
    ensures Reverse(a + b) == Reverse(b) + Reverse(a)
  {
    var ab := a + b;
    assert forall k :: 0 <= k < |ab| ==> Reverse(ab)[k] == (Reverse(b) + Reverse(a))[k] by {
      forall k | 0 <= k < |ab|
        ensures Reverse(ab)[k] == (Reverse(b) + Reverse(a))[k]
      {
        if k < |b| {
          assert ab[|ab| - 1 - k] == b[|b| - 1 - k];
        } else {
          assert ab[|ab| - 1 - k] == a[|a| - 1 - (k - |b|)];
        }
      }
    }
  }

  /** The characters of `\w`: ASCII letters, digits and `_`. */
  predicate IsWordChar(c: char) {
    ('a' <= c <= 'z') || ('A' <= c <= 'Z') || ('0' <= c <= '9') || c == '_'
  }

  /** `\b\w` matches at `k`: a word character with no word character
      before it. */
  predicate StartsWord(s: string, k: nat)
    requires k < |s|
  {
    IsWordChar(s[k]) && (k == 0 || !IsWordChar(s[k - 1]))
  }

  /** The scan of `s.replace(/\b\w/g, c => c.toUpperCase())`, where
      `afterWord` says whether the character before `s` was a word
      character. */
  function CapitalizeAfter(s: string, afterWord: bool): (r: string)
    ensures |r| == |s|
  {
    if |s| == 0 then []
    else
      var c := s[0];
      [if IsWordChar(c) && !afterWord then ToUpperChar(c) else c] + CapitalizeAfter(s[1..], IsWordChar(c))
  }

  /** `s.replace(/\b\w/g, char => char.toUpperCase())`. */
  function Capitalize(s: string): string {
    CapitalizeAfter(s, false)
  }

  /** Each character of the scan: upper-cased when it is a word character
      and the character before it is not. */
  lemma {:induction false} CapitalizeAfterAt(s: string, afterWord: bool, k: nat)
    requires k < |s|
    ensures CapitalizeAfter(s, afterWord)[k] ==
              if IsWordChar(s[k]) && (if k == 0 then !afterWord else !IsWordChar(s[k - 1]))
              then ToUpperChar(s[k]) else s[k]
    decreases k
  {
    if k > 0 {
      CapitalizeAfterAt(s[1..], IsWordChar(s[0]), k - 1);
    }
  }

  /** Capitalising upper-cases exactly the characters that start a word and
      keeps every other character. */
  lemma {:induction false} CapitalizeStartsOfWords(s: string)
    ensures |Capitalize(s)| == |s|
    ensures forall k :: 0 <= k < |s| ==> Capitalize(s)[k] == if StartsWord(s, k) then ToUpperChar(s[k]) else s[k]
  {
    var r := Capitalize(s);
    forall k | 0 <= k < |s|
      ensures r[k] == if StartsWord(s, k) then ToUpperChar(s[k]) else s[k]
    {
      CapitalizeAfterAt(s, false, k);
    }
  }

  /** Upper-casing keeps a character a word character or a non-word one. */
  lemma {:induction false} UpperKeepsWordChar(c: char)
    ensures IsWordChar(ToUpperChar(c)) <==> IsWordChar(c)
  {
  }

  /** Capitalising twice is capitalising once. */
  lemma {:induction false} CapitalizeIdempotent(s: string)
    ensures Capitalize(Capitalize(s)) == Capitalize(s)
  {
    var r := Capitalize(s);
    CapitalizeStartsOfWords(s);
    CapitalizeStartsOfWords(r);
    forall k | 0 <= k < |s|
      ensures Capitalize(r)[k] == r[k]
    {
      UpperKeepsWordChar(s[k]);
      if k > 0 {
        UpperKeepsWordChar(s[k - 1]);
      }
    }
  }

  /** The six transform actions, on the text of `transformInput`; `None`
      for an action that is not a transform. */
  function Transform(action: string, input: string): (r: Option<string>)
    ensures r.Some? <==> action in TransformActions
  {
    if action == "uppercase" then Some(ToUpper(input))
    else if action == "lowercase" then Some(ToLower(input))
    else if action == "capitalize" then Some(Capitalize(input))
    else if action == "reverse" then Some(Reverse(input))
    else if action == "remove-spaces" then Some(RemoveWhitespace(input))
    else if action == "trim" then Some(Trim(input))
    else None
  }

  const TransformActions: set<string> := {"uppercase", "lowercase", "capitalize", "reverse", "remove-spaces", "trim"}

  const CodingActions: set<string> := {"base64-encode", "base64-decode", "url-encode", "url-decode", "html-encode", "html-decode"}

  /** The laws of the transforms: case mapping, capitalising and reversal
      keep the length; reversal is an involution; stripping leaves no
      whitespace; trimming yields a slice with no whitespace at either
      end. */
  lemma {:induction false} TransformLaws(input: string)
    ensures |Transform("uppercase", input).value| == |input|
    ensures |Transform("lowercase", input).value| == |input|
    ensures |Transform("capitalize", input).value| == |input|
    ensures |Transform("reverse", input).value| == |input|
    ensures Transform("reverse", Transform("reverse", input).value) == Some(input)
    ensures NoWhitespace(Transform("remove-spaces", input).value)
    ensures var t := Transform("trim", input).value;
            && t == input[TrimStart(input)..TrimEnd(input)]
            && (t == [] || (!IsWhitespace(t[0]) && !IsWhitespace(t[|t| - 1])))
  {
    TransformValues(input);
    ReverseInvolution(input);
  }

  lemma {:induction false} TransformValues(input: string)
    ensures Transform("uppercase", input) == Some(ToUpper(input))
    ensures Transform("lowercase", input) == Some(ToLower(input))
    ensures Transform("capitalize", input) == Some(Capitalize(input))
    ensures Transform("reverse", input) == Some(Reverse(input))
    ensures Transform("reverse", Reverse(input)) == Some(Reverse(Reverse(input)))
    ensures Transform("remove-spaces", input) == Some(RemoveWhitespace(input))
    ensures Transform("trim", input) == Some(Trim(input))
  {
  }

  /** Every transform but reversal is idempotent. */
  lemma {:induction false} TransformIdempotent(action: string, input: string)
    requires action in TransformActions && action != "reverse"
    ensures Transform(action, Transform(action, input).value) == Transform(action, input)
  {
    if action == "uppercase" || action == "lowercase" {
      CaseMappingLaws(input);
    } else if action == "capitalize" {
      CapitalizeIdempotent(input);
    } else if action == "remove-spaces" {
      RemoveWhitespaceIdempotent(input);
    } else {
      TrimIdempotent(input);
    }
  }

  /** Stripping whitespace twice is stripping it once. */
  lemma {:induction false} RemoveWhitespaceIdempotent(s: string)
    ensures RemoveWhitespace(RemoveWhitespace(s)) == RemoveWhitespace(s)
  {
    RemoveWhitespaceOfNone(RemoveWhitespace(s));
  }

  // ---------------------------------------------------------------------
  // performAction

  /** The four text fields of the tool. */
  datatype Fields = Fields(encodeInput: string, encodeOutput: string, transformInput: string, transformOutput: string)

  /** The browser built-ins behind `base64Encode`/`base64Decode` and
      `urlEncode`/`urlDecode`; a decoder returns `None` where the built-in
      throws. */
  datatype Codecs = Codecs(base64Encode: string -> string, base64Decode: string -> Option<string>,
                           urlEncode: string -> string, urlDecode: string -> Option<string>)

  /** The result of a coding action on the text of `encodeInput`; `None`
      when a decoder fails or the action is not a coding action. */
  function Code(action: string, input: string, codecs: Codecs): (r: Option<string>)
    ensures r.Some? ==> action in CodingActions
    ensures action in CodingActions && action != "base64-decode" && action != "url-decode" ==> r.Some?
    ensures action == "html-encode" ==> r == Some(HtmlEscape.EscapeHtml(input))
    ensures action == "html-decode" ==> r == Some(HtmlEscape.UnescapeHtml(input))
  {
    if action == "base64-encode" then Some(codecs.base64Encode(input))
    else if action == "base64-decode" then codecs.base64Decode(input)
    else if action == "url-encode" then Some(codecs.urlEncode(input))
    else if action == "url-decode" then codecs.urlDecode(input)
    else if action == "html-encode" then Some(HtmlEscape.EscapeHtml(input))
    else if action == "html-decode" then Some(HtmlEscape.UnescapeHtml(input))
    else None
  }

  /** `performAction(action)`: a coding action writes `encodeOutput`, a
      transform writes `transformOutput`, a failed decode and an unknown
      action write nothing. */
  function PerformAction(action: string, fields: Fields, codecs: Codecs): (r: Fields)
    ensures r.encodeInput == fields.encodeInput && r.transformInput == fields.transformInput
    ensures action in CodingActions ==> r.transformOutput == fields.transformOutput
    ensures action in CodingActions && Code(action, fields.encodeInput, codecs).Some? ==>
              r.encodeOutput == Code(action, fields.encodeInput, codecs).value
    ensures action in TransformActions ==>
              r.encodeOutput == fields.encodeOutput
              && r.transformOutput == Transform(action, fields.transformInput).value
    ensures action !in CodingActions && action !in TransformActions ==> r == fields
    ensures (action == "base64-decode" || action == "url-decode") && Code(action, fields.encodeInput, codecs).None? ==> r == fields
  {
    match Code(action, fields.encodeInput, codecs)
    case Some(out) => fields.(encodeOutput := out)
    case None =>
      match Transform(action, fields.transformInput)
      case Some(out) => fields.(transformOutput := out)
      case None => fields
  }

  /** HTML-encoding and then HTML-decoding gives back `encodeInput` when it
      holds no apostrophe. */
  lemma {:induction false} HtmlRoundTrip(fields: Fields, codecs: Codecs)
    requires '\'' !in fields.encodeInput
    ensures var encoded := PerformAction("html-encode", fields, codecs);
            PerformAction("html-decode", encoded.(encodeInput := encoded.encodeOutput), codecs).encodeOutput == fields.encodeInput
  {
    HtmlEscape.UnescapeEscape(fields.encodeInput);
  }
}
