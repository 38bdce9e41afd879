/** `DevFusionUtils.escapeHtml` and `DevFusionUtils.unescapeHtml`
    (js/utils.js): the five HTML special characters and their entities. */
module HtmlEscape {
  import opened Text

  /** The replacement `escapeHtml` makes for one character. */
  function EscapeChar(c: char): string {
    if c == '&' then "&amp;"
    else if c == '<' then "&lt;"
    else if c == '>' then "&gt;"
    else if c == '"' then "&quot;"
    else if c == '\'' then "&#039;"
    else [c]
  }

  /** The characters `escapeHtml` rewrites. */
  predicate IsSpecial(c: char) {
    c == '&' || c == '<' || c == '>' || c == '"' || c == '\''
  }

  /** What `escapeHtml` must remove from its output. */
  predicate IsMarkup(c: char) {
    c == '<' || c == '>' || c == '"' || c == '\''
  }

  /** `text.replace(/[&<>"']/g, m => map[m])`: every special character
      replaced by its entity; no markup character survives. */
  function EscapeHtml(s: string): (r: string)
    ensures forall k :: 0 <= k < |r| ==> !IsMarkup(r[k])
    ensures |r| >= |s|
  {
    if |s| == 0 then [] else EscapeChar(s[0]) + EscapeHtml(s[1..])
  }

  /** Characters without special meaning are left alone. */
  lemma {:induction false} EscapePlain(s: string)
    requires forall k :: 0 <= k < |s| ==> !IsSpecial(s[k])
    ensures EscapeHtml(s) == s
  {
    if |s| > 0 {
      EscapePlain(s[1..]);
    }
  }

  lemma {:induction false} EscapeAppend(a: string, b: string)
    ensures EscapeHtml(a + b) == EscapeHtml(a) + EscapeHtml(b)
  {
    if |a| == 0 {
      assert a + b == b;
    } else {
      assert (a + b)[1..] == a[1..] + b;
      EscapeAppend(a[1..], b);
    }
  }

  // ---------------------------------------------------------------------
  // unescapeHtml

  /** The length of the run of lower-case ASCII letters at the start of
      `s`: the `[a-z]+` of the pattern (no `i` flag). */
  function LowerRun(s: string): (n: nat)
    ensures n <= |s|
    ensures forall k :: 0 <= k < n ==> IsAsciiLower(s[k])
    ensures n < |s| ==> !IsAsciiLower(s[n])
  {
    if |s| > 0 && IsAsciiLower(s[0]) then 1 + LowerRun(s[1..]) else 0
  }

  /** The length of the `/&[a-z]+;/` match at the start of `s`, or 0 when
      there is none. As `[a-z]` never matches `;`, only the longest run of
      letters can be followed by the `;`. */
  function EntityMatch(s: string): (n: nat)
    ensures n == 0 || (3 <= n <= |s| && s[0] == '&' && s[n - 1] == ';')
  {
    if |s| == 0 || s[0] != '&' then 0
    else
      var run := LowerRun(s[1..]);
      if run > 0 && run + 1 < |s| && s[run + 1] == ';' then run + 2 else 0
  }

  /** `map[m] || m` for the map of `unescapeHtml`. */
  function DecodeEntity(m: string): string {
    if m == "&amp;" then "&"
    else if m == "&lt;" then "<"
    else if m == "&gt;" then ">"
    else if m == "&quot;" then "\""
    else if m == "&#039;" then "'"
    else m
  }

  /** `text.replace(/&[a-z]+;/g, m => map[m] || m)`: scanning left to
      right, each match is replaced by its decoding and scanning resumes
      after it; any other character is copied. */
  function UnescapeHtml(s: string): string
    decreases |s|
  {
    if |s| == 0 then []
    else
      var n := EntityMatch(s);
      if n > 0 then DecodeEntity(s[..n]) + UnescapeHtml(s[n..])
      else [s[0]] + UnescapeHtml(s[1..])
  }

  /** The pattern cannot match `&#039;`: its map entry is dead. */
  lemma {:induction false} ApostropheEntityNeverMatches(rest: string)
    ensures EntityMatch("&#039;" + rest) == 0
  {
    var s := "&#039;" + rest;
    assert s[1] == '#';
  }

  /** The entity of a special character other than the apostrophe is a
      match of the pattern. */
  lemma {:induction false} EscapedEntityMatch(c: char, rest: string)
    requires IsSpecial(c) && c != '\''
    ensures var s, e := EscapeChar(c) + rest, EscapeChar(c);
            EntityMatch(s) == |e| && s[..|e|] == e && s[|e|..] == rest && s[1] != '#'
  {
    var e := EscapeChar(c);
    assert IsNamedEntity(e) by {
      if c == '&' {
        assert e == "&amp;";
      } else if c == '<' {
        assert e == "&lt;";
      } else if c == '>' {
        assert e == "&gt;";
      } else {
        assert e == "&quot;";
      }
    }
    NamedEntityMatch(e, rest);
  }

  /** `&`, one or more lower-case letters, `;`. */
  predicate IsNamedEntity(e: string) {
    && |e| >= 3 && e[0] == '&' && e[|e| - 1] == ';'
    && forall k :: 1 <= k < |e| - 1 ==> IsAsciiLower(e[k])
  }

  /** A named entity at the start of a string is the match there. */
  lemma {:induction false} NamedEntityMatch(e: string, rest: string)
    requires IsNamedEntity(e)
    ensures var s := e + rest;
            EntityMatch(s) == |e| && s[..|e|] == e && s[|e|..] == rest && s[1] != '#'
  {
    var s := e + rest;
    assert s[..|e|] == e && s[|e|..] == rest;
    var t := s[1..];
    assert forall k :: 0 <= k < |e| - 2 ==> t[k] == e[k + 1];
    LowerRunPrefix(t, |e| - 2);
  }

  /** An escaped character followed by anything unescapes to itself,
      except the apostrophe. */
  lemma {:induction false} UnescapeEscapedChar(c: char, rest: string)
    requires c != '\''
    ensures UnescapeHtml(EscapeChar(c) + rest) == [c] + UnescapeHtml(rest)
  {
    var s := EscapeChar(c) + rest;
    var e := EscapeChar(c);
    if IsSpecial(c) {
      EscapedEntityMatch(c, rest);
    } else {
      assert s[1..] == rest;
    }
  }

  /** `unescapeHtml(escapeHtml(s)) == s` for every `s` without an
      apostrophe. */
  lemma {:induction false} UnescapeEscape(s: string)
    requires '\'' !in s
    ensures UnescapeHtml(EscapeHtml(s)) == s
  {
    if |s| > 0 {
      assert '\'' !in s[1..];
      UnescapeEscape(s[1..]);
      UnescapeEscapedChar(s[0], EscapeHtml(s[1..]));
      assert s == [s[0]] + s[1..];
    }
  }

  /** An entity the map does not know passes through unchanged. */
  lemma {:induction false} UnknownEntityPassesThrough(name: string, rest: string)
    requires |name| > 0 && forall k :: 0 <= k < |name| ==> IsAsciiLower(name[k])
    requires name != "amp" && name != "lt" && name != "gt" && name != "quot"
    ensures UnescapeHtml("&" + name + ";" + rest) == "&" + name + ";" + UnescapeHtml(rest)
  {
    var m := "&" + name + ";";
    var s := m + rest;
    assert s[1..][..|name|] == name;
    assert s[1..][|name|] == ';';
    assert LowerRun(s[1..]) == |name| by {
      LowerRunPrefix(s[1..], |name|);
    }
    assert s[..|m|] == m && s[|m|..] == rest;
    assert m != "&amp;" by { assert m[1..|m| - 1] == name; }
    assert m != "&lt;" by { assert m[1..|m| - 1] == name; }
    assert m != "&gt;" by { assert m[1..|m| - 1] == name; }
    assert m != "&quot;" by { assert m[1..|m| - 1] == name; }
    assert m != "&#039;" by { assert m[1] == name[0]; }
  }

  lemma {:induction false} LowerRunPrefix(s: string, n: nat)
    requires n < |s| && !IsAsciiLower(s[n])
    requires forall k :: 0 <= k < n ==> IsAsciiLower(s[k])
    ensures LowerRun(s) == n
  {
    if n > 0 {
      LowerRunPrefix(s[1..], n - 1);
    }
  }

  /** The round trip breaks on the apostrophe: `escapeHtml("'")` is
      `&#039;`, which `unescapeHtml` leaves as it is. */
  lemma {:induction false} UnescapeMissesApostrophe()
    ensures EscapeHtml("'") == "&#039;"
    ensures UnescapeHtml(EscapeHtml("'")) == "&#039;"
    ensures UnescapeHtml(EscapeHtml("'")) != "'"
  {
    EscapeApostrophe();
    UnescapeApostropheEntity();
  }

  lemma {:induction false} EscapeApostrophe()
    ensures EscapeHtml("'") == "&#039;"
  {
    assert EscapeHtml("'") == EscapeChar('\'') + EscapeHtml([]);
  }

  lemma {:induction false} UnescapeApostropheEntity()
    ensures UnescapeHtml("&#039;") == "&#039;"
  {
    var s := "&#039;";
    ApostropheEntityNeverMatches([]);
    assert s + [] == s;
    assert s[1..] == "#039;";
    PlainUnescape("#039;");
  }

  /** A string without `&` unescapes to itself. */
  lemma {:induction false} PlainUnescape(s: string)
    requires '&' !in s
    ensures UnescapeHtml(s) == s
  {
    if |s| > 0 {
      assert '&' !in s[1..];
      PlainUnescape(s[1..]);
    }
  }

  // ---------------------------------------------------------------------
  // The evidently intended decoder

  /** The length of the match of `/&([a-z]+|#039);/` at the start of `s`,
      or 0: the numeric entity `escapeHtml` emits is recognised too. */
  function IntendedMatch(s: string): (n: nat)
    ensures n == 0 || (3 <= n <= |s| && s[0] == '&' && s[n - 1] == ';')
  {
    if |s| >= 6 && s[..6] == "&#039;" then 6 else EntityMatch(s)
  }

  /** `unescapeHtml` with the pattern that reaches every entry of its map. */
  function UnescapeHtmlIntended(s: string): string
    decreases |s|
  {
    if |s| == 0 then []
    else
      var n := IntendedMatch(s);
      if n > 0 then DecodeEntity(s[..n]) + UnescapeHtmlIntended(s[n..])
      else [s[0]] + UnescapeHtmlIntended(s[1..])
  }

  lemma {:induction false} UnescapeIntendedEscapedChar(c: char, rest: string)
    ensures UnescapeHtmlIntended(EscapeChar(c) + rest) == [c] + UnescapeHtmlIntended(rest)
  {
    var s := EscapeChar(c) + rest;
    var e := EscapeChar(c);
    if c == '\'' {
      assert s[..6] == "&#039;" && s[6..] == rest;
    } else if IsSpecial(c) {
      EscapedEntityMatch(c, rest);
      assert |s| < 6 || s[..6] != "&#039;" by { assert s[1] != '#'; }
    } else {
      assert s[1..] == rest;
    }
  }

  /** With the intended pattern, unescaping undoes escaping for every
      string. */
  lemma {:induction false} UnescapeIntendedEscape(s: string)
    ensures UnescapeHtmlIntended(EscapeHtml(s)) == s
  {
    if |s| > 0 {
      UnescapeIntendedEscape(s[1..]);
      UnescapeIntendedEscapedChar(s[0], EscapeHtml(s[1..]));
      assert s == [s[0]] + s[1..];
    }
  }
}
