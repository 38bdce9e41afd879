/** `DevFusionUtils.rgbToHex` and `DevFusionUtils.hexToRgb` (js/utils.js):
    the six-digit `#rrggbb` notation of CSS Color Module Level 4,
    section 5.2, over 8-bit red, green and blue components. */
module HexColor {
  import opened Wrappers
  import opened Text

  /** The `{r, g, b}` object of `hexToRgb`. */
  datatype Rgb = Rgb(r: nat, g: nat, b: nat)

  predicate IsByte(n: int) { 0 <= n <= 255 }

  // ---------------------------------------------------------------------
  // Hexadecimal digits

  predicate IsDecimalDigit(c: char) { '0' <= c <= '9' }

  /** The class `[a-f\d]` under the `i` flag. */
  predicate IsHexDigit(c: char) {
    IsDecimalDigit(c) || ('a' <= c <= 'f') || ('A' <= c <= 'F')
  }

  /** The digits `Number.prototype.toString(16)` writes. */
  predicate IsLowerHexDigit(c: char) {
    IsDecimalDigit(c) || ('a' <= c <= 'f')
  }

  predicate AllHex(s: string) {
    forall k :: 0 <= k < |s| ==> IsHexDigit(s[k])
  }

  /** The lower-case digit for `d`. */
  function HexDigit(d: nat): (c: char)
    requires d < 16
    ensures IsLowerHexDigit(c)
  {
    if d < 10 then ('0' as int + d) as char else ('a' as int + d - 10) as char
  }

  /** The value of one digit, in either case: `parseInt(c, 16)`. */
  function HexValue(c: char): (d: nat)
    requires IsHexDigit(c)
    ensures d < 16
  {
    if IsDecimalDigit(c) then c as int - '0' as int
    else if 'a' <= c <= 'f' then c as int - 'a' as int + 10
    else c as int - 'A' as int + 10
  }

  lemma {:induction false} HexValueOfDigit(d: nat)
    requires d < 16
    ensures HexValue(HexDigit(d)) == d
  {
  }

  /** Reading a digit and writing it back lower-cases it. */
  lemma {:induction false} HexDigitOfValue(c: char)
    requires IsHexDigit(c)
    ensures HexDigit(HexValue(c)) == ToLowerChar(c)
  {
  }

  function Pow16(w: nat): (p: nat)
    ensures p >= 1
  {
    if w == 0 then 1 else 16 * Pow16(w - 1)
  }

  // ---------------------------------------------------------------------
  // Number.prototype.toString(16)

  /** `n.toString(16)`: lower-case digits, most significant first, with no
      leading zero. */
  function ToHex(n: nat): (s: string)
    ensures |s| >= 1
    ensures forall k :: 0 <= k < |s| ==> IsLowerHexDigit(s[k])
  {
    if n < 16 then [HexDigit(n)] else ToHex(n / 16) + [HexDigit(n % 16)]
  }

  /** The last `w` hexadecimal digits of `n`, leading zeros included. */
  function Fixed(n: nat, w: nat): (s: string)
    ensures |s| == w
    ensures forall k :: 0 <= k < |s| ==> IsLowerHexDigit(s[k])
  {
    if w == 0 then [] else Fixed(n / 16, w - 1) + [HexDigit(n % 16)]
  }

  /** A number with exactly `w` digits is written with `w` digits. */
  lemma {:induction false} ToHexFixed(n: nat, w: nat)
    requires w >= 1 && Pow16(w - 1) <= n < Pow16(w)
    ensures ToHex(n) == Fixed(n, w)
  {
    if n >= 16 {
      assert w >= 2;
      ToHexFixed(n / 16, w - 1);
    } else {
      assert w == 1;
    }
  }

  /** Dividing by 16 a number written as `a` above `w` digits `b`. */
  lemma {:induction false} Shift16(a: nat, b: nat, w: nat)
    requires w > 0 && b < Pow16(w)
    ensures (a * Pow16(w) + b) % 16 == b % 16
    ensures (a * Pow16(w) + b) / 16 == a * Pow16(w - 1) + b / 16
    ensures b / 16 < Pow16(w - 1)
  {
    var p := Pow16(w - 1);
    var q := a * p;
    assert a * Pow16(w) == q * 16 by {
      assert Pow16(w) == 16 * p;
    }
    DivMod16(q, b);
  }

  lemma {:induction false} DivMod16(q: nat, b: nat)
    ensures (q * 16 + b) % 16 == b % 16 && (q * 16 + b) / 16 == q + b / 16
  {
  }

  /** Writing `a` above `w` digits of `b`. */
  lemma {:induction false} FixedConcat(a: nat, b: nat, wa: nat, w: nat)
    requires b < Pow16(w)
    ensures Fixed(a * Pow16(w) + b, wa + w) == Fixed(a, wa) + Fixed(b, w)
  {
    if w > 0 {
      Shift16(a, b, w);
      FixedConcat(a, b / 16, wa, w - 1);
      Text.AppendAssoc(Fixed(a, wa), Fixed(b / 16, w - 1), [HexDigit(b % 16)]);
    }
  }

  /** The value of a string of hexadecimal digits: `parseInt(s, 16)`. */
  function ParseHex(s: string): nat
    requires AllHex(s)
  {
    if |s| == 0 then 0 else ParseHex(s[..|s| - 1]) * 16 + HexValue(s[|s| - 1])
  }

  /** Reading back `w` written digits gives the number modulo `16^w`. */
  lemma {:induction false} ParseFixed(n: nat, w: nat)
    requires n < Pow16(w)
    ensures AllHex(Fixed(n, w)) && ParseHex(Fixed(n, w)) == n
  {
    if w > 0 {
      var s := Fixed(n, w);
      ParseFixed(n / 16, w - 1);
      assert s[..|s| - 1] == Fixed(n / 16, w - 1);
    }
  }

  /** Writing back the value of `w` digits lower-cases them. */
  lemma {:induction false} FixedParse(s: string)
    requires AllHex(s)
    ensures ParseHex(s) < Pow16(|s|) && Fixed(ParseHex(s), |s|) == ToLower(s)
  {
    if |s| > 0 {
      var s', c := s[..|s| - 1], s[|s| - 1];
      FixedParse(s');
      HexDigitOfValue(c);
      assert s == s' + [c];
      ToLowerAppend(s', [c]);
      FixedStep(ParseHex(s), ParseHex(s'), HexValue(c), |s'|, ToLower(s'), ToLowerChar(c));
    }
  }

  /** One more low digit: `n = 16 p + d` is `p`'s digits then `d`'s. */
  lemma {:induction false} FixedStep(n: nat, p: nat, d: nat, w: nat, digits: string, c: char)
    requires n == p * 16 + d && d < 16 && p < Pow16(w)
    requires Fixed(p, w) == digits && HexDigit(d) == c
    ensures n < Pow16(w + 1) && Fixed(n, w + 1) == digits + [c]
  {
    DivMod16(p, d);
  }

  // ---------------------------------------------------------------------
  // rgbToHex

  /** `"#" + ((1 << 24) + (r << 16) + (g << 8) + b).toString(16).slice(1)`:
      the leading `1` pads the value to seven digits and is cut off. */
  function RgbToHex(r: nat, g: nat, b: nat): (s: string)
    requires IsByte(r) && IsByte(g) && IsByte(b)
  {
    "#" + ToHex(16777216 + r * 65536 + g * 256 + b)[1..]
  }

  lemma {:induction false} Pow16Values()
    ensures Pow16(1) == 16 && Pow16(2) == 256 && Pow16(4) == 65536
    ensures Pow16(6) == 16777216 && Pow16(7) == 268435456
  {
  }

  /** The seven digits of `(1 << 24) + v`: a `1`, then `v` in six. */
  lemma {:induction false} LeadingOne(v: nat, t: nat)
    requires v < Pow16(6) && t == Pow16(6) + v
    ensures ToHex(t) == "1" + Fixed(v, 6)
  {
    Pow16Values();
    ToHexFixed(t, 7);
    FixedConcat(1, v, 1, 6);
    assert Fixed(1, 1) == "1";
  }

  lemma {:induction false} ColourValue(r: nat, g: nat, b: nat)
    requires IsByte(r) && IsByte(g) && IsByte(b)
    ensures r * 65536 + g * 256 + b == (r * Pow16(2) + g) * Pow16(2) + b
    ensures b < Pow16(2) && g < Pow16(2)
  {
    Pow16Values();
  }

  /** Six digits of a colour value are its three components in two
      digits each. */
  lemma {:induction false} SixDigits(r: nat, g: nat, b: nat)
    requires IsByte(r) && IsByte(g) && IsByte(b)
    ensures Fixed(r * 65536 + g * 256 + b, 6) == Fixed(r, 2) + Fixed(g, 2) + Fixed(b, 2)
  {
    ColourValue(r, g, b);
    var m := r * Pow16(2) + g;
    FixedConcat(r, g, 2, 2);
    FixedConcat(m, b, 4, 2);
  }

  /** The colour is written `#rrggbb`, each component in two lower-case
      digits. */
  lemma {:induction false} RgbToHexDigits(r: nat, g: nat, b: nat)
    requires IsByte(r) && IsByte(g) && IsByte(b)
    ensures RgbToHex(r, g, b) == "#" + Fixed(r, 2) + Fixed(g, 2) + Fixed(b, 2)
  {
    var v := r * 65536 + g * 256 + b;
    var t := 16777216 + r * 65536 + g * 256 + b;
    SixDigits(r, g, b);
    DropLeadingOne(v, t, Fixed(r, 2), Fixed(g, 2), Fixed(b, 2));
  }

  /** `(1 << 24) + v` written out, less its leading `1`, is `v` in six
      digits. */
  lemma {:induction false} DropLeadingOne(v: nat, t: nat, x: string, y: string, z: string)
    requires v < 16777216 && t == 16777216 + v && Fixed(v, 6) == x + y + z
    ensures "#" + ToHex(t)[1..] == "#" + x + y + z
  {
    Pow16Values();
    LeadingOne(v, t);
    HexTail(ToHex(t), Fixed(v, 6), x, y, z);
  }

  /** Dropping the leading `1` leaves the three components' digits. */
  lemma {:induction false} HexTail(h: string, f: string, x: string, y: string, z: string)
    requires h == "1" + f && f == x + y + z
    ensures "#" + h[1..] == "#" + x + y + z
  {
    DropFirst('1', f);
  }

  lemma {:induction false} DropFirst(c: char, s: string)
    ensures ([c] + s)[1..] == s
  {
  }

  /** `rgbToHex` always yields `#` and six lower-case hexadecimal digits. */
  lemma {:induction false} RgbToHexShape(r: nat, g: nat, b: nat)
    requires IsByte(r) && IsByte(g) && IsByte(b)
    ensures var s := RgbToHex(r, g, b);
            |s| == 7 && s[0] == '#' && forall k :: 1 <= k < 7 ==> IsLowerHexDigit(s[k])
  {
    RgbToHexDigits(r, g, b);
  }

  // ---------------------------------------------------------------------
  // hexToRgb

  /** What `/^#?([a-f\d]{2})([a-f\d]{2})([a-f\d]{2})$/i` accepts: six
      digits of either case, after an optional `#`. */
  predicate IsHexColor(s: string) {
    || (|s| == 7 && s[0] == '#' && AllHex(s[1..]))
    || (|s| == 6 && AllHex(s))
  }

  /** The six digits of a hexadecimal colour, without the `#`. */
  function Digits(s: string): (d: string)
    requires IsHexColor(s)
    ensures |d| == 6 && AllHex(d)
  {
    if |s| == 7 then s[1..] else s
  }

  /** `hexToRgb(hex)`: the three pairs of digits read as numbers, or `null`
      (`None`) when the pattern does not match. */
  function HexToRgb(s: string): (c: Option<Rgb>)
    ensures c.Some? <==> IsHexColor(s)
    ensures c.Some? ==> IsByte(c.value.r) && IsByte(c.value.g) && IsByte(c.value.b)
  {
    if !IsHexColor(s) then None
    else
      var d := Digits(s);
      FixedParse(d[0..2]);
      FixedParse(d[2..4]);
      FixedParse(d[4..6]);
      Some(Rgb(ParseHex(d[0..2]), ParseHex(d[2..4]), ParseHex(d[4..6])))
  }

  /** `hexToRgb(rgbToHex(r, g, b))` gives back the three components. */
  lemma {:induction false} HexToRgbOfRgbToHex(r: nat, g: nat, b: nat)
    requires IsByte(r) && IsByte(g) && IsByte(b)
    ensures HexToRgb(RgbToHex(r, g, b)) == Some(Rgb(r, g, b))
  {
    var s := RgbToHex(r, g, b);
    RgbToHexDigits(r, g, b);
    assert Pow16(2) == 256;
    ParseFixed(r, 2);
    ParseFixed(g, 2);
    ParseFixed(b, 2);
    PairSlices(Fixed(r, 2), Fixed(g, 2), Fixed(b, 2));
    assert s[1..] == Fixed(r, 2) + Fixed(g, 2) + Fixed(b, 2);
  }

  lemma {:induction false} PairSlices(x: string, y: string, z: string)
    requires |x| == |y| == |z| == 2
    ensures var d := x + y + z; d[0..2] == x && d[2..4] == y && d[4..6] == z
  {
  }

  /** The other way round: a colour read by `hexToRgb` and written back by
      `rgbToHex` is the same six digits, lower-cased, after a `#`. */
  lemma {:induction false} RgbToHexOfHexToRgb(s: string)
    requires IsHexColor(s)
    ensures var c := HexToRgb(s).value;
            RgbToHex(c.r, c.g, c.b) == "#" + ToLower(Digits(s))
  {
    var c := HexToRgb(s).value;
    RgbToHexDigits(c.r, c.g, c.b);
    ComponentDigits(s);
  }

  /** The components read from a colour, written back in two digits each,
      are its digits lower-cased. */
  lemma {:induction false} ComponentDigits(s: string)
    requires IsHexColor(s)
    ensures var c := HexToRgb(s).value;
            Fixed(c.r, 2) + Fixed(c.g, 2) + Fixed(c.b, 2) == ToLower(Digits(s))
  {
    var d := Digits(s);
    var p0, p1, p2 := d[0..2], d[2..4], d[4..6];
    var c := HexToRgb(s).value;
    assert c.r == ParseHex(p0) && c.g == ParseHex(p1) && c.b == ParseHex(p2);
    DigitPairs(d);
    FixedParse(p0);
    FixedParse(p1);
    FixedParse(p2);
  }

  /** Six hexadecimal digits are three pairs of digits, and lower-casing
      them lower-cases each pair. */
  lemma {:induction false} DigitPairs(d: string)
    requires |d| == 6 && AllHex(d)
    ensures AllHex(d[0..2]) && AllHex(d[2..4]) && AllHex(d[4..6])
    ensures ToLower(d) == ToLower(d[0..2]) + ToLower(d[2..4]) + ToLower(d[4..6])
  {
    assert d == d[0..2] + d[2..4] + d[4..6];
    LowerThree(d[0..2], d[2..4], d[4..6]);
  }

  lemma {:induction false} LowerThree(a: string, b: string, c: string)
    ensures ToLower(a + b + c) == ToLower(a) + ToLower(b) + ToLower(c)
  {
    ToLowerAppend(a, b);
    ToLowerAppend(a + b, c);
  }
}
