/**
 * The radar client's colour strings (`Utils.rgbToString`,
 * `Utils.colorToString`): "#" followed by each component in lower-case
 * hexadecimal, padded to two digits when it has one. Components are whole
 * numbers here; `Number.prototype.toString(16)` writes a negative number
 * as "-" and the digits of its magnitude.
 */
module Radar {
  /** `Color`, as far as `colorToString` reads it. */
  datatype Color = Color(r: int, g: int, b: int)

  /** The lower-case hexadecimal digit for `d`. */
  function Digit(d: nat): (c: char)
    requires d < 16
    ensures IsHexDigit(c) && DigitValue(c) == d
  {
    if d < 10 then ('0' as int + d) as char else ('a' as int + d - 10) as char
  }

  predicate IsHexDigit(c: char)
  {
    '0' <= c <= '9' || 'a' <= c <= 'f'
  }

  /** Reference: the value of a lower-case hexadecimal digit. */
  function DigitValue(c: char): (d: nat)
    ensures d < 16
  {
    if '0' <= c <= '9' then (c - '0') as nat
    else if 'a' <= c <= 'f' then (c - 'a') as nat + 10
    else 0
  }

  /** Every lower-case hexadecimal digit is the digit of its value. */
  lemma DigitOfValue(c: char)
    requires IsHexDigit(c)
    ensures Digit(DigitValue(c)) == c
  {
  }

  /** The hexadecimal digits of `n`, most significant first, with no leading zero. */
  function Hex(n: nat): (s: string)
    decreases n
    ensures |s| >= 1
  {
    if n < 16 then [Digit(n)] else Hex(n / 16) + [Digit(n % 16)]
  }

  /** `toString(16)` on a whole number. */
  function ToString16(c: int): string
  {
    if c < 0 then "-" + Hex(-c) else Hex(c)
  }

  /** `componentToHex`: a rendering one character long gets a "0" in front. */
  function ComponentToHex(c: int): (s: string)
    ensures |s| >= 2
  {
    var hex := ToString16(c);
    if |hex| == 1 then "0" + hex else hex
  }

  /** `rgbToString` on whole components, which `Math.round` leaves as they are. */
  function RgbToString(r: int, g: int, b: int): (s: string)
    ensures |s| >= 7 && s[0] == '#'
  {
    "#" + ComponentToHex(r) + ComponentToHex(g) + ComponentToHex(b)
  }

  /** "#" and three strings, cut back apart. */
  lemma HashThenThree(x: string, y: string, z: string, s: string)
    requires s == "#" + x + y + z
    ensures |s| == 1 + |x| + |y| + |z|
    ensures s[1..1 + |x|] == x && s[1 + |x|..1 + |x| + |y|] == y && s[1 + |x| + |y|..] == z
  {
  }

  /** The colour string is "#" and the r, g and b renderings, in that order. */
  lemma RgbLayout(r: int, g: int, b: int, x: string, y: string, z: string)
    requires x == ComponentToHex(r) && y == ComponentToHex(g) && z == ComponentToHex(b)
    ensures var s := RgbToString(r, g, b);
      |s| == 1 + |x| + |y| + |z|
      && s[1..1 + |x|] == x && s[1 + |x|..1 + |x| + |y|] == y && s[1 + |x| + |y|..] == z
  {
    HashThenThree(x, y, z, RgbToString(r, g, b));
  }

  /** `colorToString`: the colour's three components, in order. */
  function ColorToString(c: Color): (s: string)
    ensures |s| >= 7 && s[0] == '#'
  {
    RgbToString(c.r, c.g, c.b)
  }

  // ---------------------------------------------------------------------------
  // Reading the string back

  /** Reference: the number a string of hexadecimal digits denotes. */
  function HexValue(s: string): nat
    decreases |s|
  {
    if s == [] then 0 else HexValue(s[..|s| - 1]) * 16 + DigitValue(s[|s| - 1])
  }

  /** The digits denote the number they were written from. */
  lemma {:induction false} HexRoundTrip(n: nat)
    decreases n
    ensures HexValue(Hex(n)) == n
  {
    if n >= 16 {
      HexRoundTrip(n / 16);
      var s := Hex(n / 16) + [Digit(n % 16)];
      assert s[..|s| - 1] == Hex(n / 16);
    }
  }

  /** One digit below 16, two below 256, three or more from 256 on. */
  lemma {:induction false} HexLength(n: nat)
    decreases n
    ensures |Hex(n)| == 1 <==> n < 16
    ensures |Hex(n)| == 2 <==> 16 <= n < 256
    ensures n >= 256 ==> |Hex(n)| >= 3
  {
    if n >= 16 {
      HexLength(n / 16);
    }
  }

  /** A component in 0..255 becomes exactly two digits that denote it. */
  lemma ByteComponent(c: int)
    requires 0 <= c < 256
    ensures |ComponentToHex(c)| == 2
    ensures IsHexDigit(ComponentToHex(c)[0]) && IsHexDigit(ComponentToHex(c)[1])
    ensures HexValue(ComponentToHex(c)) == c
  {
    HexLength(c);
    HexRoundTrip(c);
    var s := ComponentToHex(c);
    if c < 16 {
      assert s == "0" + [Digit(c)];
      assert s[..1] == "0";
    } else {
      assert s == Hex(c / 16) + [Digit(c % 16)] && Hex(c / 16) == [Digit(c / 16)];
    }
  }

  /** A negative component above -16 is "-" and one digit: it is not padded. */
  lemma NegativeComponent(c: int)
    requires -16 < c < 0
    ensures ComponentToHex(c) == "-" + [Digit(-c)]
  {
  }

  /** Components are not clamped: from 256 on, or below -15, the rendering is longer than two characters. */
  lemma WideComponent(c: int)
    requires c >= 256 || c <= -16
    ensures |ComponentToHex(c)| >= 3
  {
    if c >= 256 {
      HexLength(c);
    } else {
      HexLength(-c);
    }
  }

  /** With components in 0..255 the colour string has length 7 and its three pairs read back as the components. */
  lemma RgbRoundTrip(r: int, g: int, b: int)
    requires 0 <= r < 256 && 0 <= g < 256 && 0 <= b < 256
    ensures var s := RgbToString(r, g, b);
      |s| == 7 && HexValue(s[1..3]) == r && HexValue(s[3..5]) == g && HexValue(s[5..7]) == b
  {
    var (x, y, z) := (ComponentToHex(r), ComponentToHex(g), ComponentToHex(b));
    ByteComponent(r);
    ByteComponent(g);
    ByteComponent(b);
    RgbLayout(r, g, b, x, y, z);
  }

  /** A colour with components in 0..255 renders as seven characters whose pairs denote r, g and b. */
  lemma ColorRoundTrip(c: Color)
    requires 0 <= c.r < 256 && 0 <= c.g < 256 && 0 <= c.b < 256
    ensures var s := ColorToString(c);
      |s| == 7 && HexValue(s[1..3]) == c.r && HexValue(s[3..5]) == c.g && HexValue(s[5..7]) == c.b
  {
    RgbRoundTrip(c.r, c.g, c.b);
  }
}
