/**
 Dynamically typed parameter values (the QVariant carried by a node input) and
 the conversions the text generator applies to them: `toString()` for the
 text input, `toInt()` for the alignment combo and `value<Color>()` for the
 colour input.
 */
module Variants {

  /** A colour with exact real channels, stored unpremultiplied. */
  datatype Color = Color(r: real, g: real, b: real, a: real)

  /** The colour `Color()` builds by default: every channel zero. */
  const TransparentBlack: Color := Color(0.0, 0.0, 0.0, 0.0)

  /** A value an input resolves to. `Empty` is the null variant of an unset input. */
  datatype Variant = Empty | Text(s: string) | Int(i: int) | ColorValue(c: Color)

  /** Bounds of the 32-bit `int` that `toInt()` returns. */
  const IntMin: int := -0x8000_0000
  const IntMax: int := 0x7FFF_FFFF

  predicate IsDigit(c: char) {
    '0' <= c <= '9'
  }

  predicate AllDigits(s: string) {
    forall k :: 0 <= k < |s| ==> IsDigit(s[k])
  }

  function DigitChar(d: int): (c: char)
    requires 0 <= d < 10
    ensures IsDigit(c)
  {
    ('0' as int + d) as char
  }

  function DigitValue(c: char): int
    requires IsDigit(c)
  {
    c as int - '0' as int
  }

  /** The shortest decimal spelling of `n`. */
  function NatToDecimal(n: nat): (s: string)
    ensures 0 < |s|
    ensures AllDigits(s)
    decreases n
  {
    if n < 10 then [DigitChar(n)] else NatToDecimal(n / 10) + [DigitChar(n % 10)]
  }

  /** The number a run of decimal digits denotes (0 for none). */
  function DecimalValue(s: string): nat
    requires AllDigits(s)
  {
    if |s| == 0 then 0 else 10 * DecimalValue(s[..|s| - 1]) + DigitValue(s[|s| - 1])
  }

  lemma {:induction false} DecimalRoundTrip(n: nat)
    ensures DecimalValue(NatToDecimal(n)) == n
    decreases n
  {
    var s := NatToDecimal(n);
    if n >= 10 {
      DecimalRoundTrip(n / 10);
      assert s[..|s| - 1] == NatToDecimal(n / 10);
    }
  }

  /** Decimal spelling of an integer, with a leading '-' when negative. */
  function IntToDecimal(i: int): (s: string)
    ensures 0 < |s|
  {
    if i < 0 then "-" + NatToDecimal(-i) else NatToDecimal(i)
  }

  /** Bounds of the 64-bit integer the text is first parsed into. */
  const LongMin: int := -0x8000_0000_0000_0000
  const LongMax: int := 0x7FFF_FFFF_FFFF_FFFF

  /** Narrowing a 64-bit integer to 32 bits keeps the low 32 bits, read in two's complement. */
  function Narrow32(n: int): (r: int)
    ensures IntMin <= r <= IntMax
    ensures (n - r) % 0x1_0000_0000 == 0
    ensures IntMin <= n <= IntMax ==> r == n
  {
    (n - IntMin) % 0x1_0000_0000 + IntMin
  }

  /**
   Text to a 64-bit integer: an optional sign followed by at least one
   decimal digit; anything else, or a value outside the 64-bit range, is 0.
   */
  function ParseLong(s: string): (r: int)
    ensures LongMin <= r <= LongMax
    ensures s == "" ==> r == 0
  {
    if 1 < |s| && (s[0] == '-' || s[0] == '+') && AllDigits(s[1..]) then
      var magnitude: int := DecimalValue(s[1..]);
      var n := if s[0] == '-' then -magnitude else magnitude;
      if LongMin <= n <= LongMax then n else 0
    else if 0 < |s| && AllDigits(s) then
      var n := DecimalValue(s);
      if n <= LongMax then n else 0
    else
      0
  }

  /** Text to `int`: parsed as a 64-bit integer, then narrowed to 32 bits. */
  function ParseInt(s: string): (r: int)
    ensures IntMin <= r <= IntMax
    ensures s == "" ==> r == 0
  {
    Narrow32(ParseLong(s))
  }

  /** A value that fits in 64 bits but not in 32 wraps: 2^32 + 1 reads as 1. */
  lemma ParseIntWraps()
    ensures ParseInt("4294967297") == 1
  {
    var s := "4294967297";
    assert AllDigits(s);
    var expected := [0, 4, 42, 429, 4294, 42949, 429496, 4294967, 42949672, 429496729, 4294967297];
    assert s[..0] == "";
    for k := 1 to 11
      invariant DecimalValue(s[..k - 1]) == expected[k - 1]
    {
      DecimalValueStep(s, k);
    }
    assert s[..10] == s;
    assert DecimalValue(s) == 4294967297;
    assert ParseLong(s) == 4294967297;
  }

  /** Reading one more digit multiplies what was read by ten and adds the digit. */
  lemma DecimalValueStep(s: string, k: int)
    requires AllDigits(s) && 0 < k <= |s|
    ensures DecimalValue(s[..k]) == 10 * DecimalValue(s[..k - 1]) + DigitValue(s[k - 1])
  {
    assert s[..k][..k - 1] == s[..k - 1];
  }

  /** The decimal spelling of a 64-bit integer parses back to it. */
  lemma ParseLongRoundTrip(i: int)
    requires LongMin <= i <= LongMax
    ensures ParseLong(IntToDecimal(i)) == i
  {
    if i < 0 {
      var t := NatToDecimal(-i);
      assert IntToDecimal(i)[1..] == t;
      DecimalRoundTrip(-i);
    } else {
      DecimalRoundTrip(i);
    }
  }

  lemma ParseIntRoundTrip(i: int)
    requires IntMin <= i <= IntMax
    ensures ParseInt(IntToDecimal(i)) == i
  {
    ParseLongRoundTrip(i);
  }

  /** `toString()`: text as is, an integer in decimal, nothing for anything else. */
  function ToText(v: Variant): (s: string)
    ensures v.Text? ==> s == v.s
    ensures v.Int? ==> s != ""
    ensures v.Int? && IntMin <= v.i <= IntMax ==> ParseInt(s) == v.i
    ensures v.Empty? || v.ColorValue? ==> s == ""
  {
    match v
    case Text(s) => s
    case Int(i) =>
      if IntMin <= i <= IntMax then ParseIntRoundTrip(i); IntToDecimal(i) else IntToDecimal(i)
    case Empty => ""
    case ColorValue(_) => ""
  }

  /** A value converts to empty text exactly when it is unset, a colour, or empty text. */
  lemma ToTextEmptyIff(v: Variant)
    ensures ToText(v) == "" <==> (v.Empty? || v.ColorValue? || v == Text(""))
  {
  }

  /** `toInt()`: an integer narrowed to 32 bits, text parsed, 0 for anything else. */
  function ToInt(v: Variant): (r: int)
    ensures IntMin <= r <= IntMax
    ensures v.Int? ==> (v.i - r) % 0x1_0000_0000 == 0
    ensures v.Int? && IntMin <= v.i <= IntMax ==> r == v.i
    ensures v.Empty? || v.ColorValue? || v == Text("") ==> r == 0
  {
    match v
    case Int(i) => Narrow32(i)
    case Text(s) => ParseInt(s)
    case Empty => 0
    case ColorValue(_) => 0
  }

  /** An integer input spelt as text reads back as the same integer. */
  lemma IntTextRoundTrip(i: int)
    requires IntMin <= i <= IntMax
    ensures ToInt(Text(ToText(Int(i)))) == i
  {
    ParseIntRoundTrip(i);
  }

  /** `value<Color>()`: the colour held, or the default colour for anything else. */
  function ToColor(v: Variant): (c: Color)
    ensures v.ColorValue? ==> c == v.c
    ensures !v.ColorValue? ==> c == TransparentBlack
  {
    if v.ColorValue? then v.c else TransparentBlack
  }
}
