/**
 * The numeric conversions the library import and the history parser use:
 * `str::parse::<f64>()`, `str::parse::<u64>()`, `format!("{:.1}", x)`,
 * `f64::round` and the saturating `as i32` cast. Floating-point values are
 * modelled by their exact real value, plus the two infinities and NaN that
 * the Rust parser can also produce.
 */
module Numbers {
  import opened Wrappers

  const I32_MIN: int := -0x8000_0000
  const I32_MAX: int := 0x7FFF_FFFF
  const U64_LIMIT: int := 0x1_0000_0000_0000_0000

  type i32 = x: int | -0x8000_0000 <= x <= 0x7FFF_FFFF
  type u64 = x: int | 0 <= x < 0x1_0000_0000_0000_0000

  // ---------------------------------------------------------------------
  // Decimal digits

  predicate IsDigit(c: char)
  {
    '0' <= c <= '9'
  }

  predicate AllDigits(s: string)
  {
    forall i :: 0 <= i < |s| ==> IsDigit(s[i])
  }

  function DigitValue(c: char): nat
    requires IsDigit(c)
  {
    (c as int) - ('0' as int)
  }

  function DigitChar(d: nat): (c: char)
    requires d < 10
    ensures IsDigit(c) && DigitValue(c) == d
  {
    (('0' as int) + d) as char
  }

  /** The number a run of decimal digits denotes, most significant first. */
  function DigitsValue(s: string): nat
    requires AllDigits(s)
  {
    if s == [] then 0 else DigitsValue(s[..|s| - 1]) * 10 + DigitValue(s[|s| - 1])
  }

  /** The decimal digits of `n`, without leading zeros (Rust's `Display` for integers). */
  function NatToString(n: nat): (s: string)
    ensures s != [] && AllDigits(s)
  {
    if n < 10 then [DigitChar(n)] else NatToString(n / 10) + [DigitChar(n % 10)]
  }

  /** Reading back the digits `NatToString` writes gives the number. */
  lemma {:induction false} NatToStringValue(n: nat)
    ensures DigitsValue(NatToString(n)) == n
  {
    if n >= 10 {
      var s := NatToString(n);
      assert s[..|s| - 1] == NatToString(n / 10);
      NatToStringValue(n / 10);
    }
  }

  /** The length of the run of digits at the front of `s`. */
  function DigitRun(s: string): (k: nat)
    ensures k <= |s| && AllDigits(s[..k])
    ensures k < |s| ==> !IsDigit(s[k])
  {
    if s != [] && IsDigit(s[0]) then
      var k := DigitRun(s[1..]);
      assert s[..k + 1] == [s[0]] + s[1..][..k];
      k + 1
    else 0
  }

  /** A digit run stops at the first non-digit after it. */
  lemma {:induction false} DigitRunAppend(a: string, b: string)
    requires AllDigits(a)
    requires b == [] || !IsDigit(b[0])
    ensures DigitRun(a + b) == |a|
  {
    if a == [] {
      assert a + b == b;
    } else {
      assert (a + b)[1..] == a[1..] + b;
      DigitRunAppend(a[1..], b);
    }
  }

  // ---------------------------------------------------------------------
  // str::parse::<u64>

  /** `s` is the run of decimal digits `d`, with or without a leading `+`. */
  predicate UnsignedText(s: string, d: string)
  {
    d != [] && AllDigits(d) && (s == d || s == "+" + d)
  }

  /** `s.parse::<u64>()`: an optional `+`, then one or more digits, below 2^64. */
  function ParseU64(s: string): (r: Option<u64>)
    ensures r.Some? ==> s != [] && IsDigit(s[|s| - 1]) && s[0] != '-'
    ensures r.Some? ==> exists d :: UnsignedText(s, d) && DigitsValue(d) == r.value
    ensures forall d :: UnsignedText(s, d) && DigitsValue(d) < U64_LIMIT ==> r == Some(DigitsValue(d))
  {
    var digits := if s != [] && s[0] == '+' then s[1..] else s;
    UnsignedDigits(s, digits);
    if digits == [] || !AllDigits(digits) then None
    else
      var v := DigitsValue(digits);
      assert s[|s| - 1] == digits[|digits| - 1];
      assert s[0] == '+' ==> s == "+" + digits;
      assert UnsignedText(s, digits);
      if v < U64_LIMIT then Some(v) else None
  }

  /** The digits of an unsigned text are the text after an optional `+`. */
  lemma UnsignedDigits(s: string, digits: string)
    requires digits == if s != [] && s[0] == '+' then s[1..] else s
    ensures forall d :: UnsignedText(s, d) ==> d == digits
  {
    forall d | UnsignedText(s, d) ensures d == digits {
      if s == d {
        assert IsDigit(d[0]);
      } else {
        assert s[1..] == d;
      }
    }
  }

  /** Every `u64` written in decimal, with or without a `+`, parses back to itself. */
  lemma ParseU64RoundTrip(n: u64)
    ensures ParseU64(NatToString(n)) == Some(n)
    ensures ParseU64("+" + NatToString(n)) == Some(n)
  {
    NatToStringValue(n);
    assert ("+" + NatToString(n))[1..] == NatToString(n);
  }

  /** A character other than a digit after the optional `+` makes the text no `u64`. */
  lemma ParseU64NonDigit(s: string, i: nat)
    requires 0 < i < |s| && !IsDigit(s[i])
    ensures ParseU64(s) == None
  {
    if s[0] == '+' {
      assert s[1..][i - 1] == s[i];
    }
  }

  /** Leading zeros do not change the parsed value. */
  lemma ParseU64LeadingZero(n: u64)
    ensures ParseU64("0" + NatToString(n)) == Some(n)
  {
    var t := NatToString(n);
    NatToStringValue(n);
    DigitsValueLeadingZero(t);
    assert UnsignedText("0" + t, "0" + t);
  }

  lemma {:induction false} DigitsValueLeadingZero(t: string)
    requires AllDigits(t)
    ensures AllDigits("0" + t) && DigitsValue("0" + t) == DigitsValue(t)
    decreases |t|
  {
    var z := "0" + t;
    assert AllDigits(z) by {
      forall i | 0 <= i < |z| ensures IsDigit(z[i]) {
        if i > 0 { assert z[i] == t[i - 1]; }
      }
    }
    if t == [] {
      assert z[..0] == [];
    } else {
      var u := t[..|t| - 1];
      assert z[..|z| - 1] == "0" + u;
      assert z[|z| - 1] == t[|t| - 1];
      DigitsValueLeadingZero(u);
    }
  }

  /** A value of 2^64 or more does not parse as `u64`. */
  lemma ParseU64Overflow(n: nat)
    requires n >= U64_LIMIT
    ensures ParseU64(NatToString(n)) == None
  {
    NatToStringValue(n);
  }

  // ---------------------------------------------------------------------
  // str::parse::<f64>

  /** The value a parsed `f64` carries. */
  datatype Float = Finite(value: real) | Infinity(negative: bool) | NaN

  function Pow10(e: nat): (r: real)
    ensures r >= 1.0
  {
    if e == 0 then 1.0 else 10.0 * Pow10(e - 1)
  }

  /** `x * 10^e` for a signed exponent. */
  function Scale(x: real, e: int): real
  {
    if e >= 0 then x * Pow10(e) else x / Pow10(-e)
  }

  function AsciiLower(c: char): char
  {
    if 'A' <= c <= 'Z' then ((c as int) + 32) as char else c
  }

  /** `s.eq_ignore_ascii_case(lower)` for a lower-case literal. */
  predicate EqualsIgnoreAsciiCase(s: string, lower: string)
  {
    |s| == |lower| && forall i :: 0 <= i < |s| ==> AsciiLower(s[i]) == lower[i]
  }

  /** The exponent after `e`/`E`: an optional sign and at least one digit. */
  function ParseExponent(s: string): Option<int>
  {
    var negative := s != [] && s[0] == '-';
    var digits := if s != [] && (s[0] == '+' || s[0] == '-') then s[1..] else s;
    if digits == [] || !AllDigits(digits) then None
    else
      var v: int := DigitsValue(digits);
      Some(if negative then -v else v)
  }

  /**
   * An unsigned decimal: digits, optionally a point and more digits, with
   * at least one digit in all, then optionally an exponent.
   */
  function ParseDecimal(s: string): Option<real>
  {
    var i := DigitRun(s);
    if s[i..] != [] && s[i..][0] == '.' then
      var rest := s[i..][1..];
      var f := DigitRun(rest);
      ParseMantissaTail(s[..i], rest[..f], rest[f..])
    else
      ParseMantissaTail(s[..i], [], s[i..])
  }

  /** The value of `whole.fraction`. */
  function PointedValue(whole: string, fraction: string): real
    requires AllDigits(whole) && AllDigits(fraction)
  {
    DigitsValue(whole) as real + DigitsValue(fraction) as real / Pow10(|fraction|)
  }

  /** The value of whole and fractional digits, scaled by what follows them. */
  function ParseMantissaTail(whole: string, fraction: string, tail: string): Option<real>
    requires AllDigits(whole) && AllDigits(fraction)
  {
    if |whole| + |fraction| == 0 then None
    else
      var exponent :=
        if tail == [] then Some(0)
        else if tail[0] == 'e' || tail[0] == 'E' then ParseExponent(tail[1..])
        else None;
      match exponent
      case None => None
      case Some(e) =>
        Some(Scale(PointedValue(whole, fraction), e))
  }

  /**
   * `s.parse::<f64>()`: an optional sign, then `inf`, `infinity` or `nan`
   * in any case, or a decimal. No surrounding whitespace is accepted.
   */
  function ParseFloat(s: string): (r: Option<Float>)
    ensures r.Some? ==> s != []
  {
    if s == [] then None
    else
      var negative := s[0] == '-';
      var body := if s[0] == '+' || s[0] == '-' then s[1..] else s;
      ParseUnsigned(body, negative)
  }

  /** What follows the sign: an infinity, NaN or a decimal, negated when the sign was `-`. */
  function ParseUnsigned(body: string, negative: bool): Option<Float>
  {
    if body == [] then None
    else if EqualsIgnoreAsciiCase(body, "inf") || EqualsIgnoreAsciiCase(body, "infinity") then
      Some(Infinity(negative))
    else if EqualsIgnoreAsciiCase(body, "nan") then Some(NaN)
    else
      match ParseDecimal(body)
      case None => None
      case Some(v) => Some(Finite(if negative then -v else v))
  }

  /** The IEEE comparison `x <= 0.0`: false for NaN. */
  predicate AtMostZero(x: Float)
  {
    match x
    case Finite(v) => v <= 0.0
    case Infinity(negative) => negative
    case NaN => false
  }

  /** What a leading `-` does to a parsed unsigned value. */
  function Negated(r: Option<Float>): Option<Float>
  {
    match r
    case None => None
    case Some(Finite(v)) => Some(Finite(-v))
    case Some(Infinity(_)) => Some(Infinity(true))
    case Some(NaN) => Some(NaN)
  }

  /** A leading minus sign negates what the rest of the text denotes. */
  lemma ParseFloatNegative(s: string)
    requires s != [] && s[0] != '+' && s[0] != '-'
    ensures ParseFloat("-" + s) == Negated(ParseFloat(s))
  {
    assert ("-" + s)[1..] == s;
    assert ParseFloat("-" + s) == ParseUnsigned(s, true);
    assert ParseFloat(s) == ParseUnsigned(s, false);
    UnsignedNegated(s);
  }

  /** The sign flag negates a finite value and the infinity, and leaves NaN alone. */
  lemma UnsignedNegated(body: string)
    ensures ParseUnsigned(body, true) == Negated(ParseUnsigned(body, false))
  {
    if body == [] {
    } else if EqualsIgnoreAsciiCase(body, "inf") || EqualsIgnoreAsciiCase(body, "infinity") {
    } else if EqualsIgnoreAsciiCase(body, "nan") {
    } else {
      match ParseDecimal(body)
      case None =>
      case Some(v) =>
    }
  }

  /** The whole-number digits of `whole.fraction` end at the point. */
  lemma DigitRunPointed(whole: string, fraction: string)
    requires AllDigits(whole)
    ensures DigitRun(whole + "." + fraction) == |whole|
  {
    assert whole + "." + fraction == whole + ("." + fraction);
    DigitRunAppend(whole, "." + fraction);
  }

  /** A run of digits is read to its end. */
  lemma DigitRunAll(s: string)
    requires AllDigits(s)
    ensures DigitRun(s) == |s|
  {
    DigitRunAppend(s, []);
    assert s + [] == s;
  }

  /** Digits, a point and more digits split into their two digit runs. */
  lemma ParseDecimalPointedSplit(whole: string, fraction: string)
    requires whole != [] && AllDigits(whole) && AllDigits(fraction)
    ensures ParseDecimal(whole + "." + fraction) == ParseMantissaTail(whole, fraction, [])
  {
    var s := whole + "." + fraction;
    DigitRunPointed(whole, fraction);
    DigitRunAll(fraction);
    assert s[..|whole|] == whole;
    assert s[|whole|..] == "." + fraction;
    assert s[|whole|..][1..] == fraction;
    assert fraction[..|fraction|] == fraction;
    assert fraction[|fraction|..] == [];
  }

  /** Digits, a point and more digits form a decimal without exponent. */
  lemma ParseDecimalPointed(whole: string, fraction: string)
    requires whole != [] && AllDigits(whole) && AllDigits(fraction)
    ensures ParseDecimal(whole + "." + fraction) ==
      Some(PointedValue(whole, fraction))
  {
    ParseDecimalPointedSplit(whole, fraction);
    MantissaWithoutExponent(whole, fraction);
  }

  /** With nothing after the digits, the exponent is zero. */
  lemma MantissaWithoutExponent(whole: string, fraction: string)
    requires whole != [] && AllDigits(whole) && AllDigits(fraction)
    ensures ParseMantissaTail(whole, fraction, []) ==
      Some(PointedValue(whole, fraction))
  {
  }

  /** Text that starts with a digit is read as an unsigned decimal. */
  lemma ParseFloatOfDigitFirst(s: string, v: real)
    requires s != [] && IsDigit(s[0])
    requires ParseDecimal(s) == Some(v)
    ensures ParseFloat(s) == Some(Finite(v))
  {
    assert !EqualsIgnoreAsciiCase(s, "inf") && !EqualsIgnoreAsciiCase(s, "infinity")
        && !EqualsIgnoreAsciiCase(s, "nan") by {
      assert AsciiLower(s[0]) == s[0];
    }
  }

  /** Digits, a point and more digits parse to the value they denote. */
  lemma ParsePointed(whole: string, fraction: string)
    requires whole != [] && AllDigits(whole) && AllDigits(fraction)
    ensures ParseFloat(whole + "." + fraction) ==
      Some(Finite(PointedValue(whole, fraction)))
  {
    var s := whole + "." + fraction;
    assert s[0] == whole[0];
    ParseDecimalPointed(whole, fraction);
    ParseFloatOfDigitFirst(s, PointedValue(whole, fraction));
  }

  /** `n.d` (integer digits, a point, one digit) parses to the value `n + d/10`. */
  lemma ParseOneDecimal(n: nat, d: nat)
    requires d < 10
    ensures ParseFloat(NatToString(n) + "." + [DigitChar(d)]) == Some(Finite(n as real + d as real / 10.0))
  {
    var whole, fraction := NatToString(n), [DigitChar(d)];
    ParsePointed(whole, fraction);
    NatToStringValue(n);
    assert DigitsValue(fraction) == d by {
      assert fraction[..0] == [];
    }
    assert Pow10(|fraction|) == 10.0;
    assert PointedValue(whole, fraction) == n as real + d as real / 10.0;
  }

  // ---------------------------------------------------------------------
  // Rounding and formatting

  /** Round to the nearest integer, ties to the even one. */
  function RoundHalfEven(y: real): (r: int)
    ensures -0.5 <= r as real - y <= 0.5
    ensures r as real - y == 0.5 || y - r as real == 0.5 ==> r % 2 == 0
  {
    var f := y.Floor;
    var d := y - f as real;
    if d < 0.5 then f
    else if d > 0.5 then f + 1
    else if f % 2 == 0 then f
    else f + 1
  }

  /** `f64::round`: the nearest integer, ties away from zero. */
  function RoundHalfAway(y: real): (r: int)
    ensures -0.5 <= r as real - y <= 0.5
    ensures r as real - y == 0.5 ==> y > 0.0
    ensures y - r as real == 0.5 ==> y < 0.0
  {
    if y >= 0.0 then
      var f := y.Floor;
      if y - f as real < 0.5 then f else f + 1
    else
      var f := (-y).Floor;
      if -y - f as real < 0.5 then -f else -(f + 1)
  }

  /** `format!("{:.1}", x)` for `x >= 0`: the value rounded to tenths, ties to even. */
  function FormatOneDecimal(x: real): (r: string)
    requires x >= 0.0
    ensures |r| >= 3 && AllDigits(r[..|r| - 2]) && r[|r| - 2] == '.' && IsDigit(r[|r| - 1])
  {
    var k := RoundHalfEven(10.0 * x);
    assert k >= 0;
    NatToString(k / 10) + "." + [DigitChar(k % 10)]
  }

  /**
   * What `FormatOneDecimal` writes parses back to the value rounded to a
   * tenth, which is within 0.05 of `x`.
   */
  lemma FormatOneDecimalParses(x: real)
    requires x >= 0.0
    ensures ParseFloat(FormatOneDecimal(x)) == Some(Finite(RoundHalfEven(10.0 * x) as real / 10.0))
    ensures ParsesWithin(FormatOneDecimal(x), x, 0.05)
  {
    var k := RoundHalfEven(10.0 * x);
    ParseOneDecimal(k / 10, k % 10);
    assert (k / 10) as real + (k % 10) as real / 10.0 == k as real / 10.0 by {
      assert k == (k / 10) * 10 + k % 10;
    }
  }

  /** `text` parses to a finite number no further than `eps` from `v`. */
  ghost predicate ParsesWithin(text: string, v: real, eps: real)
  {
    ParseFloat(text).Some? && ParseFloat(text).value.Finite?
    && -eps <= ParseFloat(text).value.value - v <= eps
  }

  /** `f64::round(x) as i32`: Rust's float-to-integer cast saturates and maps NaN to 0. */
  function RoundToI32(x: Float): (d: i32)
    ensures x.Finite? && x.value >= I32_MAX as real ==> d == I32_MAX
    ensures x.Finite? && x.value <= I32_MIN as real ==> d == I32_MIN
    ensures x.Finite? && I32_MIN as real <= x.value <= I32_MAX as real ==>
      -0.5 <= d as real - x.value <= 0.5
    ensures x.Finite? && I32_MIN as real <= x.value <= I32_MAX as real && d as real - x.value == 0.5 ==>
      x.value > 0.0
    ensures x.Finite? && I32_MIN as real <= x.value <= I32_MAX as real && x.value - d as real == 0.5 ==>
      x.value < 0.0
    ensures x.NaN? ==> d == 0
    ensures x.Infinity? ==> d == if x.negative then I32_MIN else I32_MAX
  {
    match x
    case NaN => 0
    case Infinity(negative) => if negative then I32_MIN else I32_MAX
    case Finite(v) =>
      var n := RoundHalfAway(v);
      if n < I32_MIN then I32_MIN else if n > I32_MAX then I32_MAX else n
  }
}
