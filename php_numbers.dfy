/**
 * PHP's number handling as far as the colour code uses it: round() (halves
 * away from zero), integers and two-decimal values written out as decimal
 * text, and decimal numerals read back from CSS arguments.
 */
module PhpNumbers {
  import opened Wrappers
  import opened PhpStrings

  function AbsInt(x: int): (r: nat)
    ensures r == x || r == -x
  {
    if x < 0 then -x else x
  }

  function AbsReal(x: real): (r: real)
    ensures r >= 0.0 && (r == x || r == -x)
  {
    if x < 0.0 then -x else x
  }

  /**
   * PHP round(x): the nearest integer, a tie going away from zero.
   */
  function Round(x: real): (n: int)
    ensures -0.5 <= n as real - x <= 0.5
    ensures n as real - x == 0.5 ==> x > 0.0
    ensures x - n as real == 0.5 ==> x < 0.0
  {
    if x >= 0.0 then (x + 0.5).Floor else -((-x + 0.5).Floor)
  }

  /** Rounding an integer leaves it alone. */
  lemma RoundInt(n: int)
    ensures Round(n as real) == n
  {
  }

  /** Rounding is monotone. */
  lemma RoundMonotone(x: real, y: real)
    requires x <= y
    ensures Round(x) <= Round(y)
  {
  }

  /**
   * round(x, 2), as the whole number of hundredths: the nearest multiple of
   * 1/100, ties away from zero.
   */
  function RoundCents(x: real): (k: int)
    ensures -0.5 <= k as real - 100.0 * x <= 0.5
  {
    Round(x * 100.0)
  }

  /** round(x, 2) as a number. */
  function Round2(x: real): (r: real)
    ensures -0.005 <= r - x <= 0.005
  {
    RoundCents(x) as real / 100.0
  }

  // ---------------------------------------------------------------------
  // Decimal text.

  predicate IsDigit(c: char) {
    '0' <= c <= '9'
  }

  predicate AllDigits(s: string) {
    forall i :: 0 <= i < |s| ==> IsDigit(s[i])
  }

  /** Characters a rendered number can contain. */
  predicate NumeralChars(s: string) {
    forall i :: 0 <= i < |s| ==> IsDigit(s[i]) || s[i] == '-' || s[i] == '.'
  }

  function DigitChar(d: int): (c: char)
    requires 0 <= d < 10
    ensures IsDigit(c)
  {
    ('0' as int + d) as char
  }

  function DigitValue(c: char): (d: int)
    requires IsDigit(c)
    ensures 0 <= d < 10
  {
    c as int - '0' as int
  }

  /** The value of a string of decimal digits ("" is 0). */
  function DigitsValue(s: string): (v: nat)
    requires AllDigits(s)
  {
    if s == [] then 0 else DigitsValue(s[..|s| - 1]) * 10 + DigitValue(s[|s| - 1])
  }

  /** The value of the digits after a decimal point: "75" is 0.75 ("" is 0). */
  function FractionValue(s: string): (v: real)
    requires AllDigits(s)
    ensures 0.0 <= v <= 1.0
  {
    if s == [] then 0.0 else (DigitValue(s[0]) as real + FractionValue(s[1..])) / 10.0
  }

  /** The decimal digits of n, no leading zero. */
  function NatToString(n: nat): (s: string)
    ensures |s| >= 1 && AllDigits(s)
    ensures |s| > 1 ==> s[0] != '0'
  {
    if n < 10 then [DigitChar(n)]
    else NatToString(n / 10) + [DigitChar(n % 10)]
  }

  lemma {:induction false} NatToStringValue(n: nat)
    ensures DigitsValue(NatToString(n)) == n
  {
    if n >= 10 {
      NatToStringValue(n / 10);
      var s := NatToString(n);
      assert s[..|s| - 1] == NatToString(n / 10);
    }
  }

  /** PHP's string form of an integer. */
  function IntToString(n: int): (s: string)
    ensures |s| >= 1 && NumeralChars(s) && s[0] != '+'
  {
    if n < 0 then "-" + NatToString(-n) else NatToString(n)
  }

  /** The fractional digits that PHP prints for a number of hundredths 0..99. */
  function CentsFraction(f: nat): (s: string)
    requires f < 100
    ensures AllDigits(s) && |s| <= 2
  {
    if f == 0 then ""
    else if f % 10 == 0 then [DigitChar(f / 10)]
    else [DigitChar(f / 10), DigitChar(f % 10)]
  }

  /** The unsigned text of m/100: whole part, then the fraction if it is not zero. */
  function CentsDigits(m: nat): (s: string)
    ensures |s| >= 1 && IsDigit(s[0]) && NumeralChars(s)
  {
    var whole := NatToString(m / 100);
    var digits := whole + (if m % 100 == 0 then "" else "." + CentsFraction(m % 100));
    assert digits[0] == whole[0];
    assert forall i :: 0 <= i < |whole| ==> digits[i] == whole[i];
    digits
  }

  /**
   * PHP's string form of the float k/100 (a value produced by round(x, 2)):
   * no trailing zeros, no decimal point for a whole number.
   */
  function CentsToString(k: int): (s: string)
    ensures |s| >= 1 && NumeralChars(s) && s[0] != '+'
  {
    var digits := CentsDigits(AbsInt(k));
    if k < 0 then
      assert forall i :: 1 <= i < |digits| + 1 ==> ("-" + digits)[i] == digits[i - 1];
      "-" + digits
    else digits
  }

  // ---------------------------------------------------------------------
  // Reading numerals.

  /** The whitespace PHP allows around a numeric string: space, and tab, newline, vertical tab, form feed and carriage return (9 to 13). */
  predicate IsSpace(c: char) {
    c == ' ' || '\t' <= c <= '\r'
  }

  function TrimLeft(s: string): (r: string)
    ensures |r| <= |s|
  {
    if s != [] && IsSpace(s[0]) then TrimLeft(s[1..]) else s
  }

  function TrimRight(s: string): (r: string)
    ensures |r| <= |s|
  {
    if s != [] && IsSpace(s[|s| - 1]) then TrimRight(s[..|s| - 1]) else s
  }

  /** Digits, optionally followed by a point and more digits, at least one digit in all. */
  function ParseUnsigned(u: string): (r: Option<real>)
    ensures r.Some? ==> r.value >= 0.0
  {
    var i := IndexOf(u, '.');
    ParseParts(u[..i], if i < |u| then u[i + 1..] else "")
  }

  /** The digits before the point and after it, at least one digit in all. */
  function ParseParts(whole: string, frac: string): (r: Option<real>)
    ensures r.Some? ==> r.value >= 0.0
  {
    if AllDigits(whole) && AllDigits(frac) && |whole| + |frac| > 0 then
      Some(DigitsValue(whole) as real + FractionValue(frac))
    else None
  }

  /**
   * A decimal numeral as PHP reads a numeric string: surrounding whitespace,
   * an optional sign, digits with an optional fractional part. Anything else
   * is None, including the exponent forms ("1e2") that PHP also counts as
   * numeric.
   */
  function ParseNumeral(s: string): (r: Option<real>)
    ensures r.Some? ==> |s| > 0
    ensures |s| > 0 && AllDigits(s) ==> r == Some(DigitsValue(s) as real)
  {
    assert |s| > 0 && AllDigits(s) ==> TrimRight(TrimLeft(s)) == s && ParseUnsigned(s) == Some(DigitsValue(s) as real) by {
      if |s| > 0 && AllDigits(s) {
        DigitsRead(s);
      }
    }
    var t := TrimRight(TrimLeft(s));
    if |t| > 0 && t[0] == '-' then Negated(ParseUnsigned(t[1..]))
    else if |t| > 0 && t[0] == '+' then ParseUnsigned(t[1..])
    else ParseUnsigned(t)
  }

  /** Plain digits are their own trimmed form, and read as their value. */
  lemma DigitsRead(s: string)
    requires |s| > 0 && AllDigits(s)
    ensures TrimRight(TrimLeft(s)) == s && ParseUnsigned(s) == Some(DigitsValue(s) as real)
  {
    assert NumeralChars(s);
    TrimNumeral(s);
    assert Lacks(s, '.');
    assert IndexOf(s, '.') == |s|;
    assert s[..|s|] == s;
  }

  /** An exponent form is not read. */
  lemma ExponentNotRead()
    ensures ParseNumeral("1e2") == None
  {
    var s := "1e2";
    assert !IsSpace(s[0]) && !IsSpace(s[2]);
    assert TrimRight(TrimLeft(s)) == s;
    assert IndexOf(s, '.') == |s|;
    assert !AllDigits(s) by { assert !IsDigit(s[1]); }
  }

  /** The reading of a numeral after a minus sign. */
  function Negated(o: Option<real>): (r: Option<real>)
    ensures r.Some? <==> o.Some?
    ensures r.Some? ==> r.value == -o.value
  {
    match o
    case None => None
    case Some(v) => Some(-v)
  }

  // ---------------------------------------------------------------------
  // Round trips between writing and reading.

  lemma TrimNumeral(s: string)
    requires |s| >= 1 && NumeralChars(s)
    ensures TrimRight(TrimLeft(s)) == s
  {
    assert !IsSpace(s[0]);
    assert !IsSpace(s[|s| - 1]);
  }

  /** Spaces in front of a numeral do not change what it reads as. */
  lemma ParseNumeralSpace(s: string)
    ensures ParseNumeral(" " + s) == ParseNumeral(s)
  {
    assert (" " + s)[1..] == s;
  }

  lemma IndexOfDigits(d: string, rest: string)
    requires AllDigits(d)
    ensures IndexOf(d + rest, '.') == |d| + IndexOf(rest, '.')
  {
    IndexOfAppend(d, rest, '.');
  }

  lemma ParseNatString(n: nat)
    ensures ParseUnsigned(NatToString(n)) == Some(n as real)
  {
    var s := NatToString(n);
    IndexOfDigits(s, "");
    assert s + "" == s;
    assert s[..|s|] == s;
    NatToStringValue(n);
  }

  lemma ParseCentsDigits(m: nat)
    ensures ParseUnsigned(CentsDigits(m)) == Some(m as real / 100.0)
  {
    var w := NatToString(m / 100);
    NatToStringValue(m / 100);
    var f := m % 100;
    if f == 0 {
      ParseNatString(m / 100);
      assert w + "" == w;
    } else {
      ParseDecimal(w, CentsFraction(f));
      if f % 10 == 0 {
        FractionValueOne(f / 10);
      } else {
        FractionValueTwo(f / 10, f % 10);
      }
      assert (m / 100) as real + f as real / 100.0 == m as real / 100.0;
    }
  }

  /** Whole digits, a point and fraction digits read as the whole plus the fraction. */
  lemma ParseDecimal(w: string, fr: string)
    requires AllDigits(w) && AllDigits(fr) && |w| >= 1
    ensures ParseUnsigned(w + ("." + fr)) == Some(DigitsValue(w) as real + FractionValue(fr))
  {
    var u := w + ("." + fr);
    DecimalPoint(w, fr);
    DecimalParts(w, fr);
    ParseAtPoint(u, w, fr);
  }

  /** A numeral whose first point follows the digits w, with the digits fr after it, reads as w plus the fraction fr. */
  lemma ParseAtPoint(u: string, w: string, fr: string)
    requires IndexOf(u, '.') == |w| < |u| && u[..|w|] == w && u[|w| + 1..] == fr
    requires AllDigits(w) && AllDigits(fr) && |w| >= 1
    ensures ParseUnsigned(u) == Some(DigitsValue(w) as real + FractionValue(fr))
  {
  }

  lemma DecimalPoint(w: string, fr: string)
    requires AllDigits(w)
    ensures IndexOf(w + ("." + fr), '.') == |w|
  {
    IndexOfDigits(w, "." + fr);
  }

  lemma DecimalParts(w: string, fr: string)
    ensures (w + ("." + fr))[..|w|] == w && (w + ("." + fr))[|w| + 1..] == fr
  {
  }

  lemma FractionValueOne(a: nat)
    requires a < 10
    ensures FractionValue([DigitChar(a)]) == a as real / 10.0
  {
    assert [DigitChar(a)][1..] == "";
  }

  lemma FractionValueTwo(a: nat, b: nat)
    requires a < 10 && b < 10
    ensures FractionValue([DigitChar(a), DigitChar(b)]) == (10 * a + b) as real / 100.0
  {
    var s := [DigitChar(a), DigitChar(b)];
    assert s[1..] == [DigitChar(b)];
    FractionValueOne(b);
  }

  /** An optional minus sign in front of an unsigned numeral. */
  lemma ParseSigned(digits: string, negative: bool)
    requires |digits| >= 1 && IsDigit(digits[0]) && NumeralChars(digits)
    ensures ParseNumeral(if negative then "-" + digits else digits)
      == if negative then Negated(ParseUnsigned(digits)) else ParseUnsigned(digits)
  {
    if negative {
      ParseMinus(digits);
    } else {
      ParsePlain(digits);
    }
  }

  lemma ParsePlain(digits: string)
    requires |digits| >= 1 && IsDigit(digits[0]) && NumeralChars(digits)
    ensures ParseNumeral(digits) == ParseUnsigned(digits)
  {
    TrimNumeral(digits);
    ParseTrimmedPlain(digits);
  }

  /** A trimmed text that starts with a digit reads as it stands. */
  lemma ParseTrimmedPlain(s: string)
    requires |s| > 0 && IsDigit(s[0]) && TrimRight(TrimLeft(s)) == s
    ensures ParseNumeral(s) == ParseUnsigned(s)
  {
  }

  lemma ParseMinus(digits: string)
    requires |digits| >= 1 && NumeralChars(digits)
    ensures ParseNumeral("-" + digits) == Negated(ParseUnsigned(digits))
  {
    MinusChars(digits);
    TrimNumeral("-" + digits);
    ParseTrimmedMinus("-" + digits);
  }

  lemma MinusChars(digits: string)
    requires NumeralChars(digits)
    ensures NumeralChars("-" + digits) && ("-" + digits)[1..] == digits
  {
    var s := "-" + digits;
    forall i | 1 <= i < |s| ensures s[i] == digits[i - 1] {
    }
  }

  /** A trimmed text that starts with a minus sign reads as the negated rest. */
  lemma ParseTrimmedMinus(s: string)
    requires |s| > 0 && s[0] == '-' && TrimRight(TrimLeft(s)) == s
    ensures ParseNumeral(s) == Negated(ParseUnsigned(s[1..]))
  {
  }

  /** Reading PHP's rendering of an integer gives the integer back. */
  lemma ParseIntToString(n: int)
    ensures ParseNumeral(IntToString(n)) == Some(n as real)
  {
    var m := AbsInt(n);
    ParseNatString(m);
    ParseSigned(NatToString(m), n < 0);
  }

  /** Reading PHP's rendering of k/100 gives k/100 back. */
  lemma ParseCentsToString(k: int)
    ensures ParseNumeral(CentsToString(k)) == Some(k as real / 100.0)
  {
    var m := AbsInt(k);
    var d := CentsDigits(m);
    var v := m as real / 100.0;
    assert CentsToString(k) == if k < 0 then "-" + d else d;
    assert ParseUnsigned(d) == Some(v) by { ParseCentsDigits(m); }
    ReadSigned(CentsToString(k), d, k < 0, v);
    assert (if k < 0 then -v else v) == k as real / 100.0;
  }

  /** A text that is an unsigned numeral, perhaps after a minus sign, reads as its value, negated after the sign. */
  lemma ReadSigned(s: string, digits: string, negative: bool, v: real)
    requires |digits| >= 1 && IsDigit(digits[0]) && NumeralChars(digits)
    requires s == (if negative then "-" + digits else digits) && ParseUnsigned(digits) == Some(v)
    ensures ParseNumeral(s) == Some(if negative then -v else v)
  {
    if negative {
      assert ParseNumeral("-" + digits) == Negated(ParseUnsigned(digits)) by { ParseMinus(digits); }
      NegatedSome(v);
    } else {
      ParsePlain(digits);
    }
  }

  lemma NegatedSome(v: real)
    ensures Negated(Some(v)) == Some(-v)
  {
  }

  /** Different integers are written differently. */
  lemma IntToStringInjective(a: int, b: int)
    requires IntToString(a) == IntToString(b)
    ensures a == b
  {
    ParseIntToString(a);
    ParseIntToString(b);
  }

  /** Different numbers of hundredths are written differently. */
  lemma CentsToStringInjective(a: int, b: int)
    requires CentsToString(a) == CentsToString(b)
    ensures a == b
  {
    ParseCentsToString(a);
    ParseCentsToString(b);
  }

  /** How PHP writes a few two-decimal values: no trailing zero, no point for a whole number. */
  lemma CentsExamples()
    ensures CentsToString(75) == "0.75"
    ensures CentsToString(50) == "0.5"
    ensures CentsToString(-5) == "-0.05"
    ensures CentsToString(200) == "2"
  {
    assert CentsFraction(75) == "75";
    assert CentsFraction(50) == "5";
    assert CentsFraction(5) == "05";
  }

  /** A whole number of hundredths is written as the integer. */
  lemma CentsOfWhole(n: int)
    ensures CentsToString(100 * n) == IntToString(n)
  {
    var m := AbsInt(100 * n);
    assert m % 100 == 0 && m / 100 == AbsInt(n);
  }
}
