/**
 * The colour value (Color.php) and its provenance-carrying variant
 * (BlendedColor.php).
 */
module Colors {
  import opened PhpNumbers
  import opened PhpStrings

  /**
   * Red, green and blue as integers and alpha as a whole number of
   * hundredths, since the constructor rounds alpha to two decimals. A
   * Blended colour also keeps the foreground it was made from and the
   * background it was blended with. Nothing is clamped to 0..255 or 0..1.
   */
  datatype Color =
    | Plain(red: int, green: int, blue: int, alphaCents: int)
    | Blended(original: Color, blendedWith: Color, red: int, green: int, blue: int, alphaCents: int)

  /** alpha() as a number. */
  function Alpha(c: Color): real {
    c.alphaCents as real / 100.0
  }

  /** Channels in 0..255 and alpha in 0..1. */
  predicate InGamut(c: Color) {
    0 <= c.red <= 255 && 0 <= c.green <= 255 && 0 <= c.blue <= 255 && 0 <= c.alphaCents <= 100
  }

  /** alpha() < 1, the test every caller makes for "not opaque". */
  predicate Translucent(c: Color) {
    c.alphaCents < 100
  }

  /**
   * new Color(red, green, blue, alpha = 1): each channel rounded to the
   * nearest integer and alpha to the nearest hundredth.
   */
  function NewColor(red: real, green: real, blue: real, alpha: real := 1.0): (c: Color)
    ensures c.Plain?
    ensures -0.5 <= c.red as real - red <= 0.5
    ensures -0.5 <= c.green as real - green <= 0.5
    ensures -0.5 <= c.blue as real - blue <= 0.5
    ensures -0.005 <= Alpha(c) - alpha <= 0.005
  {
    Plain(Round(red), Round(green), Round(blue), RoundCents(alpha))
  }

  /**
   * new BlendedColor(original, blendedWith, red, green, blue, alpha = 1):
   * rounded exactly like a plain colour, with both operands kept unchanged.
   */
  function NewBlendedColor(original: Color, blendedWith: Color, red: real, green: real, blue: real, alpha: real := 1.0): (c: Color)
    ensures c.Blended? && c.original == original && c.blendedWith == blendedWith
    ensures Equals(c, NewColor(red, green, blue, alpha))
  {
    Blended(original, blendedWith, Round(red), Round(green), Round(blue), RoundCents(alpha))
  }

  /**
   * equals(): all four rounded fields agree; provenance plays no part.
   * Equal colours are indistinguishable by either colour metric.
   */
  predicate Equals(a: Color, b: Color)
    ensures Equals(a, b) ==> Difference(a, b) == 0 && DiffBrightness(a, b) == 0.0
  {
    a.red == b.red && a.green == b.green && a.blue == b.blue && a.alphaCents == b.alphaCents
  }

  /** brightness(): the weighted mean (299 R + 587 G + 114 B) / 1000. */
  function Brightness(c: Color): (r: real)
    ensures 0 <= c.red <= 255 && 0 <= c.green <= 255 && 0 <= c.blue <= 255 ==> 0.0 <= r <= 255.0
    ensures c.red == c.green == c.blue ==> r == c.red as real
  {
    (c.red * 299 + c.green * 587 + c.blue * 114) as real / 1000.0
  }

  /** difference(): the sum of the absolute channel differences; alpha is ignored. */
  function Difference(a: Color, b: Color): (d: int)
    ensures d >= 0
    ensures d == 0 <==> a.red == b.red && a.green == b.green && a.blue == b.blue
  {
    AbsInt(a.red - b.red) + AbsInt(a.green - b.green) + AbsInt(a.blue - b.blue)
  }

  /** diffBrightness(): the absolute difference of the two brightnesses. */
  function DiffBrightness(a: Color, b: Color): (d: real)
    ensures d >= 0.0
    ensures a.red == b.red && a.green == b.green && a.blue == b.blue ==> d == 0.0
  {
    AbsReal(Brightness(a) - Brightness(b))
  }

  /**
   * __toString(): "r=R;g=G;b=B;a=A", the key the palette de-duplicates on.
   * It never contains a space, so it can be glued with " on ".
   */
  function ToString(c: Color): (s: string)
    ensures Lacks(s, ' ')
  {
    var red, green, blue, alpha := IntToString(c.red), IntToString(c.green), IntToString(c.blue), CentsToString(c.alphaCents);
    NumeralLacks(red, ' ');
    NumeralLacks(green, ' ');
    NumeralLacks(blue, ' ');
    NumeralLacks(alpha, ' ');
    LacksAppend("r=", red, ' ');
    LacksAppend("r=" + red, ";g=", ' ');
    LacksAppend("r=" + red + ";g=", green, ' ');
    LacksAppend("r=" + red + ";g=" + green, ";b=", ' ');
    LacksAppend("r=" + red + ";g=" + green + ";b=", blue, ' ');
    LacksAppend("r=" + red + ";g=" + green + ";b=" + blue, ";a=", ' ');
    LacksAppend("r=" + red + ";g=" + green + ";b=" + blue + ";a=", alpha, ' ');
    "r=" + red + ";g=" + green + ";b=" + blue + ";a=" + alpha
  }

  // ---------------------------------------------------------------------
  // Properties.

  /** Integer arguments are stored as given: the constructor does not clamp. */
  lemma NewColorKeepsIntegers(red: int, green: int, blue: int, alphaCents: int)
    ensures NewColor(red as real, green as real, blue as real, alphaCents as real / 100.0) == Plain(red, green, blue, alphaCents)
  {
    assert alphaCents as real / 100.0 * 100.0 == alphaCents as real;
    RoundInt(alphaCents);
  }

  /** The default alpha is 1, for plain and blended colours alike. */
  lemma DefaultAlphaIsOne(original: Color, blendedWith: Color, red: real, green: real, blue: real)
    ensures NewColor(red, green, blue).alphaCents == 100
    ensures NewBlendedColor(original, blendedWith, red, green, blue).alphaCents == 100
  {
    RoundInt(100);
  }

  lemma EqualsReflexive(a: Color)
    ensures Equals(a, a)
  {
  }

  lemma EqualsSymmetric(a: Color, b: Color)
    ensures Equals(a, b) <==> Equals(b, a)
  {
  }

  lemma DifferenceSymmetric(a: Color, b: Color)
    ensures Difference(a, b) == Difference(b, a)
  {
  }

  lemma DiffBrightnessSymmetric(a: Color, b: Color)
    ensures DiffBrightness(a, b) == DiffBrightness(b, a)
  {
  }

  /**
   * A blended colour is equal to, and has the same key as, the plain colour
   * with the same channels and alpha.
   */
  lemma BlendedLikePlain(original: Color, blendedWith: Color, red: real, green: real, blue: real, alpha: real)
    ensures Equals(NewBlendedColor(original, blendedWith, red, green, blue, alpha), NewColor(red, green, blue, alpha))
    ensures ToString(NewBlendedColor(original, blendedWith, red, green, blue, alpha)) == ToString(NewColor(red, green, blue, alpha))
  {
  }

  // The key determines the colour.

  lemma NumeralLacks(s: string, c: char)
    requires NumeralChars(s)
    requires !IsDigit(c) && c != '-' && c != '.'
    ensures Lacks(s, c)
  {
  }

  lemma LacksAppend(a: string, b: string, c: char)
    requires Lacks(a, c) && Lacks(b, c)
    ensures Lacks(a + b, c)
  {
    assert forall i :: 0 <= i < |a| ==> (a + b)[i] == a[i];
    assert forall i :: |a| <= i < |a| + |b| ==> (a + b)[i] == b[i - |a|];
  }

  /** Two texts that each start with a separator-free field split the same way. */
  lemma SplitField(x: string, y: string, rx: string, ry: string, sep: char)
    requires Lacks(x, sep) && Lacks(y, sep)
    requires x + [sep] + rx == y + [sep] + ry
    ensures x == y && rx == ry
  {
    FieldAt(x, rx, sep);
    FieldAt(y, ry, sep);
  }

  /** Where the first field of x + sep + rx ends, and what is on either side. */
  lemma FieldAt(x: string, rx: string, sep: char)
    requires Lacks(x, sep)
    ensures IndexOf(x + [sep] + rx, sep) == |x|
    ensures (x + [sep] + rx)[..|x|] == x && (x + [sep] + rx)[|x| + 1..] == rx
  {
    var t := [sep] + rx;
    assert x + [sep] + rx == x + t;
    IndexOfAppend(x, t, sep);
    assert IndexOf(t, sep) == 0;
  }

  lemma DropPrefix(p: string, a: string, b: string)
    requires p + a == p + b
    ensures a == b
  {
    assert a == (p + a)[|p|..];
    assert b == (p + b)[|p|..];
  }

  /** One field "tag" + number, and what follows its ';'. */
  lemma SplitNumberField(tag: string, x: string, y: string, rx: string, ry: string)
    requires Lacks(tag, ';') && NumeralChars(x) && NumeralChars(y)
    requires tag + x + [';'] + rx == tag + y + [';'] + ry
    ensures x == y && rx == ry
  {
    NumeralLacks(x, ';');
    NumeralLacks(y, ';');
    LacksAppend(tag, x, ';');
    LacksAppend(tag, y, ';');
    SplitField(tag + x, tag + y, rx, ry, ';');
    DropPrefix(tag, x, y);
  }

  lemma ToStringShape(c: Color)
    ensures ToString(c) == "r=" + IntToString(c.red) + [';'] + ("g=" + IntToString(c.green) + [';']
      + ("b=" + IntToString(c.blue) + [';'] + ("a=" + CentsToString(c.alphaCents))))
  {
    var r, g, b, a := IntToString(c.red), IntToString(c.green), IntToString(c.blue), CentsToString(c.alphaCents);
    Regroup("r=" + r, ";g=", g, ";b=", b, ";a=", a);
    SemiTag('g', g);
    SemiTag('b', b);
    SemiTag('a', a);
  }

  lemma Regroup(x0: string, s1: string, x1: string, s2: string, x2: string, s3: string, x3: string)
    ensures x0 + s1 + x1 + s2 + x2 + s3 + x3 == x0 + (s1 + x1 + (s2 + x2 + (s3 + x3)))
  {
  }

  lemma SemiTag(t: char, v: string)
    ensures [';', t, '='] + v == [';'] + ([t, '='] + v)
  {
  }

  /** The key determines all four fields: equal keys mean equal colours and back. */
  lemma ToStringInjective(a: Color, b: Color)
    ensures ToString(a) == ToString(b) <==> Equals(a, b)
  {
    if ToString(a) == ToString(b) {
      var ra, ga, ba, aa := IntToString(a.red), IntToString(a.green), IntToString(a.blue), CentsToString(a.alphaCents);
      var rb, gb, bb, ab := IntToString(b.red), IntToString(b.green), IntToString(b.blue), CentsToString(b.alphaCents);
      ToStringShape(a);
      ToStringShape(b);
      SplitNumberField("r=", ra, rb, "g=" + ga + [';'] + ("b=" + ba + [';'] + ("a=" + aa)), "g=" + gb + [';'] + ("b=" + bb + [';'] + ("a=" + ab)));
      SplitNumberField("g=", ga, gb, "b=" + ba + [';'] + ("a=" + aa), "b=" + bb + [';'] + ("a=" + ab));
      SplitNumberField("b=", ba, bb, "a=" + aa, "a=" + ab);
      DropPrefix("a=", aa, ab);
      IntToStringInjective(a.red, b.red);
      IntToStringInjective(a.green, b.green);
      IntToStringInjective(a.blue, b.blue);
      CentsToStringInjective(a.alphaCents, b.alphaCents);
    }
  }
}
