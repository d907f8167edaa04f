/**
 * hsl() and hsla() colour functions (HslProcessor.php): the chroma and
 * hue-sector conversion of section 4.2.4 of CSS Color Module Level 3 in
 * the form the code computes it, and the way back for formatting.
 */
module HslCodec {
  import opened Wrappers
  import opened PhpNumbers
  import opened PhpStrings
  import opened Colors
  import opened CssFunctions

  // ---------------------------------------------------------------------
  // From hue, saturation and lightness to a colour.

  /**
   * The hue modifier once buildColorFromHsl() has taken 2 off it while it
   * is above 2.
   */
  function HueModifier(m: real): (r: real)
    ensures r <= 2.0
    decreases m.Floor
  {
    if m > 2.0 then HueModifier(m - 2.0) else m
  }

  /** The loop of buildColorFromHsl() that brings the hue modifier down. */
  method ReduceHueModifier(m0: real) returns (m: real)
    ensures m == HueModifier(m0)
    ensures m <= 2.0
  {
    m := m0;
    while m > 2.0
      invariant HueModifier(m) == HueModifier(m0)
      decreases m.Floor
    {
      m := m - 2.0;
    }
  }

  /** (1 - |2 L - 1|) S. */
  function Chroma(saturation: real, lightness: real): real {
    (1.0 - AbsReal(2.0 * lightness - 1.0)) * saturation
  }

  /** The second-largest component: chroma scaled by 1 - |modifier - 1|. */
  function SecondComponent(hue: real, chroma: real): real {
    chroma * (1.0 - AbsReal(HueModifier(hue / 60.0) - 1.0))
  }

  /**
   * Where chroma and the second component go, by sector of 60 degrees; the
   * third channel stays 0.
   */
  function SectorChannels(hue: real, chroma: real, x: real): (t: (real, real, real))
    ensures hue < 120.0 ==> t.2 == 0.0
    ensures 120.0 <= hue < 240.0 ==> t.0 == 0.0
    ensures 240.0 <= hue ==> t.1 == 0.0
    ensures multiset{t.0, t.1, t.2} == multiset{chroma, x, 0.0}
  {
    if hue < 60.0 then (chroma, x, 0.0)
    else if hue < 120.0 then (x, chroma, 0.0)
    else if hue < 180.0 then (0.0, chroma, x)
    else if hue < 240.0 then (0.0, x, chroma)
    else if hue < 300.0 then (x, 0.0, chroma)
    else (chroma, 0.0, x)
  }

  /** One channel: (int) round((component + L - chroma / 2) * 255). */
  function Channel(component: real, lightness: real, chroma: real): int {
    Round((component + (lightness - chroma / 2.0)) * 255.0)
  }

  /**
   * buildColorFromHsl(hue, saturation, lightness, alpha): the colour the
   * conversion gives, rounded by the Color constructor.
   */
  function ColorFromHsl(hue: real, saturation: real, lightness: real, alpha: real): (c: Color)
    ensures c.Plain? && c.alphaCents == RoundCents(alpha)
  {
    var chroma := Chroma(saturation, lightness);
    var t := SectorChannels(hue, chroma, SecondComponent(hue, chroma));
    var red, green, blue := Channel(t.0, lightness, chroma), Channel(t.1, lightness, chroma), Channel(t.2, lightness, chroma);
    RoundInt(red);
    RoundInt(green);
    RoundInt(blue);
    NewColor(red as real, green as real, blue as real, alpha)
  }

  /** buildColorFromHsl() step by step, with its loop and its channel array. */
  method BuildColorFromHsl(hue: real, saturation: real, lightness: real, alpha: real) returns (c: Color)
    ensures c == ColorFromHsl(hue, saturation, lightness, alpha)
  {
    var hueModifier := ReduceHueModifier(hue / 60.0);
    var chroma := (1.0 - AbsReal(2.0 * lightness - 1.0)) * saturation;
    assert chroma == Chroma(saturation, lightness);
    var xModifier := chroma * (1.0 - AbsReal(hueModifier - 1.0));
    assert xModifier == SecondComponent(hue, chroma);
    var lightnessModifier := lightness - chroma / 2.0;
    var red, green, blue := FillSector(hue, chroma, xModifier);
    var r, g, b := Round((red + lightnessModifier) * 255.0), Round((green + lightnessModifier) * 255.0), Round((blue + lightnessModifier) * 255.0);
    assert r == Channel(red, lightness, chroma) && g == Channel(green, lightness, chroma) && b == Channel(blue, lightness, chroma);
    ChannelsOf(hue, saturation, lightness, alpha, chroma, xModifier, (red, green, blue), r, g, b);
    c := NewColor(r as real, g as real, b as real, alpha);
  }

  /**
   * The if-chain of buildColorFromHsl() that fills the channel array: chroma
   * and the second component placed by sector, the rest left at 0.
   */
  method FillSector(hue: real, chroma: real, xModifier: real) returns (red: real, green: real, blue: real)
    ensures (red, green, blue) == SectorChannels(hue, chroma, xModifier)
  {
    red, green, blue := 0.0, 0.0, 0.0;
    if hue < 60.0 {
      red, green := chroma, xModifier;
    } else if hue < 120.0 {
      red, green := xModifier, chroma;
    } else if hue < 180.0 {
      green, blue := chroma, xModifier;
    } else if hue < 240.0 {
      green, blue := xModifier, chroma;
    } else if hue < 300.0 {
      red, blue := xModifier, chroma;
    } else {
      red, blue := chroma, xModifier;
    }
  }

  /** The colour of three channels worked out the way the conversion does. */
  lemma ChannelsOf(hue: real, saturation: real, lightness: real, alpha: real,
                   chroma: real, x: real, t: (real, real, real), r: int, g: int, b: int)
    requires chroma == Chroma(saturation, lightness) && x == SecondComponent(hue, chroma)
    requires t == SectorChannels(hue, chroma, x)
    requires r == Channel(t.0, lightness, chroma) && g == Channel(t.1, lightness, chroma) && b == Channel(t.2, lightness, chroma)
    ensures NewColor(r as real, g as real, b as real, alpha) == ColorFromHsl(hue, saturation, lightness, alpha)
  {
  }

  // ---------------------------------------------------------------------
  // Reading hsl() and hsla().

  /**
   * buildColor(): "hsl" with exactly three arguments or "hsla" with exactly
   * four. The hue is taken as it is, saturation and lightness are divided by
   * 100, and so is the hsla alpha. Anything else is None.
   */
  function BuildColor(s: string): (r: Option<Color>)
    ensures r.Some? ==> ParseCssColorFunction(s).Some? && Accepted(ParseCssColorFunction(s).value)
    ensures r.Some? ==> r.value.Plain?
  {
    match ParseCssColorFunction(s)
    case None => None
    case Some(f) => BuildFromCall(f)
  }

  /** The name and argument count buildColor() accepts. */
  predicate Accepted(f: CssFunction) {
    (f.name == "hsl" && |f.arguments| == 3) || (f.name == "hsla" && |f.arguments| == 4)
  }

  /** The switch on the function name, once the call is split. */
  function BuildFromCall(f: CssFunction): (r: Option<Color>)
    ensures r.Some? <==> Accepted(f) && ParseAll(f.arguments).Some?
    ensures r.Some? ==> r.value.Plain?
  {
    FromValues(f.name, |f.arguments|, ParseAll(f.arguments))
  }

  /** The switch on the name and the number of arguments, given what they read as. */
  function FromValues(name: string, count: nat, values: Option<seq<real>>): (r: Option<Color>)
    requires values.Some? ==> |values.value| == count
    ensures r.Some? <==> ((name == "hsl" && count == 3) || (name == "hsla" && count == 4)) && values.Some?
    ensures r.Some? ==> r.value.Plain?
  {
    if name == "hsl" then
      if count != 3 then None
      else
        match values
        case None => None
        case Some(v) => Some(ColorFromHsl(v[0], v[1] / 100.0, v[2] / 100.0, 1.0))
    else if name == "hsla" then
      if count != 4 then None
      else
        match values
        case None => None
        case Some(v) => Some(ColorFromHsl(v[0], v[1] / 100.0, v[2] / 100.0, v[3] / 100.0))
    else None
  }

  // ---------------------------------------------------------------------
  // From a colour to hsl() text.

  /** The hue after the first loop of formatHslColor(): 360 added while it is negative. */
  function RaiseHue(h: real): (r: real)
    ensures r >= 0.0
    decreases -h.Floor
  {
    if h < 0.0 then RaiseHue(h + 360.0) else h
  }

  /** The hue after the second loop: 360 taken off while it is above 360. */
  function LowerHue(h: real): (r: real)
    ensures r <= 360.0
    ensures h >= 0.0 ==> r >= 0.0
    decreases h.Floor
  {
    if h > 360.0 then LowerHue(h - 360.0) else h
  }

  /** The hue formatHslColor() writes: brought into 0..360, 360 itself kept. */
  function NormalisedHue(h: real): (r: real)
    ensures 0.0 <= r <= 360.0
    ensures 0.0 <= h <= 360.0 ==> r == h
  {
    LowerHue(RaiseHue(h))
  }

  /** round(x, 2) as PHP writes it. */
  function Decimal2(x: real): string {
    CentsToString(RoundCents(x))
  }

  /**
   * formatHslColor(hue, saturation, luminescence, alpha): hsla() with four
   * components when alpha < 1, otherwise hsl() with three, each rounded to
   * two decimals and saturation and luminescence as percentages.
   */
  function HslText(hue: real, saturation: real, luminescence: real, alpha: real): (s: string)
    ensures alpha < 1.0 ==> |s| > 5 && s[..5] == "hsla("
    ensures alpha >= 1.0 ==> |s| > 4 && s[..4] == "hsl("
  {
    var args := Decimals(HslRaw(hue, saturation, luminescence, alpha));
    var name := HslName(alpha);
    var s := FormatColorFunction(name, args);
    assert s[..|name| + 1] == s[..|name|] + [s[|name|]];
    s
  }

  /** The function name formatHslColor() picks: hsla() exactly when alpha < 1. */
  function HslName(alpha: real): string {
    if alpha < 1.0 then "hsla" else "hsl"
  }

  /** The values formatHslColor() writes, before rounding: alpha only when below 1. */
  function HslRaw(hue: real, saturation: real, luminescence: real, alpha: real): (xs: seq<real>)
    ensures |xs| == if alpha < 1.0 then 4 else 3
  {
    var three := [NormalisedHue(hue), saturation * 100.0, luminescence * 100.0];
    if alpha < 1.0 then three + [alpha] else three
  }

  /** Each value written as round(x, 2). */
  function Decimals(xs: seq<real>): (args: seq<string>)
    ensures |args| == |xs|
    ensures forall k :: 0 <= k < |xs| ==> NumeralChars(args[k])
  {
    seq(|xs|, k requires 0 <= k < |xs| => Decimal2(xs[k]))
  }

  /** Each value rounded to two decimals. */
  function Rounded(xs: seq<real>): (vs: seq<real>)
    ensures |vs| == |xs|
    ensures forall k :: 0 <= k < |xs| ==> -0.005 <= vs[k] - xs[k] <= 0.005
  {
    seq(|xs|, k requires 0 <= k < |xs| => Round2(xs[k]))
  }

  /** formatHslColor() step by step, with its two loops. */
  method FormatHslColor(hue0: real, saturation: real, luminescence: real, alpha: real) returns (s: string)
    ensures s == HslText(hue0, saturation, luminescence, alpha)
  {
    var hue := hue0;
    while hue < 0.0
      invariant RaiseHue(hue) == RaiseHue(hue0)
      decreases -hue.Floor
    {
      hue := hue + 360.0;
    }
    while hue > 360.0
      invariant hue >= 0.0
      invariant LowerHue(hue) == NormalisedHue(hue0)
      decreases hue.Floor
    {
      hue := hue - 360.0;
    }
    assert hue == NormalisedHue(hue0);
    var components := [hue, saturation * 100.0, luminescence * 100.0];
    if alpha < 1.0 {
      s := FormatColorFunction("hsla", Decimals(components + [alpha]));
    } else {
      s := FormatColorFunction("hsl", Decimals(components));
    }
  }

  function Min3(a: real, b: real, d: real): (m: real)
    ensures m <= a && m <= b && m <= d && (m == a || m == b || m == d)
  {
    if a <= b && a <= d then a else if b <= d then b else d
  }

  function Max3(a: real, b: real, d: real): (m: real)
    ensures m >= a && m >= b && m >= d && (m == a || m == b || m == d)
  {
    if a >= b && a >= d then a else if b >= d then b else d
  }

  /**
   * The saturation divisor formatColor() uses: max + min below lightness
   * 0.5, and 2 - (max - min) from there on.
   */
  function SaturationDivisor(minimum: real, maximum: real, luminescence: real): real {
    if luminescence < 0.5 then maximum + minimum else 2.0 - (maximum - minimum)
  }

  /** The hue in sixths of a turn, from the largest channel. */
  function HueSixths(red: real, green: real, blue: real, range: real): real
    requires range != 0.0
  {
    if red >= blue && red >= green then (green - blue) / range
    else if green >= blue && green >= red then 2.0 + (blue - red) / range
    else 4.0 + (red - green) / range
  }

  /** The hue in degrees, the saturation and the lightness formatColor() passes on. */
  datatype Hsl = Hsl(hue: real, saturation: real, lightness: real)

  /**
   * The computation in formatColor(): the channels as fractions of 255,
   * lightness the rounded mean of the extremes, hue and saturation 0 for a
   * grey. None where PHP 8 would divide by zero, which channels in 0..255
   * never make it do.
   */
  function HslOf(c: Color): (h: Option<Hsl>)
    ensures h.Some? && c.red == c.green == c.blue ==> h.value.hue == 0.0 && h.value.saturation == 0.0
  {
    HslOfFractions(c.red as real / 255.0, c.green as real / 255.0, c.blue as real / 255.0)
  }

  /** The same, from the channels already divided by 255. */
  function HslOfFractions(red: real, green: real, blue: real): (h: Option<Hsl>)
    ensures h.Some? && red == green == blue ==> h.value.hue == 0.0 && h.value.saturation == 0.0
  {
    var minimum, maximum := Min3(red, green, blue), Max3(red, green, blue);
    var luminescence := Round2((minimum + maximum) / 2.0);
    if minimum == maximum then Some(Hsl(0.0, 0.0, luminescence))
    else
      var range := maximum - minimum;
      var divisor := SaturationDivisor(minimum, maximum, luminescence);
      if divisor == 0.0 then None
      else Some(Hsl(HueSixths(red, green, blue, range) * 60.0, range / divisor, luminescence))
  }

  /** formatColor(): the components handed to formatHslColor() with the colour's alpha. */
  function FormatColor(c: Color): (r: Option<string>)
    ensures r.Some? <==> HslOf(c).Some?
  {
    match HslOf(c)
    case None => None
    case Some(h) => Some(HslText(h.hue, h.saturation, h.lightness, Alpha(c)))
  }

  // ---------------------------------------------------------------------
  // Properties of the conversion.

  /** m - 2 floor(m / 2): the "H' mod 2" of the CSS formula, in [0, 2). */
  function Mod2(m: real): (r: real)
    ensures 0.0 <= r < 2.0
  {
    m - 2.0 * ((m / 2.0).Floor as real)
  }

  /**
   * For m >= 0 the loop leaves the modifier in [0, 2] (2 itself is kept where
   * the CSS remainder gives 0), and 1 - |modifier - 1| comes out the same as
   * with the CSS remainder.
   */
  lemma {:induction false} HueModifierStandard(m: real)
    requires m >= 0.0
    ensures 0.0 <= HueModifier(m)
    ensures AbsReal(HueModifier(m) - 1.0) == AbsReal(Mod2(m) - 1.0)
    decreases m.Floor
  {
    if m > 2.0 {
      HueModifierStandard(m - 2.0);
      assert ((m - 2.0) / 2.0).Floor == (m / 2.0).Floor - 1;
    } else if m < 2.0 {
      assert (m / 2.0).Floor == 0;
    } else {
      assert (m / 2.0).Floor == 1;
    }
  }

  /** The second component of section 4.2.4 of CSS Color Module Level 3. */
  function StandardSecondComponent(hue: real, chroma: real): real {
    chroma * (1.0 - AbsReal(Mod2(hue / 60.0) - 1.0))
  }

  /** For a hue that is not negative, the code's second component is the standard one. */
  lemma SecondComponentStandard(hue: real, chroma: real)
    requires hue >= 0.0
    ensures SecondComponent(hue, chroma) == StandardSecondComponent(hue, chroma)
  {
    var m := hue / 60.0;
    HueModifierStandard(m);
    assert AbsReal(HueModifier(m) - 1.0) == AbsReal(Mod2(m) - 1.0);
  }

  /** A negative hue is not reduced: hsl(-60, 100%, 50%) gives a green channel of -255. */
  lemma NegativeHueNotWrapped()
    ensures ColorFromHsl(-60.0, 1.0, 0.5, 1.0) == Plain(255, -255, 0, 100)
  {
    assert Chroma(1.0, 0.5) == 1.0;
    assert HueModifier(-60.0 / 60.0) == -1.0;
    assert SecondComponent(-60.0, 1.0) == -1.0;
    RoundInt(255);
    RoundInt(-255);
    RoundInt(0);
    RoundInt(100);
  }

  /** 0 <= k s <= k for a factor s in [0, 1]. */
  lemma ScaleDown(k: real, s: real)
    requires 0.0 <= k && 0.0 <= s <= 1.0
    ensures 0.0 <= k * s <= k
  {
  }

  /** Saturation and lightness in [0, 1] keep L - C/2 and L + C/2 in [0, 1]. */
  lemma ChromaBounds(saturation: real, lightness: real)
    requires 0.0 <= saturation <= 1.0 && 0.0 <= lightness <= 1.0
    ensures var chroma := Chroma(saturation, lightness);
      0.0 <= chroma && 0.0 <= lightness - chroma / 2.0 && lightness + chroma / 2.0 <= 1.0
  {
    var k := 1.0 - AbsReal(2.0 * lightness - 1.0);
    ScaleDown(k, saturation);
    assert 0.0 <= Chroma(saturation, lightness) <= k;
    assert k == if lightness < 0.5 then 2.0 * lightness else 2.0 - 2.0 * lightness;
  }

  /** For a hue that is not negative the second component lies between 0 and chroma. */
  lemma SecondComponentBounds(hue: real, chroma: real)
    requires hue >= 0.0 && chroma >= 0.0
    ensures 0.0 <= SecondComponent(hue, chroma) <= chroma
  {
    HueModifierStandard(hue / 60.0);
    ScaleDown(chroma, 1.0 - AbsReal(HueModifier(hue / 60.0) - 1.0));
  }

  /** A channel whose component lies in [0, chroma] is in 0..255. */
  lemma ChannelBounds(component: real, lightness: real, chroma: real)
    requires 0.0 <= component <= chroma
    requires 0.0 <= lightness - chroma / 2.0 && lightness + chroma / 2.0 <= 1.0
    ensures 0 <= Channel(component, lightness, chroma) <= 255
  {
    var x := (component + (lightness - chroma / 2.0)) * 255.0;
    RoundMonotone(0.0, x);
    RoundMonotone(x, 255.0);
    RoundInt(0);
    RoundInt(255);
  }

  /**
   * A hue that is not negative with saturation, lightness and alpha in
   * [0, 1] gives channels in 0..255 and alpha in 0..1.
   */
  lemma ColorFromHslInGamut(hue: real, saturation: real, lightness: real, alpha: real)
    requires hue >= 0.0
    requires 0.0 <= saturation <= 1.0 && 0.0 <= lightness <= 1.0 && 0.0 <= alpha <= 1.0
    ensures InGamut(ColorFromHsl(hue, saturation, lightness, alpha))
  {
    var chroma := Chroma(saturation, lightness);
    var x := SecondComponent(hue, chroma);
    ChromaBounds(saturation, lightness);
    SecondComponentBounds(hue, chroma);
    var t := SectorChannels(hue, chroma, x);
    assert t.0 in multiset{chroma, x, 0.0} && t.1 in multiset{chroma, x, 0.0} && t.2 in multiset{chroma, x, 0.0};
    ChannelBounds(t.0, lightness, chroma);
    ChannelBounds(t.1, lightness, chroma);
    ChannelBounds(t.2, lightness, chroma);
    RoundMonotone(0.0, alpha * 100.0);
    RoundMonotone(alpha * 100.0, 100.0);
    RoundInt(0);
    RoundInt(100);
  }

  /** Saturation 0 gives a grey: all three channels are round(L * 255). */
  lemma AchromaticHsl(hue: real, lightness: real, alpha: real)
    ensures var c := ColorFromHsl(hue, 0.0, lightness, alpha);
      c.red == c.green == c.blue == Round(lightness * 255.0)
  {
    assert Chroma(0.0, lightness) == 0.0;
    assert SecondComponent(hue, 0.0) == 0.0;
  }

  // ---------------------------------------------------------------------
  // Properties of the formatting.

  /** round(x, 2), once written, has no comma or brace and reads back as round(x, 2). */
  lemma DecimalReads(x: real)
    ensures Lacks(Decimal2(x), ',') && Lacks(Decimal2(x), '(') && Lacks(Decimal2(x), ')')
    ensures ParseNumeral(Decimal2(x)) == Some(Round2(x))
  {
    var k := RoundCents(x);
    var t := CentsToString(k);
    NumeralLacksBraces(t);
    ParseCentsToString(k);
    assert ParseNumeral(t) == Some(Round2(x));
  }

  /** Each written value reads back as the value rounded to two decimals. */
  lemma DecimalsRead(xs: seq<real>)
    ensures forall k :: 0 <= k < |xs| ==> Lacks(Decimals(xs)[k], ',') && Lacks(Decimals(xs)[k], '(') && Lacks(Decimals(xs)[k], ')')
    ensures forall k :: 0 <= k < |xs| ==> ParseNumeral(Decimals(xs)[k]) == Some(Rounded(xs)[k])
  {
    forall k | 0 <= k < |xs|
      ensures Lacks(Decimals(xs)[k], ',') && Lacks(Decimals(xs)[k], '(') && Lacks(Decimals(xs)[k], ')')
      ensures ParseNumeral(Decimals(xs)[k]) == Some(Rounded(xs)[k])
    {
      assert Decimals(xs)[k] == Decimal2(xs[k]) && Rounded(xs)[k] == Round2(xs[k]);
      DecimalReads(xs[k]);
    }
  }

  /** A formatted hsl() or hsla() call reads as the values its arguments read as. */
  lemma FormattedReads(name: string, args: seq<string>, vs: seq<real>)
    requires name == "hsl" || name == "hsla"
    requires |args| >= 1 && |vs| == |args|
    requires forall k :: 0 <= k < |args| ==> Lacks(args[k], ',') && Lacks(args[k], '(') && Lacks(args[k], ')')
    requires forall k :: 0 <= k < |args| ==> ParseNumeral(args[k]) == Some(vs[k])
    ensures BuildColor(FormatColorFunction(name, args)) == FromValues(name, |args|, Some(vs))
  {
    HslNames();
    ParseFormat(name, args);
    ReadPadded(args, vs);
  }

  /**
   * Reading hsl() text back: the call splits into the written components
   * (spaces kept), and each reads as its value rounded to two decimals.
   */
  lemma HslTextReadsBack(hue: real, saturation: real, luminescence: real, alpha: real)
    ensures var xs := HslRaw(hue, saturation, luminescence, alpha);
      BuildColor(HslText(hue, saturation, luminescence, alpha)) == FromValues(HslName(alpha), |xs|, Some(Rounded(xs)))
  {
    var xs := HslRaw(hue, saturation, luminescence, alpha);
    DecimalsRead(xs);
    FormattedReads(HslName(alpha), Decimals(xs), Rounded(xs));
  }

  /**
   * hsl() text written for an opaque colour reads back as hsl() of the
   * hue, saturation and lightness, each rounded to two decimals.
   */
  lemma OpaqueReadsBack(hue: real, saturation: real, luminescence: real, alpha: real)
    requires alpha >= 1.0
    ensures BuildColor(HslText(hue, saturation, luminescence, alpha))
      == FromValues("hsl", 3, Some([Round2(NormalisedHue(hue)), Round2(saturation * 100.0), Round2(luminescence * 100.0)]))
  {
    HslTextReadsBack(hue, saturation, luminescence, alpha);
    RoundedThree(NormalisedHue(hue), saturation * 100.0, luminescence * 100.0);
  }

  /**
   * hsla() text written for a translucent colour reads back as hsla() of
   * the four rounded values; the alpha, written as a fraction, is then
   * divided by 100 like a percentage (see HslaValues).
   */
  lemma TranslucentReadsBack(hue: real, saturation: real, luminescence: real, alpha: real)
    requires alpha < 1.0
    ensures BuildColor(HslText(hue, saturation, luminescence, alpha))
      == FromValues("hsla", 4, Some([Round2(NormalisedHue(hue)), Round2(saturation * 100.0), Round2(luminescence * 100.0), Round2(alpha)]))
  {
    HslTextReadsBack(hue, saturation, luminescence, alpha);
    RoundedFour(NormalisedHue(hue), saturation * 100.0, luminescence * 100.0, alpha);
  }

  lemma RoundedThree(a: real, b: real, d: real)
    ensures Rounded([a, b, d]) == [Round2(a), Round2(b), Round2(d)]
  {
  }

  lemma RoundedFour(a: real, b: real, d: real, e: real)
    ensures Rounded([a, b, d] + [e]) == [Round2(a), Round2(b), Round2(d), Round2(e)]
  {
  }

  /** Channels in 0..255 never make formatColor() divide by zero. */
  lemma FormatColorInGamut(c: Color)
    requires InGamut(c)
    ensures FormatColor(c).Some?
  {
    var red, green, blue := c.red as real / 255.0, c.green as real / 255.0, c.blue as real / 255.0;
    var minimum, maximum := Min3(red, green, blue), Max3(red, green, blue);
    assert 0.0 <= minimum && maximum <= 1.0;
  }

  /** A grey is written with hue and saturation 0 and its lightness rounded to two decimals. */
  lemma FormatGrey(c: Color)
    requires c.red == c.green == c.blue
    ensures FormatColor(c) == Some(HslText(0.0, 0.0, Round2(c.red as real / 255.0), Alpha(c)))
  {
    var v := c.red as real / 255.0;
    assert HslOf(c) == Some(Hsl(0.0, 0.0, Round2(v))) by { GreyFractions(v); }
  }

  /** Three equal fractions have hue and saturation 0 and their own value, rounded, as lightness. */
  lemma GreyFractions(v: real)
    ensures HslOfFractions(v, v, v) == Some(Hsl(0.0, 0.0, Round2(v)))
  {
    assert Min3(v, v, v) == v && Max3(v, v, v) == v;
    assert (v + v) / 2.0 == v;
  }

  /** round(x, 2) keeps a value in [0, 1] in [0, 1]. */
  lemma Round2Unit(x: real)
    requires 0.0 <= x <= 1.0
    ensures 0.0 <= Round2(x) <= 1.0
  {
    RoundMonotone(0.0, x * 100.0);
    RoundMonotone(x * 100.0, 100.0);
    RoundInt(0);
    RoundInt(100);
  }

  /** A quotient whose numerator is at most the positive divisor in size lies in [-1, 1]. */
  lemma QuotientUnit(x: real, d: real)
    requires d > 0.0 && -d <= x <= d
    ensures -1.0 <= x / d <= 1.0
  {
    assert x / d * d == x;
  }

  /**
   * For channels in 0..255 the saturation and the lightness formatColor()
   * computes lie in [0, 1], and the hue in [-60, 300].
   */
  /** Saturation and lightness in [0, 1], the hue in [-60, 300]. */
  predicate InRanges(h: Hsl) {
    0.0 <= h.saturation <= 1.0 && 0.0 <= h.lightness <= 1.0 && -60.0 <= h.hue <= 300.0
  }

  lemma HslOfRanges(c: Color)
    requires InGamut(c)
    ensures HslOf(c).Some?
    ensures InRanges(HslOf(c).value)
  {
    var red, green, blue := c.red as real / 255.0, c.green as real / 255.0, c.blue as real / 255.0;
    UnitFractions(c);
    FractionRanges(red, green, blue);
  }

  /** Channels in 0..255 divided by 255 lie in [0, 1]. */
  lemma UnitFractions(c: Color)
    requires InGamut(c)
    ensures 0.0 <= c.red as real / 255.0 <= 1.0 && 0.0 <= c.green as real / 255.0 <= 1.0 && 0.0 <= c.blue as real / 255.0 <= 1.0
  {
  }

  lemma FractionRanges(red: real, green: real, blue: real)
    requires 0.0 <= red <= 1.0 && 0.0 <= green <= 1.0 && 0.0 <= blue <= 1.0
    ensures HslOfFractions(red, green, blue).Some?
    ensures InRanges(HslOfFractions(red, green, blue).value)
  {
    var minimum, maximum := Min3(red, green, blue), Max3(red, green, blue);
    var luminescence := Round2((minimum + maximum) / 2.0);
    Round2Unit((minimum + maximum) / 2.0);
    if minimum != maximum {
      var range := maximum - minimum;
      SaturationUnit(minimum, maximum, luminescence);
      FractionSector(red, green, blue);
    }
  }

  /** Both divisors exceed the spread of two distinct extremes in [0, 1]. */
  lemma SaturationUnit(minimum: real, maximum: real, luminescence: real)
    requires 0.0 <= minimum < maximum <= 1.0
    ensures var divisor := SaturationDivisor(minimum, maximum, luminescence);
      0.0 < (maximum - minimum) <= divisor && 0.0 <= (maximum - minimum) / divisor <= 1.0
  {
    QuotientUnit(maximum - minimum, SaturationDivisor(minimum, maximum, luminescence));
  }

  /**
   * The values formatColor() writes for channels in 0..255 lie in 0..360
   * for the hue and in 0..100 for saturation and lightness.
   */
  lemma FormatColorRanges(c: Color)
    requires InGamut(c)
    ensures FormatColor(c).Some?
    ensures var h := HslOf(c).value; var xs := HslRaw(h.hue, h.saturation, h.lightness, Alpha(c));
      FormatColor(c).value == HslText(h.hue, h.saturation, h.lightness, Alpha(c))
      && 0.0 <= xs[0] <= 360.0 && 0.0 <= xs[1] <= 100.0 && 0.0 <= xs[2] <= 100.0
  {
    HslOfRanges(c);
  }

  /** Within 60 degrees of red (0) when red is largest, else of green (120) when green is, else of blue (240). */
  predicate InSector(hue: real, redLargest: bool, greenLargest: bool) {
    if redLargest then -60.0 <= hue <= 60.0
    else if greenLargest then 60.0 <= hue <= 180.0
    else 180.0 <= hue <= 300.0
  }

  /**
   * The hue formatColor() computes for a colour that is not grey is fixed
   * by its largest channel: within 60 degrees of red when red is largest,
   * of green (120) when green is, and otherwise of blue (240).
   */
  lemma HueSector(c: Color)
    requires InGamut(c) && !(c.red == c.green == c.blue)
    ensures HslOf(c).Some?
    ensures InSector(HslOf(c).value.hue, c.red >= c.blue && c.red >= c.green, c.green >= c.blue && c.green >= c.red)
  {
    var red, green, blue := c.red as real / 255.0, c.green as real / 255.0, c.blue as real / 255.0;
    ChannelFractions(c);
    FractionSector(red, green, blue);
  }

  /** The channels divided by 255 lie in [0, 1], in the channels' order, and not all equal. */
  lemma ChannelFractions(c: Color)
    requires InGamut(c) && !(c.red == c.green == c.blue)
    ensures var red, green, blue := c.red as real / 255.0, c.green as real / 255.0, c.blue as real / 255.0;
      0.0 <= red <= 1.0 && 0.0 <= green <= 1.0 && 0.0 <= blue <= 1.0 && !(red == green == blue)
      && (c.red >= c.blue <==> red >= blue) && (c.red >= c.green <==> red >= green)
      && (c.green >= c.blue <==> green >= blue) && (c.green >= c.red <==> green >= red)
  {
    FractionOrder(c.red, c.green);
    FractionOrder(c.red, c.blue);
    FractionOrder(c.green, c.red);
    FractionOrder(c.green, c.blue);
    FractionOrder(c.blue, c.red);
    FractionOrder(c.blue, c.green);
  }

  /** Dividing by 255 keeps the order of two channels. */
  lemma FractionOrder(a: int, b: int)
    ensures a <= b <==> a as real / 255.0 <= b as real / 255.0
  {
  }

  lemma FractionSector(red: real, green: real, blue: real)
    requires 0.0 <= red <= 1.0 && 0.0 <= green <= 1.0 && 0.0 <= blue <= 1.0
    requires !(red == green == blue)
    ensures HslOfFractions(red, green, blue).Some?
    ensures InSector(HslOfFractions(red, green, blue).value.hue, red >= blue && red >= green, green >= blue && green >= red)
  {
    var minimum, maximum := Min3(red, green, blue), Max3(red, green, blue);
    var range := maximum - minimum;
    SaturationUnit(minimum, maximum, Round2((minimum + maximum) / 2.0));
    if red >= blue && red >= green {
      QuotientUnit(green - blue, range);
    } else if green >= blue && green >= red {
      QuotientUnit(blue - red, range);
    } else {
      QuotientUnit(red - green, range);
    }
  }

  /** Pure red is hue 0, full saturation, lightness one half. */
  lemma FormatRed()
    ensures HslOf(Plain(255, 0, 0, 100)) == Some(Hsl(0.0, 1.0, 0.5))
    ensures FormatColor(Plain(255, 0, 0, 100)) == Some(HslText(0.0, 1.0, 0.5, 1.0))
  {
    assert Round2(0.5) == 0.5;
  }

  /** Pure blue is hue 240. */
  lemma FormatBlue()
    ensures HslOf(Plain(0, 0, 255, 100)) == Some(Hsl(240.0, 1.0, 0.5))
  {
    assert Round2(0.5) == 0.5;
  }

  /**
   * A light red, lightness 0.75: the divisor 2 - (max - min) gives
   * saturation 127/383 instead of the standard formula's 1.
   */
  lemma FormatLightRed()
    ensures HslOf(Plain(255, 128, 128, 100)) == Some(Hsl(0.0, 127.0 / 383.0, 0.75))
  {
    assert Round2((128.0 / 255.0 + 1.0) / 2.0) == 0.75;
  }

  /** The divisor of the standard formula: max + min below lightness 0.5, 2 - max - min from there on. */
  function StandardDivisor(minimum: real, maximum: real, luminescence: real): real {
    if luminescence < 0.5 then maximum + minimum else 2.0 - maximum - minimum
  }

  /**
   * From lightness 0.5 on the code's divisor 2 - (max - min) agrees with the
   * standard 2 - max - min only when the smallest channel is 0.
   */
  lemma SaturationDivisorQuirk(minimum: real, maximum: real, luminescence: real)
    ensures SaturationDivisor(minimum, maximum, luminescence) == StandardDivisor(minimum, maximum, luminescence)
      <==> luminescence < 0.5 || minimum == 0.0
  {
  }

  // ---------------------------------------------------------------------
  // Examples.

  /** How a call "name(a,b,c)" written with bare commas splits and reads. */
  lemma ReadThree(s: string, name: string, a: string, b: string, d: string, va: real, vb: real, vd: real)
    requires s == name + "(" + a + "," + b + "," + d + ")"
    requires ToLower(name) == name && Lacks(name, '(') && Lacks(name, ')')
    requires Argument(a, va) && Argument(b, vb) && Argument(d, vd)
    ensures ParseCssColorFunction(s) == Some(CssFunction(name, [a, b, d]))
    ensures ParseAll([a, b, d]) == Some([va, vb, vd])
  {
    SplitThree(s, name, a, b, d);
    ReadAllThree(a, b, d, va, vb, vd);
  }

  lemma ReadAllThree(a: string, b: string, d: string, va: real, vb: real, vd: real)
    requires ParseNumeral(a) == Some(va) && ParseNumeral(b) == Some(vb) && ParseNumeral(d) == Some(vd)
    ensures ParseAll([a, b, d]) == Some([va, vb, vd])
  {
    var args, vs := [a, b, d], [va, vb, vd];
    assert args[0] == a && args[1] == b && args[2] == d;
    assert vs[0] == va && vs[1] == vb && vs[2] == vd;
    ParseAllEach(args, vs);
  }

  /** How a call "name(a,b,c)" splits when a, b and c have no comma and no brace. */
  lemma SplitThree(s: string, name: string, a: string, b: string, d: string)
    requires s == name + "(" + a + "," + b + "," + d + ")"
    requires ToLower(name) == name && Lacks(name, '(') && Lacks(name, ')')
    requires Lacks(a, ',') && Lacks(a, '(') && Lacks(a, ')') && Lacks(b, ',') && Lacks(b, '(') && Lacks(b, ')')
    requires Lacks(d, ',') && Lacks(d, '(') && Lacks(d, ')')
    ensures ParseCssColorFunction(s) == Some(CssFunction(name, [a, b, d]))
  {
    var args := [a, b, d];
    JoinThree(name, a, b, d);
    assert args[0] == a && args[1] == b && args[2] == d;
    ParseCommaCall(name, args);
  }

  /** How a call "name(a,b)" splits when a and b have no comma and no brace. */
  lemma SplitTwo(s: string, name: string, a: string, b: string)
    requires s == name + "(" + a + "," + b + ")"
    requires ToLower(name) == name && Lacks(name, '(') && Lacks(name, ')')
    requires Lacks(a, ',') && Lacks(a, '(') && Lacks(a, ')') && Lacks(b, ',') && Lacks(b, '(') && Lacks(b, ')')
    ensures ParseCssColorFunction(s) == Some(CssFunction(name, [a, b]))
  {
    var args := [a, b];
    JoinTwo(name, a, b);
    assert args[0] == a && args[1] == b;
    ParseCommaCall(name, args);
  }

  lemma JoinTwo(name: string, a: string, b: string)
    ensures name + "(" + a + "," + b + ")" == name + "(" + Join(",", [a, b]) + ")"
  {
    assert [a, b][1..] == [b];
    assert Join(",", [a, b]) == a + "," + b;
  }

  lemma JoinThree(name: string, a: string, b: string, d: string)
    ensures name + "(" + a + "," + b + "," + d + ")" == name + "(" + Join(",", [a, b, d]) + ")"
  {
    assert [a, b, d][1..] == [b, d] && [b, d][1..] == [d];
    assert Join(",", [b, d]) == b + "," + d;
    assert Join(",", [a, b, d]) == a + "," + (b + "," + d);
  }

  /** The two names hsl() and hsla() are lower case and free of braces. */
  lemma HslNames()
    ensures ToLower("hsl") == "hsl" && Lacks("hsl", '(') && Lacks("hsl", ')')
    ensures ToLower("hsla") == "hsla" && Lacks("hsla", '(') && Lacks("hsla", ')')
  {
    assert ToLower("hsl") == [LowerChar('h')] + ToLower("sl");
    assert ToLower("hsla") == [LowerChar('h')] + ToLower("sla");
  }

  /** An argument text that splits cleanly and reads as v. */
  predicate Argument(a: string, v: real) {
    Lacks(a, ',') && Lacks(a, '(') && Lacks(a, ')') && ParseNumeral(a) == Some(v)
  }

  /** "hsl(a,b,c)" with three numerals reads as their three values. */
  lemma BuildThree(s: string, a: string, b: string, d: string, va: real, vb: real, vd: real)
    requires s == "hsl" + "(" + a + "," + b + "," + d + ")"
    requires Argument(a, va) && Argument(b, vb) && Argument(d, vd)
    ensures BuildColor(s) == FromValues("hsl", 3, Some([va, vb, vd]))
  {
    HslNames();
    ReadThree(s, "hsl", a, b, d, va, vb, vd);
  }

  /** hsl() of three values: saturation and lightness divided by 100, alpha 1. */
  lemma HslValues(v: seq<real>)
    requires |v| == 3
    ensures FromValues("hsl", 3, Some(v)) == Some(ColorFromHsl(v[0], v[1] / 100.0, v[2] / 100.0, 1.0))
  {
  }

  /** hsla() of four values: saturation, lightness and alpha all divided by 100. */
  lemma HslaValues(v: seq<real>)
    requires |v| == 4
    ensures FromValues("hsla", 4, Some(v)) == Some(ColorFromHsl(v[0], v[1] / 100.0, v[2] / 100.0, v[3] / 100.0))
  {
  }

  /** The whole-number arguments of the test table. */
  lemma WholeArguments()
    ensures Argument("0", 0.0) && Argument("25", 25.0) && Argument("50", 50.0)
    ensures Argument("60", 60.0) && Argument("100", 100.0) && Argument("120", 120.0) && Argument("300", 300.0)
  {
    SmallArguments();
    LargeArguments();
  }

  lemma SmallArguments()
    ensures Argument("0", 0.0) && Argument("25", 25.0) && Argument("50", 50.0) && Argument("60", 60.0)
  {
    assert IntToString(0) == "0" && IntToString(25) == "25" && IntToString(50) == "50" && IntToString(60) == "60";
    ParseIntToString(0);
    ParseIntToString(25);
    ParseIntToString(50);
    ParseIntToString(60);
  }

  lemma LargeArguments()
    ensures Argument("100", 100.0) && Argument("120", 120.0) && Argument("300", 300.0)
  {
    assert IntToString(100) == "100" && IntToString(120) == "120" && IntToString(300) == "300";
    ParseIntToString(100);
    ParseIntToString(120);
    ParseIntToString(300);
  }

  /** hsl(0,0,50) is the grey 128: saturation 0 gives round(0.5 * 255) in every channel. */
  lemma GreyExample(s: string)
    requires s == "hsl(0,0,50)"
    ensures BuildColor(s) == Some(Plain(128, 128, 128, 100))
  {
    assert s == "hsl" + "(" + "0" + "," + "0" + "," + "50" + ")";
    WholeArguments();
    BuildThree(s, "0", "0", "50", 0.0, 0.0, 50.0);
    HslValues([0.0, 0.0, 50.0]);
    assert ColorFromHsl(0.0, 0.0, 0.5, 1.0) == Plain(128, 128, 128, 100);
  }

  /** hsl(0,0,100) is white. */
  lemma WhiteExample(s: string)
    requires s == "hsl(0,0,100)"
    ensures BuildColor(s) == Some(Plain(255, 255, 255, 100))
  {
    assert s == "hsl" + "(" + "0" + "," + "0" + "," + "100" + ")";
    WholeArguments();
    BuildThree(s, "0", "0", "100", 0.0, 0.0, 100.0);
    HslValues([0.0, 0.0, 100.0]);
    assert ColorFromHsl(0.0, 0.0, 1.0, 1.0) == Plain(255, 255, 255, 100);
  }

  lemma RedConversion()
    ensures ColorFromHsl(0.0, 1.0, 0.5, 1.0) == Plain(255, 0, 0, 100)
  {
  }

  /** hsl(0,100,50) is pure red. */
  lemma RedExample(s: string)
    requires s == "hsl(0,100,50)"
    ensures BuildColor(s) == Some(Plain(255, 0, 0, 100))
  {
    assert s == "hsl" + "(" + "0" + "," + "100" + "," + "50" + ")";
    WholeArguments();
    BuildThree(s, "0", "100", "50", 0.0, 100.0, 50.0);
    HslValues([0.0, 100.0, 50.0]);
    RedConversion();
  }

  lemma GreenConversion()
    ensures ColorFromHsl(120.0, 1.0, 0.25, 1.0) == Plain(0, 128, 0, 100)
  {
  }

  /** hsl(120,100,25) is the green (0, 128, 0): at 120 the modifier stays at 2. */
  lemma GreenExample(s: string)
    requires s == "hsl(120,100,25)"
    ensures BuildColor(s) == Some(Plain(0, 128, 0, 100))
  {
    assert s == "hsl" + "(" + "120" + "," + "100" + "," + "25" + ")";
    WholeArguments();
    BuildThree(s, "120", "100", "25", 120.0, 100.0, 25.0);
    HslValues([120.0, 100.0, 25.0]);
    GreenConversion();
  }

  lemma PurpleConversion()
    ensures ColorFromHsl(300.0, 0.5, 0.5, 1.0) == Plain(191, 64, 191, 100)
  {
  }

  /** hsl(300,50,50) is (191, 64, 191): the modifier is brought down from 5 to 1. */
  lemma PurpleExample(s: string)
    requires s == "hsl(300,50,50)"
    ensures BuildColor(s) == Some(Plain(191, 64, 191, 100))
  {
    assert s == "hsl" + "(" + "300" + "," + "50" + "," + "50" + ")";
    WholeArguments();
    BuildThree(s, "300", "50", "50", 300.0, 50.0, 50.0);
    HslValues([300.0, 50.0, 50.0]);
    PurpleConversion();
  }

  /** The test row hsla(248.3,60.1,37.3, 47.1), once its arguments are read: (54, 38, 152) at alpha 0.47. */
  lemma TranslucentRowValues()
    ensures FromValues("hsla", 4, Some([248.3, 60.1, 37.3, 47.1])) == Some(Plain(54, 38, 152, 47))
  {
    HslaValues([248.3, 60.1, 37.3, 47.1]);
    TranslucentConversion();
  }

  lemma TranslucentConversion()
    ensures ColorFromHsl(248.3, 0.601, 0.373, 0.471) == Plain(54, 38, 152, 47)
  {
  }

  // The rejected inputs of the test table.

  /** "hsl(20, 20)" has two arguments, so it is no colour. */
  lemma TwoArgumentsRejected(s: string)
    requires s == "hsl(20, 20)"
    ensures BuildColor(s) == None
  {
    assert s == "hsl" + "(" + "20" + "," + " 20" + ")";
    HslNames();
    SplitTwo(s, "hsl", "20", " 20");
  }

  /** "hsla(50, 50, 50)" has three arguments, so it is no colour. */
  lemma ThreeArgumentsRejected(s: string)
    requires s == "hsla(50, 50, 50)"
    ensures BuildColor(s) == None
  {
    assert s == "hsla" + "(" + "50" + "," + " 50" + "," + " 50" + ")";
    HslNames();
    SplitThree(s, "hsla", "50", " 50", " 50");
  }

  /** "000000" is not a function call. */
  lemma NoCallRejected(s: string)
    requires s == "000000"
    ensures BuildColor(s) == None
  {
    assert Lacks(s, '(');
  }

  /** "rgb(0, 0, 0)" is a call, but not to hsl() or hsla(). */
  lemma RgbCallRejected(s: string)
    requires s == "rgb(0, 0, 0)"
    ensures BuildColor(s) == None
  {
    assert s == "rgb" + "(" + "0" + "," + " 0" + "," + " 0" + ")";
    assert ToLower("rgb") == [LowerChar('r')] + ToLower("gb");
    SplitThree(s, "rgb", "0", " 0", " 0");
  }
}
