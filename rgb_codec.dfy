/** rgb() and rgba() colour functions (RgbProcessor.php). */
module RgbCodec {
  import opened Wrappers
  import opened PhpStrings
  import opened PhpNumbers
  import opened Colors
  import opened CssFunctions

  /**
   * buildColor(): "rgb" with exactly three arguments, or "rgba" with exactly
   * four, whose fourth is multiplied by 255 and rounded and then passed on
   * as alpha without being scaled back. Anything else is None.
   */
  function BuildColor(s: string): (r: Option<Color>)
    ensures r.Some? ==> ParseCssColorFunction(s).Some? && Accepted(ParseCssColorFunction(s).value)
    ensures r.Some? ==> r.value.Plain?
  {
    match ParseCssColorFunction(s)
    case None => None
    case Some(f) => BuildFromCall(f)
  }

  /** The name and argument count buildColor() accepts. */
  predicate Accepted(f: CssFunction) {
    (f.name == "rgb" && |f.arguments| == 3) || (f.name == "rgba" && |f.arguments| == 4)
  }

  /** The switch on the function name, once the call is split. */
  function BuildFromCall(f: CssFunction): (r: Option<Color>)
    ensures r.Some? ==> Accepted(f) && r.value.Plain?
    ensures r.Some? <==> Accepted(f) && ParseAll(f.arguments).Some?
  {
    FromValues(f.name, |f.arguments|, ParseAll(f.arguments))
  }

  /**
   * The switch on the name and the number of arguments, given what the
   * arguments read as.
   */
  function FromValues(name: string, count: nat, values: Option<seq<real>>): (r: Option<Color>)
    requires values.Some? ==> |values.value| == count
    ensures r.Some? <==> ((name == "rgb" && count == 3) || (name == "rgba" && count == 4)) && values.Some?
    ensures r.Some? ==> r.value.Plain?
  {
    if name == "rgb" then
      if count != 3 then None
      else
        match values
        case None => None
        case Some(v) => Some(RgbColor(v))
    else if name == "rgba" then
      if count != 4 then None
      else
        match values
        case None => None
        case Some(v) => Some(RgbaColor(v))
    else None
  }

  /** new Color(r, g, b): alpha 1. */
  function RgbColor(v: seq<real>): (c: Color)
    requires |v| == 3
    ensures c == Plain(Round(v[0]), Round(v[1]), Round(v[2]), 100)
  {
    RoundInt(100);
    NewColor(v[0], v[1], v[2])
  }

  /** new Color(r, g, b, round(a * 255)): alpha is the rounded product itself. */
  function RgbaColor(v: seq<real>): (c: Color)
    requires |v| == 4
    ensures c == Plain(Round(v[0]), Round(v[1]), Round(v[2]), 100 * Round(v[3] * 255.0))
  {
    RgbaAlphaCents(Round(v[3] * 255.0));
    NewColor(v[0], v[1], v[2], Round(v[3] * 255.0) as real)
  }

  /**
   * The argument texts formatColor() writes: the channels, then round(alpha, 2)
   * when alpha < 1. A stored alpha is already a whole number of hundredths, so
   * round(alpha, 2) is written as those hundredths (RoundStoredAlpha).
   */
  function FormatArguments(c: Color): seq<string> {
    if Translucent(c) then [IntToString(c.red), IntToString(c.green), IntToString(c.blue), CentsToString(c.alphaCents)]
    else [IntToString(c.red), IntToString(c.green), IntToString(c.blue)]
  }

  /** formatColor(): rgba(r, g, b, a) when alpha < 1, otherwise rgb(r, g, b). */
  function FormatColor(c: Color): (s: string)
    ensures |s| >= 5 && s[..3] == "rgb"
    ensures Translucent(c) <==> s[3] == 'a'
  {
    var name := if Translucent(c) then "rgba" else "rgb";
    var s := FormatColorFunction(name, FormatArguments(c));
    assert s[..3] == s[..|name|][..3];
    assert s[3] == (if Translucent(c) then s[..|name|][3] else s[|name|]);
    s
  }

  // ---------------------------------------------------------------------
  // Properties.

  /** round(alpha, 2) of a stored alpha changes nothing. */
  lemma RoundStoredAlpha(c: Color)
    ensures RoundCents(Alpha(c)) == c.alphaCents
  {
    assert Alpha(c) * 100.0 == c.alphaCents as real;
    RoundInt(c.alphaCents);
  }

  /** rgb(x, y, z) is the colour (round x, round y, round z) with alpha 1. */
  lemma RgbChannels(v: seq<real>)
    requires |v| == 3
    ensures FromValues("rgb", 3, Some(v)) == Some(Plain(Round(v[0]), Round(v[1]), Round(v[2]), 100))
  {
  }

  /**
   * rgba(x, y, z, a) keeps round(a * 255) as the alpha value itself: its
   * hundredths are 100 times that.
   */
  lemma RgbaAlphaNotScaled(v: seq<real>)
    requires |v| == 4
    ensures FromValues("rgba", 4, Some(v)) == Some(Plain(Round(v[0]), Round(v[1]), Round(v[2]), 100 * Round(v[3] * 255.0)))
  {
  }

  /** An integer alpha k is stored as 100 k hundredths. */
  lemma RgbaAlphaCents(k: int)
    ensures RoundCents(k as real) == 100 * k
  {
    assert k as real * 100.0 == (100 * k) as real;
    RoundInt(100 * k);
  }

  /** The name formatColor() writes. */
  function FormatName(c: Color): string {
    if Translucent(c) then "rgba" else "rgb"
  }

  /** A written colour splits into its name and its argument texts, spaces kept. */
  lemma SplitFormatted(c: Color)
    ensures ParseCssColorFunction(FormatColor(c)) == Some(CssFunction(FormatName(c), PadTail(" ", FormatArguments(c))))
  {
    ArgumentsLackBraces(c);
    NameOfFormat(c);
    ParseFormat(FormatName(c), FormatArguments(c));
  }

  lemma ArgumentsLackBraces(c: Color)
    ensures var args := FormatArguments(c);
      forall k :: 0 <= k < |args| ==> Lacks(args[k], ',') && Lacks(args[k], '(') && Lacks(args[k], ')')
  {
    var args := FormatArguments(c);
    forall k | 0 <= k < |args| ensures Lacks(args[k], ',') && Lacks(args[k], '(') && Lacks(args[k], ')') {
      NumeralLacksBraces(args[k]);
    }
  }

  /** The name written is lower-case and has no brace. */
  lemma NameOfFormat(c: Color)
    ensures var name := FormatName(c);
      ToLower(name) == name && Lacks(name, '(') && Lacks(name, ')')
  {
    assert ToLower("rgb") == "rgb";
    assert ToLower("rgba") == "rgba";
  }

  /** The written argument texts read back as the channels and the stored alpha. */
  lemma ReadFormattedArguments(c: Color)
    ensures ParseAll(PadTail(" ", FormatArguments(c))) == Some(if Translucent(c)
      then [c.red as real, c.green as real, c.blue as real, Alpha(c)]
      else [c.red as real, c.green as real, c.blue as real])
  {
    if Translucent(c) {
      ReadTranslucentArguments(c);
    } else {
      ReadOpaqueArguments(c);
    }
  }

  lemma ReadOpaqueArguments(c: Color)
    requires !Translucent(c)
    ensures ParseAll(PadTail(" ", FormatArguments(c))) == Some([c.red as real, c.green as real, c.blue as real])
  {
    var args := FormatArguments(c);
    var vs := [c.red as real, c.green as real, c.blue as real];
    forall k | 0 <= k < |args|
      ensures ParseNumeral(args[k]) == Some(vs[k])
    {
      if k == 0 {
        ParseIntToString(c.red);
      } else if k == 1 {
        ParseIntToString(c.green);
      } else {
        ParseIntToString(c.blue);
      }
    }
    ReadPadded(args, vs);
  }

  lemma ReadTranslucentArguments(c: Color)
    requires Translucent(c)
    ensures ParseAll(PadTail(" ", FormatArguments(c))) == Some([c.red as real, c.green as real, c.blue as real, Alpha(c)])
  {
    var args := FormatArguments(c);
    var vs := [c.red as real, c.green as real, c.blue as real, Alpha(c)];
    forall k | 0 <= k < |args|
      ensures ParseNumeral(args[k]) == Some(vs[k])
    {
      if k == 0 {
        ParseIntToString(c.red);
      } else if k == 1 {
        ParseIntToString(c.green);
      } else if k == 2 {
        ParseIntToString(c.blue);
      } else {
        AlphaReads(c);
      }
    }
    ReadPadded(args, vs);
  }

  /** The written alpha reads back as alpha(). */
  lemma AlphaReads(c: Color)
    ensures ParseNumeral(CentsToString(c.alphaCents)) == Some(Alpha(c))
  {
    var k := c.alphaCents;
    ParseCentsToString(k);
    assert Alpha(c) == k as real / 100.0;
  }

  /**
   * Whatever a written colour says, reading it back gives the same channels;
   * alpha comes back as round(a * 255) for a translucent colour (the scale
   * is lost) and as 1 for an opaque one.
   */
  lemma ParseOfFormat(c: Color)
    ensures BuildColor(FormatColor(c)) == Some(Plain(c.red, c.green, c.blue,
      if Translucent(c) then 100 * Round(Alpha(c) * 255.0) else 100))
  {
    SplitFormatted(c);
    BuildWritten(c);
  }

  /** The switch on the name, applied to the call a written colour splits into. */
  lemma BuildWritten(c: Color)
    ensures BuildFromCall(CssFunction(FormatName(c), PadTail(" ", FormatArguments(c)))) == Some(Plain(c.red, c.green, c.blue,
      if Translucent(c) then 100 * Round(Alpha(c) * 255.0) else 100))
  {
    if Translucent(c) {
      BuildWrittenRgba(c);
      RgbaInts(c.red, c.green, c.blue, Alpha(c));
    } else {
      BuildWrittenRgb(c);
      RgbInts(c.red, c.green, c.blue);
    }
  }

  lemma BuildWrittenRgba(c: Color)
    requires Translucent(c)
    ensures BuildFromCall(CssFunction("rgba", PadTail(" ", FormatArguments(c))))
      == FromValues("rgba", 4, Some([c.red as real, c.green as real, c.blue as real, Alpha(c)]))
  {
    ReadTranslucentArguments(c);
  }

  /** rgba() of three integer channels keeps them as they are. */
  lemma RgbaInts(r: int, g: int, b: int, a: real)
    ensures FromValues("rgba", 4, Some([r as real, g as real, b as real, a])) == Some(Plain(r, g, b, 100 * Round(a * 255.0)))
  {
    RgbaAlphaNotScaled([r as real, g as real, b as real, a]);
    RoundInt(r);
    RoundInt(g);
    RoundInt(b);
  }

  lemma BuildWrittenRgb(c: Color)
    requires !Translucent(c)
    ensures BuildFromCall(CssFunction("rgb", PadTail(" ", FormatArguments(c))))
      == FromValues("rgb", 3, Some([c.red as real, c.green as real, c.blue as real]))
  {
    ReadOpaqueArguments(c);
  }

  /** rgb() of three integer channels keeps them as they are. */
  lemma RgbInts(r: int, g: int, b: int)
    ensures FromValues("rgb", 3, Some([r as real, g as real, b as real])) == Some(Plain(r, g, b, 100))
  {
    RgbChannels([r as real, g as real, b as real]);
    RoundInt(r);
    RoundInt(g);
    RoundInt(b);
  }

  /** For integers r, g, b, formatting the colour read from "rgb(r, g, b)" gives that text back. */
  lemma FormatOfParse(r: int, g: int, b: int)
    ensures var s := FormatColorFunction("rgb", [IntToString(r), IntToString(g), IntToString(b)]);
      BuildColor(s).Some? && FormatColor(BuildColor(s).value) == s
  {
    ParseOfFormat(Plain(r, g, b, 100));
  }

  /**
   * A colour with alpha 0.75 is written with the argument "0.75" and reads
   * back with alpha 191: the 0.75 is multiplied by 255 and kept.
   */
  lemma RgbaExample(red: int, green: int, blue: int)
    ensures BuildColor(FormatColor(Plain(red, green, blue, 75))) == Some(Plain(red, green, blue, 19100))
  {
    var c := Plain(red, green, blue, 75);
    assert Round(Alpha(c) * 255.0) == 191 by {
      assert Alpha(c) * 255.0 == 191.25;
    }
    ParseOfFormat(c);
  }

  /** The function name is read without regard to case. */
  lemma BuildCaseInsensitive(a: string, b: string, t: string)
    requires ToLower(a) == ToLower(b)
    requires Lacks(a, '(') && Lacks(a, ')') && Lacks(b, '(') && Lacks(b, ')')
    requires |t| >= 1 && t[0] == '('
    ensures BuildColor(a + t) == BuildColor(b + t)
  {
    ParseCaseInsensitive(a, b, t);
  }

  /** Any other function name gives no colour. */
  lemma OtherNamesRejected(s: string)
    requires ParseCssColorFunction(s).Some?
    requires ParseCssColorFunction(s).value.name !in {"rgb", "rgba"}
    ensures BuildColor(s) == None
  {
  }
}
