/**
 * Hex colour notation (HexProcessor.php): an optional '#' and 2, 3, 6 or 8
 * hex digits, after section 5.2 of CSS Color Module Level 4 plus a
 * two-digit grey form; and the way back to "#RRGGBB" / "#RRGGBBAA".
 */
module HexCodec {
  import opened Wrappers
  import opened PhpStrings
  import opened PhpNumbers
  import opened Colors

  predicate IsHexDigit(c: char) {
    '0' <= c <= '9' || 'a' <= c <= 'f' || 'A' <= c <= 'F'
  }

  function HexDigitValue(c: char): (d: nat)
    requires IsHexDigit(c)
    ensures d < 16
  {
    if '0' <= c <= '9' then c as int - '0' as int
    else if 'a' <= c <= 'f' then c as int - 'a' as int + 10
    else c as int - 'A' as int + 10
  }

  predicate AllHex(s: string) {
    forall i :: 0 <= i < |s| ==> IsHexDigit(s[i])
  }

  /** hexdec(): the hex digits of `s` read in order; any other character is skipped. */
  function HexDec(s: string): (v: nat)
    ensures v < Pow16(|s|)
  {
    if s == [] then 0
    else
      var prefix := s[..|s| - 1];
      var high := HexDec(prefix);
      assert (high + 1) * 16 <= Pow16(|prefix|) * 16;
      if IsHexDigit(s[|s| - 1]) then high * 16 + HexDigitValue(s[|s| - 1])
      else high
  }

  /** 16 to the power k: one more than the largest value k hex digits can hold. */
  function Pow16(k: nat): (p: nat)
    ensures p >= 1
  {
    if k == 0 then 1 else 16 * Pow16(k - 1)
  }

  // ---------------------------------------------------------------------
  // Reading.

  /** The text after a leading '#', if there is one. */
  function HexBody(s: string): (t: string)
    ensures |t| == |s| || |t| == |s| - 1
  {
    if |s| > 0 && s[0] == '#' then s[1..] else s
  }

  /**
   * The pattern `^#{0,1}[0-9A-F]{2,8}$`, case-insensitive, read with `$`
   * meaning the end of the text: at most one '#', then 2 to 8 hex digits.
   */
  predicate MatchesHexPattern(s: string) {
    2 <= |HexBody(s)| <= 8 && AllHex(HexBody(s))
  }

  /**
   * The same pattern as PCRE applies it: without the D modifier `$` also
   * matches just before a final newline.
   */
  predicate MatchesAsWritten(s: string) {
    MatchesHexPattern(s) || (|s| > 0 && s[|s| - 1] == '\n' && MatchesHexPattern(s[..|s| - 1]))
  }

  /** ltrim(s, '#'): every leading '#' removed. */
  function LTrimHash(s: string): (r: string)
    ensures |r| <= |s|
    ensures r == [] || r[0] != '#'
  {
    if |s| > 0 && s[0] == '#' then LTrimHash(s[1..]) else s
  }

  /**
   * buildColorFromHex(red, green, blue, alpha = "FF"): the channels are the
   * hexdec() values, alpha is hexdec(alpha) / 255 rounded to hundredths.
   */
  function BuildColorFromHex(red: string, green: string, blue: string, alpha: string := "FF"): (c: Color)
    ensures c.Plain? && c.red == HexDec(red) && c.green == HexDec(green) && c.blue == HexDec(blue)
    ensures c.alphaCents == Round(HexDec(alpha) as real * 100.0 / 255.0)
  {
    NewColor(HexDec(red) as real, HexDec(green) as real, HexDec(blue) as real, HexDec(alpha) as real / 255.0)
  }

  /** The switch on the number of digits. */
  function FromDigits(t: string): (r: Option<Color>)
    ensures r.Some? <==> |t| in {2, 3, 6, 8}
  {
    if |t| == 2 then Some(BuildColorFromHex(t, t, t))
    else if |t| == 3 then Some(BuildColorFromHex([t[0], t[0]], [t[1], t[1]], [t[2], t[2]]))
    else if |t| == 6 then Some(BuildColorFromHex(t[0..2], t[2..4], t[4..6]))
    else if |t| == 8 then Some(BuildColorFromHex(t[0..2], t[2..4], t[4..6], t[6..8]))
    else None
  }

  /**
   * buildColor() with the pattern anchored at the very end of the text:
   * a colour exactly for an optional '#' and 2, 3, 6 or 8 hex digits, with
   * channels in 0..255 and alpha in 0..1.
   */
  function BuildColor(s: string): (r: Option<Color>)
    ensures r.Some? <==> MatchesHexPattern(s) && |HexBody(s)| in {2, 3, 6, 8}
    ensures r.Some? ==> r.value.Plain? && InGamut(r.value)
  {
    if !MatchesHexPattern(s) then None
    else
      LTrimHashBody(s);
      FromDigitsInGamut(HexBody(s));
      FromDigits(LTrimHash(s))
  }

  /** buildColor() as written: the same, but a final newline passes the pattern. */
  function BuildColorAsWritten(s: string): (r: Option<Color>)
    ensures MatchesHexPattern(s) ==> r == BuildColor(s)
  {
    if !MatchesAsWritten(s) then None else FromDigits(LTrimHash(s))
  }

  // ---------------------------------------------------------------------
  // Writing.

  function HexChar(d: nat): (c: char)
    requires d < 16
    ensures IsHexDigit(c) && HexDigitValue(c) == d
  {
    if d < 10 then ('0' as int + d) as char else ('a' as int + d - 10) as char
  }

  /** The lower-case hex digits of n, no leading zero. */
  function NatToHex(n: nat): (s: string)
    ensures |s| >= 1 && AllHex(s)
    ensures HexDec(s) == n
  {
    if n < 16 then
      assert [HexChar(n)][..0] == [];
      [HexChar(n)]
    else
      var s := NatToHex(n / 16) + [HexChar(n % 16)];
      assert s[..|s| - 1] == NatToHex(n / 16);
      s
  }

  const TwoTo64: int := 0x1_0000_0000_0000_0000

  /** dechex(): a negative integer is written as its unsigned 64-bit form. */
  function DecHex(n: int): (s: string)
    ensures |s| >= 1 && AllHex(s)
    ensures 0 <= n < TwoTo64 ==> HexDec(s) == n
    ensures -TwoTo64 <= n < 0 ==> HexDec(s) == n + TwoTo64
  {
    NatToHex(n % TwoTo64)
  }

  /** str_pad(s, 2, '0', STR_PAD_LEFT). */
  function PadLeft2(s: string): (r: string)
    ensures |r| == if |s| >= 2 then |s| else 2
  {
    if |s| == 0 then "00" else if |s| == 1 then "0" + s else s
  }

  /** One channel as written: two digits for 0..255, more for larger values. */
  function HexField(v: int): string {
    PadLeft2(DecHex(v))
  }

  /** (int) round(alpha * 255). */
  function AlphaByte(c: Color): int {
    Round(Alpha(c) * 255.0)
  }

  /**
   * formatColor(): '#', two digits per channel, the alpha byte only when
   * alpha < 1, all upper-cased.
   */
  function FormatColor(c: Color): (s: string)
    ensures |s| >= 7 && s[0] == '#'
  {
    ToUpper("#" + FieldsText(c))
  }

  /** The digits after the '#', before upper-casing. */
  function FieldsText(c: Color): string {
    HexField(c.red) + HexField(c.green) + HexField(c.blue) + (if Translucent(c) then HexField(AlphaByte(c)) else "")
  }

  // ---------------------------------------------------------------------
  // Properties of reading.

  lemma LTrimHashBody(s: string)
    requires MatchesHexPattern(s)
    ensures LTrimHash(s) == HexBody(s)
  {
    var t := HexBody(s);
    assert t[0] != '#';
    if |s| > 0 && s[0] == '#' {
      assert LTrimHash(s) == LTrimHash(s[1..]);
    }
  }

  lemma HexDecOne(a: char)
    requires IsHexDigit(a)
    ensures HexDec([a]) == HexDigitValue(a)
  {
    assert [a][..0] == [];
  }

  /** Two hex digits read as 16 a + b. */
  lemma HexDecTwo(a: char, b: char)
    requires IsHexDigit(a) && IsHexDigit(b)
    ensures HexDec([a, b]) == 16 * HexDigitValue(a) + HexDigitValue(b)
    ensures HexDec([a, b]) < 256
  {
    assert [a, b][..1] == [a];
    HexDecOne(a);
  }

  lemma HexDecPair(t: string)
    requires |t| == 2 && AllHex(t)
    ensures HexDec(t) == 16 * HexDigitValue(t[0]) + HexDigitValue(t[1])
    ensures HexDec(t) < 256
  {
    assert t == [t[0], t[1]];
    HexDecTwo(t[0], t[1]);
  }

  /** An alpha byte 0..255 becomes 0..100 hundredths. */
  lemma AlphaCentsRange(v: nat)
    requires v < 256
    ensures 0 <= Round(v as real * 100.0 / 255.0) <= 100
  {
    RoundMonotone(0.0, v as real * 100.0 / 255.0);
    RoundMonotone(v as real * 100.0 / 255.0, 100.0);
    RoundInt(0);
    RoundInt(100);
  }

  /** hexdec("FF") / 255 is exactly 1. */
  lemma OpaqueAlpha()
    ensures HexDec("FF") == 255
    ensures Round(HexDec("FF") as real * 100.0 / 255.0) == 100
  {
    HexDecTwo('F', 'F');
    assert "FF" == ['F', 'F'];
    RoundInt(100);
  }

  lemma FromDigitsInGamut(t: string)
    requires AllHex(t)
    ensures FromDigits(t).Some? ==> FromDigits(t).value.Plain? && InGamut(FromDigits(t).value)
  {
    OpaqueAlpha();
    if |t| == 2 {
      HexDecPair(t);
    } else if |t| == 3 {
      HexDecTwo(t[0], t[0]);
      HexDecTwo(t[1], t[1]);
      HexDecTwo(t[2], t[2]);
    } else if |t| == 6 || |t| == 8 {
      HexDecPair(t[0..2]);
      HexDecPair(t[2..4]);
      HexDecPair(t[4..6]);
      if |t| == 8 {
        HexDecPair(t[6..8]);
        AlphaCentsRange(HexDec(t[6..8]));
      }
    }
  }

  /** Lengths 4, 5 and 7 pass the pattern but give no colour. */
  lemma OtherLengthsRejected(s: string)
    requires MatchesHexPattern(s) && |HexBody(s)| in {4, 5, 7}
    ensures BuildColor(s) == None
  {
  }

  /** The rejected inputs: "0000", "00000", "0000000", "0", "", "cdefgh", "abcde-". */
  lemma RejectedExamples()
    ensures BuildColor("0000") == None && BuildColor("00000") == None && BuildColor("0000000") == None
    ensures BuildColor("0") == None && BuildColor("") == None
    ensures BuildColor("cdefgh") == None && BuildColor("abcde-") == None
  {
    assert !IsHexDigit("cdefgh"[4]);
    assert !IsHexDigit("abcde-"[5]);
  }

  /** Two digits give a grey with each channel hexdec of them. */
  lemma TwoDigitsGrey(s: string)
    requires MatchesHexPattern(s) && |HexBody(s)| == 2
    ensures BuildColor(s) == Some(Plain(HexDec(HexBody(s)), HexDec(HexBody(s)), HexDec(HexBody(s)), 100))
  {
    LTrimHashBody(s);
    OpaqueAlpha();
  }

  /** Three digits: each digit doubled, so each channel is 17 times the digit. */
  lemma ThreeDigitsDoubled(s: string)
    requires MatchesHexPattern(s) && |HexBody(s)| == 3
    ensures var t := HexBody(s);
      BuildColor(s) == Some(Plain(17 * HexDigitValue(t[0]), 17 * HexDigitValue(t[1]), 17 * HexDigitValue(t[2]), 100))
  {
    var t := HexBody(s);
    LTrimHashBody(s);
    OpaqueAlpha();
    HexDecTwo(t[0], t[0]);
    HexDecTwo(t[1], t[1]);
    HexDecTwo(t[2], t[2]);
  }

  /**
   * Six and eight digits: two digits a field; alpha defaults to "FF", that
   * is 1, and otherwise is round(hexdec(aa) / 255, 2).
   */
  lemma FieldsOfDigits(s: string)
    requires MatchesHexPattern(s) && |HexBody(s)| in {6, 8}
    ensures var t := HexBody(s);
      BuildColor(s) == Some(Plain(HexDec(t[0..2]), HexDec(t[2..4]), HexDec(t[4..6]),
        if |t| == 8 then Round(HexDec(t[6..8]) as real * 100.0 / 255.0) else 100))
  {
    LTrimHashBody(s);
    OpaqueAlpha();
  }

  /** The test data: "#36" is the grey (54, 54, 54). */
  lemma GreyExample()
    ensures BuildColor("#36") == Some(Plain(54, 54, 54, 100))
  {
    TwoDigitsGrey("#36");
    assert HexBody("#36") == ['3', '6'];
    HexDecTwo('3', '6');
  }

  /** The test data: "#369" is (51, 102, 153). */
  lemma ThreeDigitExample()
    ensures BuildColor("#369") == Some(Plain(51, 102, 153, 100))
  {
    ThreeDigitsDoubled("#369");
    assert HexBody("#369") == "369";
  }

  /** The test data: "ff000066" is red with alpha 102 / 255 = 0.4. */
  lemma AlphaExample()
    ensures BuildColor("ff000066") == Some(Plain(255, 0, 0, 40))
  {
    var t := "ff000066";
    FieldsOfDigits(t);
    assert t[0..2] == ['f', 'f'] && t[2..4] == ['0', '0'] && t[4..6] == ['0', '0'] && t[6..8] == ['6', '6'];
    HexDecTwo('f', 'f');
    HexDecTwo('0', '0');
    HexDecTwo('6', '6');
    assert 102 as real * 100.0 / 255.0 == 40.0;
    RoundInt(40);
  }

  // ---------------------------------------------------------------------
  // Properties of writing.

  lemma HexDecUpper(s: string)
    ensures HexDec(ToUpper(s)) == HexDec(s)
    decreases |s|
  {
    if s != [] {
      var u := ToUpper(s);
      assert u[..|u| - 1] == ToUpper(s[..|s| - 1]);
      HexDecUpper(s[..|s| - 1]);
    }
  }

  lemma AllHexUpper(s: string)
    requires AllHex(s)
    ensures AllHex(ToUpper(s))
  {
  }

  /** The two digits of a channel 0..255. */
  lemma HexFieldDigits(v: int)
    requires 0 <= v < 256
    ensures HexField(v) == [HexChar(v / 16), HexChar(v % 16)]
  {
    assert v % TwoTo64 == v;
    if v >= 16 {
      assert NatToHex(v / 16) == [HexChar(v / 16)];
    }
  }

  /** A channel 0..255 is written as exactly two digits that read back as it. */
  lemma HexFieldByte(v: int)
    requires 0 <= v < 256
    ensures |HexField(v)| == 2 && AllHex(HexField(v)) && HexDec(HexField(v)) == v
  {
    HexFieldDigits(v);
    HexDecTwo(HexChar(v / 16), HexChar(v % 16));
  }

  lemma UpperHexChar(c: char)
    requires IsHexDigit(c)
    ensures UpperChar(HexChar(HexDigitValue(c))) == UpperChar(c)
  {
  }

  /** Two digits written back after reading: the same digits, upper-cased. */
  lemma HexFieldOfDigits(t: string)
    requires |t| == 2 && AllHex(t)
    ensures ToUpper(HexField(HexDec(t))) == ToUpper(t)
  {
    HexDecPair(t);
    var v := HexDec(t);
    HexFieldDigits(v);
    assert v / 16 == HexDigitValue(t[0]) && v % 16 == HexDigitValue(t[1]);
    UpperHexChar(t[0]);
    UpperHexChar(t[1]);
    var f := HexField(v);
    assert ToUpper(f) == [UpperChar(f[0]), UpperChar(f[1])];
    assert ToUpper(t) == [UpperChar(t[0]), UpperChar(t[1])];
  }

  lemma ToUpper3(a: string, b: string, d: string)
    ensures ToUpper(a + b + d) == ToUpper(a) + ToUpper(b) + ToUpper(d)
  {
    ToUpperAppend(a + b, d);
    ToUpperAppend(a, b);
  }

  /** The '#' is left alone by upper-casing. */
  lemma FormatShape(c: Color)
    ensures FormatColor(c) == "#" + ToUpper(FieldsText(c))
  {
    ToUpperAppend("#", FieldsText(c));
  }

  /** For any six-digit input, formatting the colour read gives '#' and the digits upper-cased. */
  lemma FormatOfSixDigits(s: string)
    requires MatchesHexPattern(s) && |HexBody(s)| == 6
    ensures BuildColor(s).Some? && FormatColor(BuildColor(s).value) == "#" + ToUpper(HexBody(s))
  {
    var t := HexBody(s);
    var c := Plain(HexDec(t[0..2]), HexDec(t[2..4]), HexDec(t[4..6]), 100);
    assert BuildColor(s) == Some(c) by { FieldsOfDigits(s); }
    FormatShape(c);
    UpperSixFields(t);
  }

  /** Six hex digits read two by two and written back give the same digits, upper-cased. */
  lemma UpperSixFields(t: string)
    requires |t| == 6 && AllHex(t)
    ensures ToUpper(FieldsText(Plain(HexDec(t[0..2]), HexDec(t[2..4]), HexDec(t[4..6]), 100))) == ToUpper(t)
  {
    var c := Plain(HexDec(t[0..2]), HexDec(t[2..4]), HexDec(t[4..6]), 100);
    var t1, t2, t3 := t[0..2], t[2..4], t[4..6];
    HexFieldOfDigits(t1);
    HexFieldOfDigits(t2);
    HexFieldOfDigits(t3);
    var f1, f2, f3 := HexField(c.red), HexField(c.green), HexField(c.blue);
    assert FieldsText(c) == f1 + f2 + f3 + "";
    assert f1 + f2 + f3 + "" == f1 + f2 + f3;
    ToUpper3(f1, f2, f3);
    assert t == t1 + t2 + t3;
    ToUpper3(t1, t2, t3);
  }

  /** The alpha byte of alpha 0..0.99 is a byte that reads back as the same hundredths. */
  lemma AlphaByteRoundTrip(c: Color)
    requires 0 <= c.alphaCents < 100
    ensures 0 <= AlphaByte(c) <= 255
    ensures Round(AlphaByte(c) as real * 100.0 / 255.0) == c.alphaCents
  {
    var k := c.alphaCents;
    var x := Alpha(c) * 255.0;
    assert x == k as real * 2.55;
    var b := AlphaByte(c);
    assert -0.5 <= b as real - x <= 0.5;
    var y := b as real * 100.0 / 255.0;
    assert y - k as real == (b as real - x) * 100.0 / 255.0;
    assert -0.25 < y - k as real < 0.25;
  }

  /** The written digits pass the pattern and split back into the fields. */
  lemma ReadFields(f1: string, f2: string, f3: string, f4: string)
    requires |f1| == 2 && |f2| == 2 && |f3| == 2 && (|f4| == 0 || |f4| == 2)
    requires AllHex(f1) && AllHex(f2) && AllHex(f3) && AllHex(f4)
    ensures var u := ToUpper(f1 + f2 + f3 + f4);
      && MatchesHexPattern("#" + u) && HexBody("#" + u) == u && LTrimHash("#" + u) == u
      && |u| == 6 + |f4| && AllHex(u)
      && HexDec(u[0..2]) == HexDec(f1) && HexDec(u[2..4]) == HexDec(f2) && HexDec(u[4..6]) == HexDec(f3)
      && (|f4| == 2 ==> HexDec(u[6..8]) == HexDec(f4))
  {
    var u := ToUpper(f1 + f2 + f3 + f4);
    UpperSlices(f1, f2, f3, f4);
    HexDecUpper(f1);
    HexDecUpper(f2);
    HexDecUpper(f3);
    HexDecUpper(f4);
    AllHexJoin(f1, f2, f3, f4);
    AllHexUpper(f1 + f2 + f3 + f4);
    HashedDigits(u);
  }

  /** Upper-casing four fields side by side upper-cases each in its place. */
  lemma UpperSlices(f1: string, f2: string, f3: string, f4: string)
    requires |f1| == 2 && |f2| == 2 && |f3| == 2
    ensures var u := ToUpper(f1 + f2 + f3 + f4);
      && |u| == 6 + |f4| && u[0..2] == ToUpper(f1) && u[2..4] == ToUpper(f2) && u[4..6] == ToUpper(f3)
      && u[6..] == ToUpper(f4)
  {
    ToUpperAppend(f1 + f2 + f3, f4);
    ToUpper3(f1, f2, f3);
    Slices4(ToUpper(f1), ToUpper(f2), ToUpper(f3), ToUpper(f4));
  }

  lemma Slices4(a: string, b: string, d: string, e: string)
    requires |a| == 2 && |b| == 2 && |d| == 2
    ensures var w := a + b + d + e;
      w[0..2] == a && w[2..4] == b && w[4..6] == d && w[6..] == e
  {
  }

  lemma AllHexJoin(f1: string, f2: string, f3: string, f4: string)
    requires AllHex(f1) && AllHex(f2) && AllHex(f3) && AllHex(f4)
    ensures AllHex(f1 + f2 + f3 + f4)
  {
    var w := f1 + f2 + f3 + f4;
    forall i | 0 <= i < |w| ensures IsHexDigit(w[i]) {
      if i < |f1| {
        assert w[i] == f1[i];
      } else if i < |f1| + |f2| {
        assert w[i] == f2[i - |f1|];
      } else if i < |f1| + |f2| + |f3| {
        assert w[i] == f3[i - |f1| - |f2|];
      } else {
        assert w[i] == f4[i - |f1| - |f2| - |f3|];
      }
    }
  }

  /** '#' and six or eight hex digits pass the pattern, and the digits are the body. */
  lemma HashedDigits(u: string)
    requires AllHex(u) && 2 <= |u| <= 8
    ensures MatchesHexPattern("#" + u) && HexBody("#" + u) == u && LTrimHash("#" + u) == u
  {
    assert ("#" + u)[1..] == u;
    LTrimHashBody("#" + u);
  }

  /**
   * Reading a written colour gives it back, for channels 0..255 and alpha
   * 0..1: the alpha byte loses nothing at two decimals.
   */
  lemma ParseOfFormat(c: Color)
    requires 0 <= c.red <= 255 && 0 <= c.green <= 255 && 0 <= c.blue <= 255 && 0 <= c.alphaCents <= 100
    ensures BuildColor(FormatColor(c)) == Some(Plain(c.red, c.green, c.blue, c.alphaCents))
  {
    FormatShape(c);
    ReadWrittenDigits(c);
  }

  /** The digits of a written colour in the gamut, with '#' in front, read back as it. */
  lemma ReadWrittenDigits(c: Color)
    requires 0 <= c.red <= 255 && 0 <= c.green <= 255 && 0 <= c.blue <= 255 && 0 <= c.alphaCents <= 100
    ensures BuildColor("#" + ToUpper(FieldsText(c))) == Some(Plain(c.red, c.green, c.blue, c.alphaCents))
  {
    WrittenDigits(c);
    ReadBack(c, ToUpper(FieldsText(c)));
  }

  /** What the digits of a written colour in the gamut read as. */
  lemma WrittenDigits(c: Color)
    requires 0 <= c.red <= 255 && 0 <= c.green <= 255 && 0 <= c.blue <= 255 && 0 <= c.alphaCents <= 100
    ensures var u := ToUpper(FieldsText(c));
      && MatchesHexPattern("#" + u) && HexBody("#" + u) == u && (|u| == 6 || |u| == 8)
      && HexDec(u[0..2]) == c.red && HexDec(u[2..4]) == c.green && HexDec(u[4..6]) == c.blue
      && (Translucent(c) ==> |u| == 8 && HexDec(u[6..8]) == AlphaByte(c))
      && (!Translucent(c) ==> |u| == 6)
  {
    HexFieldByte(c.red);
    HexFieldByte(c.green);
    HexFieldByte(c.blue);
    var f1, f2, f3 := HexField(c.red), HexField(c.green), HexField(c.blue);
    if Translucent(c) {
      AlphaByteRoundTrip(c);
      HexFieldByte(AlphaByte(c));
      TranslucentFields(c);
      ReadFields(f1, f2, f3, HexField(AlphaByte(c)));
    } else {
      OpaqueFields(c);
      ReadFields(f1, f2, f3, "");
    }
  }

  lemma TranslucentFields(c: Color)
    requires Translucent(c)
    ensures FieldsText(c) == HexField(c.red) + HexField(c.green) + HexField(c.blue) + HexField(AlphaByte(c))
  {
  }

  lemma OpaqueFields(c: Color)
    requires !Translucent(c)
    ensures FieldsText(c) == HexField(c.red) + HexField(c.green) + HexField(c.blue) + ""
  {
  }

  lemma ReadBack(c: Color, u: string)
    requires 0 <= c.alphaCents <= 100
    requires MatchesHexPattern("#" + u) && HexBody("#" + u) == u && (|u| == 6 || |u| == 8)
    requires HexDec(u[0..2]) == c.red && HexDec(u[2..4]) == c.green && HexDec(u[4..6]) == c.blue
    requires Translucent(c) ==> |u| == 8 && HexDec(u[6..8]) == AlphaByte(c)
    requires !Translucent(c) ==> |u| == 6
    ensures BuildColor("#" + u) == Some(Plain(c.red, c.green, c.blue, c.alphaCents))
  {
    if Translucent(c) {
      AlphaByteRoundTrip(c);
    }
    FieldsOfDigits("#" + u);
  }

  // ---------------------------------------------------------------------
  // The end-of-text anchor.

  /**
   * As written, any accepted text with a newline added is accepted too,
   * while the pattern meant to anchor at the end of the text refuses it.
   */
  lemma AsWrittenAcceptsNewline(s: string)
    requires MatchesHexPattern(s)
    ensures MatchesAsWritten(s + "\n") && !MatchesHexPattern(s + "\n")
    ensures BuildColor(s + "\n") == None
  {
    assert (s + "\n")[..|s|] == s;
    var t := HexBody(s + "\n");
    assert t[|t| - 1] == '\n';
  }

  /** "ff\n" is read as three digits f, f, newline: (255, 255, 0) where no colour was meant. */
  lemma NewlineFinding()
    ensures BuildColorAsWritten("ff\n") == Some(Plain(255, 255, 0, 100))
    ensures BuildColor("ff\n") == None
  {
    AsWrittenAcceptsNewline("ff");
    assert "ff" + "\n" == "ff\n";
    var t := "ff\n";
    assert LTrimHash(t) == t;
    HexDecTwo('f', 'f');
    assert [t[0], t[0]] == ['f', 'f'] && [t[1], t[1]] == ['f', 'f'];
    var nl := [t[2], t[2]];
    assert HexDec(nl) == 0 by {
      assert nl[..1] == ['\n'];
      assert ['\n'][..0] == [];
    }
    OpaqueAlpha();
  }

  /** The anchored pattern never lets a non-hex character through. */
  lemma BuildColorOnlyHex(s: string)
    requires BuildColor(s).Some?
    ensures AllHex(HexBody(s))
  {
  }
}
