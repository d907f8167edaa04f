/**
 * Blending a foreground colour over a background (ColorBlender.php and
 * AlphaCompositeBlender.php): the simple source-over alpha composite of
 * section 5.1 of W3C Compositing and Blending Level 1.
 */
module Blending {
  import opened PhpNumbers
  import opened Colors
  import opened ColorContexts

  /** A blend strategy (the ColorBlender interface), given as the blendColors() function it computes. */
  datatype Blender = Blender(blend: ColorContext -> Color)

  /** The alpha-composite blender of the library. */
  const AlphaComposite: Blender := Blender(AlphaCompositeBlend)

  /** blendColors() of the chosen strategy. */
  function Blend(b: Blender, ctx: ColorContext): Color {
    b.blend(ctx)
  }

  /** The composite alpha: the foreground's, plus the background's in what the foreground leaves. */
  function ResultAlpha(foregroundAlpha: real, backgroundAlpha: real): (r: real)
    ensures foregroundAlpha == 1.0 || backgroundAlpha == 1.0 ==> r == 1.0
    ensures 0.0 <= foregroundAlpha <= 1.0 && 0.0 <= backgroundAlpha <= 1.0 ==>
      foregroundAlpha <= r <= 1.0 && backgroundAlpha <= r && (r == 0.0 <==> foregroundAlpha == 0.0 && backgroundAlpha == 0.0)
  {
    var r := foregroundAlpha + backgroundAlpha * (1.0 - foregroundAlpha);
    assert foregroundAlpha == 1.0 || backgroundAlpha == 1.0 ==> r == 1.0 by {
      if foregroundAlpha == 1.0 || backgroundAlpha == 1.0 {
        CompositeOpaque(foregroundAlpha, backgroundAlpha);
      }
    }
    assert 0.0 <= foregroundAlpha <= 1.0 && 0.0 <= backgroundAlpha <= 1.0 ==> CompositeInRange(foregroundAlpha, backgroundAlpha, r) by {
      if 0.0 <= foregroundAlpha <= 1.0 && 0.0 <= backgroundAlpha <= 1.0 {
        CompositeBounds(foregroundAlpha, backgroundAlpha);
      }
    }
    r
  }

  lemma CompositeOpaque(fa: real, ba: real)
    requires fa == 1.0 || ba == 1.0
    ensures fa + ba * (1.0 - fa) == 1.0
  {
    if fa == 1.0 {
      assert ba * (1.0 - fa) == ba * 0.0;
    } else {
      assert ba * (1.0 - fa) == 1.0 - fa;
    }
  }

  /** A composite alpha between both alphas and 1, and zero only when both are. */
  predicate CompositeInRange(fa: real, ba: real, r: real) {
    fa <= r <= 1.0 && ba <= r && (r == 0.0 <==> fa == 0.0 && ba == 0.0)
  }

  lemma CompositeBounds(fa: real, ba: real)
    requires 0.0 <= fa <= 1.0 && 0.0 <= ba <= 1.0
    ensures CompositeInRange(fa, ba, fa + ba * (1.0 - fa))
  {
    var left := 1.0 - fa;
    var share := ba * left;
    MulNonNegative(ba, left);
    MulNonNegative(1.0 - ba, left);
    assert left - share == (1.0 - ba) * left;
    MulNonNegative(fa, 1.0 - ba);
    assert fa + share - ba == fa * (1.0 - ba);
    if fa + share == 0.0 {
      assert fa == 0.0;
      assert share == ba * 1.0;
    }
  }

  lemma MulNonNegative(a: real, b: real)
    requires a >= 0.0 && b >= 0.0
    ensures a * b >= 0.0
  {
  }

  /**
   * blendColorComponent(): both channels weighted by their share of the
   * composite alpha, divided by it and rounded to an integer.
   */
  function BlendComponent(foreground: int, background: int, foregroundAlpha: real, backgroundAlpha: real, resultAlpha: real): (r: int)
    requires resultAlpha != 0.0
    ensures foregroundAlpha == 1.0 && resultAlpha == 1.0 ==> r == foreground
    ensures foregroundAlpha == 0.0 && backgroundAlpha == 1.0 && resultAlpha == 1.0 ==> r == background
  {
    RoundInt(foreground);
    RoundInt(background);
    Round((foreground as real * foregroundAlpha + background as real * backgroundAlpha * (1.0 - foregroundAlpha)) / resultAlpha)
  }

  /**
   * blendColors(): a BlendedColor that remembers the foreground as its
   * original and the background as what it was blended with. A composite
   * alpha below 0.001 gives a fully transparent black.
   */
  function AlphaCompositeBlend(ctx: ColorContext): (c: Color)
    ensures c.Blended? && c.original == ctx.foreground && c.blendedWith == ctx.background
    ensures ResultAlpha(Alpha(ctx.foreground), Alpha(ctx.background)) < 0.001 ==>
      c.red == 0 && c.green == 0 && c.blue == 0 && c.alphaCents == 0
  {
    var fg, bg := ctx.foreground, ctx.background;
    var fa, ba := Alpha(fg), Alpha(bg);
    var resultAlpha := ResultAlpha(fa, ba);
    if resultAlpha < 0.001 then
      RoundInt(0);
      NewBlendedColor(fg, bg, 0.0, 0.0, 0.0, 0.0)
    else
      NewBlendedColor(fg, bg,
        BlendComponent(fg.red, bg.red, fa, ba, resultAlpha) as real,
        BlendComponent(fg.green, bg.green, fa, ba, resultAlpha) as real,
        BlendComponent(fg.blue, bg.blue, fa, ba, resultAlpha) as real,
        resultAlpha)
  }

  /**
   * The blender turns a translucent foreground over an opaque background
   * into an opaque colour, the property the palette's recursion relies on.
   */
  ghost predicate Resolves(b: Blender) {
    forall ctx: ColorContext {:trigger Blend(b, ctx)} ::
      Translucent(ctx.foreground) && !Translucent(ctx.background) ==> !Translucent(Blend(b, ctx))
  }

  // ---------------------------------------------------------------------
  // Properties.

  /** When the composite alpha is not tiny, each channel is the blended component. */
  lemma CompositeChannels(ctx: ColorContext)
    requires ResultAlpha(Alpha(ctx.foreground), Alpha(ctx.background)) >= 0.001
    ensures var fa, ba := Alpha(ctx.foreground), Alpha(ctx.background);
      var ra := ResultAlpha(fa, ba);
      var c := AlphaCompositeBlend(ctx);
      c.red == BlendComponent(ctx.foreground.red, ctx.background.red, fa, ba, ra)
      && c.green == BlendComponent(ctx.foreground.green, ctx.background.green, fa, ba, ra)
      && c.blue == BlendComponent(ctx.foreground.blue, ctx.background.blue, fa, ba, ra)
      && c.alphaCents == RoundCents(ra)
  {
    var fa, ba := Alpha(ctx.foreground), Alpha(ctx.background);
    var ra := ResultAlpha(fa, ba);
    RoundInt(BlendComponent(ctx.foreground.red, ctx.background.red, fa, ba, ra));
    RoundInt(BlendComponent(ctx.foreground.green, ctx.background.green, fa, ba, ra));
    RoundInt(BlendComponent(ctx.foreground.blue, ctx.background.blue, fa, ba, ra));
  }

  /** An opaque foreground hides the background: the result has the foreground's channels and alpha 1. */
  lemma OpaqueForeground(ctx: ColorContext)
    requires ctx.foreground.alphaCents == 100
    ensures Equals(AlphaCompositeBlend(ctx), ctx.foreground)
  {
    var fg, bg := ctx.foreground, ctx.background;
    var ba := Alpha(bg);
    assert Alpha(fg) == 1.0;
    assert ResultAlpha(1.0, ba) == 1.0;
    CompositeChannels(ctx);
    RoundInt(100);
  }

  /** A fully transparent foreground over an opaque background gives the background. */
  lemma TransparentForeground(ctx: ColorContext)
    requires ctx.foreground.alphaCents == 0 && ctx.background.alphaCents == 100
    ensures Equals(AlphaCompositeBlend(ctx), ctx.background)
  {
    var fg, bg := ctx.foreground, ctx.background;
    assert Alpha(fg) == 0.0 && Alpha(bg) == 1.0;
    assert ResultAlpha(0.0, 1.0) == 1.0;
    CompositeChannels(ctx);
    RoundInt(100);
  }

  /**
   * A translucent foreground over a background of alpha at least 1 gives a
   * composite alpha of at least 1, and exactly 1 over an opaque background.
   */
  lemma OverOpaqueBackground(ctx: ColorContext)
    requires Translucent(ctx.foreground) && ctx.background.alphaCents >= 100
    ensures AlphaCompositeBlend(ctx).alphaCents >= 100
    ensures ctx.background.alphaCents == 100 ==> AlphaCompositeBlend(ctx).alphaCents == 100
  {
    var fa, ba := Alpha(ctx.foreground), Alpha(ctx.background);
    assert fa < 1.0 && ba >= 1.0;
    AlphaOverOpaque(fa, ba);
    var ra := ResultAlpha(fa, ba);
    CompositeChannels(ctx);
    RoundMonotone(100.0, ra * 100.0);
    RoundInt(100);
  }

  /** Over a background alpha of at least 1 the composite alpha is at least 1. */
  lemma AlphaOverOpaque(foregroundAlpha: real, backgroundAlpha: real)
    requires foregroundAlpha < 1.0 && backgroundAlpha >= 1.0
    ensures ResultAlpha(foregroundAlpha, backgroundAlpha) >= 1.0
  {
    var left := 1.0 - foregroundAlpha;
    MulMonotone(1.0, backgroundAlpha, left);
    assert ResultAlpha(foregroundAlpha, backgroundAlpha) == foregroundAlpha + backgroundAlpha * left;
  }

  /** The alpha-composite blender resolves translucent foregrounds. */
  lemma AlphaCompositeResolves()
    ensures Resolves(AlphaComposite)
  {
    forall ctx: ColorContext | Translucent(ctx.foreground) && !Translucent(ctx.background)
      ensures !Translucent(Blend(AlphaComposite, ctx))
    {
      OverOpaqueBackground(ctx);
    }
  }

  /** Multiplying by a factor that is not negative keeps the order. */
  lemma MulMonotone(a: real, b: real, d: real)
    requires a <= b && d >= 0.0
    ensures a * d <= b * d
  {
    assert b * d - a * d == (b - a) * d;
  }

  /** Dividing by a positive number keeps a bound: lo d <= s <= hi d gives lo <= s / d <= hi. */
  lemma DivideBounds(s: real, d: real, lo: real, hi: real)
    requires d > 0.0 && lo * d <= s <= hi * d
    ensures lo <= s / d <= hi
  {
    var m := s / d;
    assert m * d == s;
    assert (m - lo) * d == s - lo * d;
    assert (hi - m) * d == hi * d - s;
  }

  /** The mean of x and y with weights p and q. */
  function Mean(x: real, y: real, p: real, q: real): real
    requires p + q != 0.0
  {
    (x * p + y * q) / (p + q)
  }

  /** A mean with non-negative weights lies between the two values. */
  lemma WeightedMean(x: real, y: real, p: real, q: real)
    requires p >= 0.0 && q >= 0.0 && p + q > 0.0
    ensures var m := Mean(x, y, p, q);
      (x <= y ==> x <= m <= y) && (y <= x ==> y <= m <= x)
  {
    if x <= y {
      MeanAbove(x, y, p, q);
    } else {
      MeanAbove(y, x, q, p);
      assert Mean(y, x, q, p) == Mean(x, y, p, q) by {
        assert y * q + x * p == x * p + y * q && q + p == p + q;
      }
    }
  }

  lemma MeanAbove(x: real, y: real, p: real, q: real)
    requires x <= y && p >= 0.0 && q >= 0.0 && p + q > 0.0
    ensures x <= Mean(x, y, p, q) <= y
  {
    MulMonotone(x, y, q);
    MulMonotone(x, y, p);
    Distribute(x, p, q);
    Distribute(y, p, q);
    DivideBounds(x * p + y * q, p + q, x, y);
  }

  lemma Distribute(x: real, p: real, q: real)
    ensures x * (p + q) == x * p + x * q
  {
  }

  /**
   * With the foreground alpha in [0, 1] and a background alpha that is not
   * negative, a blended component lies between the two channels.
   */
  lemma ComponentBetween(foreground: int, background: int, foregroundAlpha: real, backgroundAlpha: real)
    requires 0.0 <= foregroundAlpha <= 1.0 && backgroundAlpha >= 0.0
    requires ResultAlpha(foregroundAlpha, backgroundAlpha) >= 0.001
    ensures var r := BlendComponent(foreground, background, foregroundAlpha, backgroundAlpha, ResultAlpha(foregroundAlpha, backgroundAlpha));
      (foreground <= background ==> foreground <= r <= background) && (background <= foreground ==> background <= r <= foreground)
  {
    var x, y := foreground as real, background as real;
    var m := Mean(x, y, foregroundAlpha, backgroundAlpha * (1.0 - foregroundAlpha));
    ComponentAsMean(foreground, background, foregroundAlpha, backgroundAlpha);
    CompositeMean(x, y, foregroundAlpha, backgroundAlpha);
    if x <= y {
      RoundMonotone(x, m);
      RoundMonotone(m, y);
    } else {
      RoundMonotone(y, m);
      RoundMonotone(m, x);
    }
    RoundInt(foreground);
    RoundInt(background);
  }

  /** The unrounded component lies between the two channels. */
  lemma CompositeMean(x: real, y: real, foregroundAlpha: real, backgroundAlpha: real)
    requires 0.0 <= foregroundAlpha <= 1.0 && backgroundAlpha >= 0.0
    requires ResultAlpha(foregroundAlpha, backgroundAlpha) >= 0.001
    ensures var m := Mean(x, y, foregroundAlpha, backgroundAlpha * (1.0 - foregroundAlpha));
      (x <= y ==> x <= m <= y) && (y <= x ==> y <= m <= x)
  {
    BackgroundWeight(foregroundAlpha, backgroundAlpha);
    WeightedMean(x, y, foregroundAlpha, backgroundAlpha * (1.0 - foregroundAlpha));
  }

  /** The background's weight bgA (1 - fgA) is not negative, and with fgA it makes up the composite alpha. */
  lemma BackgroundWeight(foregroundAlpha: real, backgroundAlpha: real)
    requires 0.0 <= foregroundAlpha <= 1.0 && backgroundAlpha >= 0.0
    ensures backgroundAlpha * (1.0 - foregroundAlpha) >= 0.0
    ensures foregroundAlpha + backgroundAlpha * (1.0 - foregroundAlpha) == ResultAlpha(foregroundAlpha, backgroundAlpha)
  {
    MulMonotone(0.0, backgroundAlpha, 1.0 - foregroundAlpha);
  }

  /** A blended component is the rounded mean of the two channels, weighted by fgA and bgA (1 - fgA). */
  lemma ComponentAsMean(foreground: int, background: int, foregroundAlpha: real, backgroundAlpha: real)
    requires ResultAlpha(foregroundAlpha, backgroundAlpha) != 0.0
    ensures BlendComponent(foreground, background, foregroundAlpha, backgroundAlpha, ResultAlpha(foregroundAlpha, backgroundAlpha))
        == Round(Mean(foreground as real, background as real, foregroundAlpha, backgroundAlpha * (1.0 - foregroundAlpha)))
  {
    var q := backgroundAlpha * (1.0 - foregroundAlpha);
    assert background as real * backgroundAlpha * (1.0 - foregroundAlpha) == background as real * q;
  }

  /** Each channel of a composite lies between the foreground's and the background's. */
  lemma BlendBetween(ctx: ColorContext)
    requires 0 <= ctx.foreground.alphaCents <= 100 && ctx.background.alphaCents >= 0
    requires ResultAlpha(Alpha(ctx.foreground), Alpha(ctx.background)) >= 0.001
    ensures var fg, bg, c := ctx.foreground, ctx.background, AlphaCompositeBlend(ctx);
      Between(c.red, fg.red, bg.red) && Between(c.green, fg.green, bg.green) && Between(c.blue, fg.blue, bg.blue)
  {
    var fa, ba := Alpha(ctx.foreground), Alpha(ctx.background);
    CompositeChannels(ctx);
    ComponentBetween(ctx.foreground.red, ctx.background.red, fa, ba);
    ComponentBetween(ctx.foreground.green, ctx.background.green, fa, ba);
    ComponentBetween(ctx.foreground.blue, ctx.background.blue, fa, ba);
  }

  /** v lies between a and b, in either order. */
  predicate Between(v: int, a: int, b: int) {
    (a <= b && a <= v <= b) || (b <= a && b <= v <= a)
  }

  // ---------------------------------------------------------------------
  // The rows of the blender's test table.

  /** (0, 0, 0) at alpha 0.25 over opaque red is (191, 0, 0). */
  lemma QuarterBlackOverRed()
    ensures Equals(AlphaCompositeBlend(ColorContext(Plain(0, 0, 0, 25), Plain(255, 0, 0, 100))), Plain(191, 0, 0, 100))
  {
    var ctx := ColorContext(Plain(0, 0, 0, 25), Plain(255, 0, 0, 100));
    assert Alpha(ctx.foreground) == 0.25 && Alpha(ctx.background) == 1.0;
    assert ResultAlpha(0.25, 1.0) == 1.0;
    CompositeChannels(ctx);
    assert BlendComponent(0, 0, 0.25, 1.0, 1.0) == 0 by {
      RoundInt(0);
    }
    assert BlendComponent(0, 255, 0.25, 1.0, 1.0) == 191 by {
      assert (0.0 * 0.25 + 255.0 * 1.0 * (1.0 - 0.25)) / 1.0 == 191.25;
      assert (191.25 + 0.5).Floor == 191;
    }
    RoundInt(0);
    RoundInt(100);
  }

  /** An opaque (126, 120, 115) over white stays (126, 120, 115). */
  lemma OpaqueOverWhite()
    ensures Equals(AlphaCompositeBlend(ColorContext(Plain(126, 120, 115, 100), Plain(255, 255, 255, 100))), Plain(126, 120, 115, 100))
  {
    OpaqueForeground(ColorContext(Plain(126, 120, 115, 100), Plain(255, 255, 255, 100)));
  }

  /** A fully transparent (50, 45, 40) over opaque (90, 80, 70) gives (90, 80, 70). */
  lemma TransparentOverColour()
    ensures Equals(AlphaCompositeBlend(ColorContext(Plain(50, 45, 40, 0), Plain(90, 80, 70, 100))), Plain(90, 80, 70, 100))
  {
    TransparentForeground(ColorContext(Plain(50, 45, 40, 0), Plain(90, 80, 70, 100)));
  }

  /** Two fully transparent colours give the transparent black. */
  lemma TransparentOverTransparent(fg: Color, bg: Color)
    requires fg.alphaCents == 0 && bg.alphaCents == 0
    ensures AlphaCompositeBlend(ColorContext(fg, bg)) == Blended(fg, bg, 0, 0, 0, 0)
  {
    assert ResultAlpha(Alpha(fg), Alpha(bg)) == 0.0;
  }
}
