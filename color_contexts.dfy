/** A foreground/background pair and its comparison metrics (ColorContext.php). */
module ColorContexts {
  import opened PhpStrings
  import Colors

  /** foreground() and background() are the two fields, as constructed. */
  datatype ColorContext = ColorContext(foreground: Colors.Color, background: Colors.Color)

  /** difference(): the foreground's difference to the background. */
  function Difference(ctx: ColorContext): (d: int)
    ensures d >= 0
    ensures d == 0 <==> (ctx.foreground.red == ctx.background.red
      && ctx.foreground.green == ctx.background.green && ctx.foreground.blue == ctx.background.blue)
  {
    Colors.Difference(ctx.foreground, ctx.background)
  }

  /** diffBrightness(): the foreground's brightness difference to the background. */
  function DiffBrightness(ctx: ColorContext): (d: real)
    ensures d >= 0.0
  {
    Colors.DiffBrightness(ctx.foreground, ctx.background)
  }

  /**
   * __toString(): the two colour keys joined by " on "; the only spaces in
   * the key are the two around "on".
   */
  function ToString(ctx: ColorContext): (s: string)
    ensures Count(s, ' ') == 2
  {
    var fg, bg := Colors.ToString(ctx.foreground), Colors.ToString(ctx.background);
    CountLacks(fg, ' ');
    CountLacks(bg, ' ');
    CountAppend(fg, " on ", ' ');
    CountAppend(fg + " on ", bg, ' ');
    assert Count(" on ", ' ') == 2;
    fg + " on " + bg
  }

  function Swap(ctx: ColorContext): ColorContext {
    ColorContext(ctx.background, ctx.foreground)
  }

  /** Both metrics are the same with foreground and background exchanged. */
  lemma MetricsSwapInvariant(ctx: ColorContext)
    ensures Difference(Swap(ctx)) == Difference(ctx)
    ensures DiffBrightness(Swap(ctx)) == DiffBrightness(ctx)
  {
    Colors.DifferenceSymmetric(ctx.foreground, ctx.background);
    Colors.DiffBrightnessSymmetric(ctx.foreground, ctx.background);
  }

  /**
   * Two contexts have the same key exactly when their foregrounds are equal
   * and their backgrounds are equal (provenance aside).
   */
  lemma ToStringInjective(x: ColorContext, y: ColorContext)
    ensures ToString(x) == ToString(y) <==>
      Colors.Equals(x.foreground, y.foreground) && Colors.Equals(x.background, y.background)
  {
    Colors.ToStringInjective(x.foreground, y.foreground);
    Colors.ToStringInjective(x.background, y.background);
    if ToString(x) == ToString(y) {
      SplitKey(x, y);
    }
  }

  lemma SplitKey(x: ColorContext, y: ColorContext)
    requires ToString(x) == ToString(y)
    ensures Colors.ToString(x.foreground) == Colors.ToString(y.foreground)
    ensures Colors.ToString(x.background) == Colors.ToString(y.background)
  {
    SplitGlue(Colors.ToString(x.foreground), Colors.ToString(y.foreground),
      Colors.ToString(x.background), Colors.ToString(y.background));
  }

  /** Texts glued with " on " after a space-free first part come apart uniquely. */
  lemma SplitGlue(fx: string, fy: string, bx: string, bgy: string)
    requires Lacks(fx, ' ') && Lacks(fy, ' ')
    requires fx + " on " + bx == fy + " on " + bgy
    ensures fx == fy && bx == bgy
  {
    assert fx + " on " + bx == fx + [' '] + ("on " + bx);
    assert fy + " on " + bgy == fy + [' '] + ("on " + bgy);
    Colors.SplitField(fx, fy, "on " + bx, "on " + bgy, ' ');
    Colors.DropPrefix("on ", bx, bgy);
  }
}
