/**
 * The factory that turns colour strings into colours by asking each
 * registered processor in turn, and that blends colours with its blend
 * strategy (ColorFactory.php, with the ColorProcessor.php interface).
 */
module Factories {
  import opened Wrappers
  import opened Colors
  import opened ColorContexts
  import opened Blending
  import HexCodec
  import RgbCodec
  import HslCodec

  /** A colour processor (the ColorProcessor interface), given as the buildColor() function it computes. */
  datatype Processor = Processor(build: string -> Option<Color>)

  /** The three processors of the library. */
  const HexProcessor: Processor := Processor(HexCodec.BuildColor)
  const RgbProcessor: Processor := Processor(RgbCodec.BuildColor)
  const HslProcessor: Processor := Processor(HslCodec.BuildColor)

  /** buildColor() of one processor. */
  function Build(p: Processor, s: string): Option<Color> {
    p.build(s)
  }

  /**
   * The colour of the first processor, in registration order, that makes
   * one; None when no processor does, and so when none is registered.
   */
  function FirstMatch(ps: seq<Processor>, s: string): (r: Option<Color>)
    ensures r.Some? ==> exists i :: 0 <= i < |ps| && Build(ps[i], s) == r
    ensures r.None? <==> forall i :: 0 <= i < |ps| ==> Build(ps[i], s).None?
  {
    if ps == [] then None
    else
      match Build(ps[0], s)
      case Some(c) => Some(c)
      case None =>
        var rest := FirstMatch(ps[1..], s);
        assert forall i :: 1 <= i < |ps| ==> ps[i] == ps[1..][i - 1];
        rest
  }

  class ColorFactory {
    /** The processors in the order they were registered. */
    var processors: seq<Processor>
    /** The blend strategy. */
    var blendStrategy: Blender

    /** The blender is the alpha-composite one unless another is given. */
    constructor (blender: Option<Blender>)
      ensures processors == []
      ensures blendStrategy == if blender.None? then AlphaComposite else blender.value
    {
      processors := [];
      blendStrategy := if blender.None? then AlphaComposite else blender.value;
    }

    /** setColorBlender(): the new strategy replaces the old one. */
    method SetColorBlender(blender: Blender)
      modifies this
      ensures blendStrategy == blender && processors == old(processors)
    {
      blendStrategy := blender;
    }

    /** registerProcessor(): the processor goes to the end of the list. */
    method RegisterProcessor(p: Processor)
      modifies this
      ensures processors == old(processors) + [p] && blendStrategy == old(blendStrategy)
    {
      processors := processors + [p];
    }

    /** buildColor(): each processor in turn, returning the first colour made. */
    method BuildColor(s: string) returns (c: Option<Color>)
      ensures c == FirstMatch(processors, s)
    {
      var i := 0;
      while i < |processors|
        invariant 0 <= i <= |processors|
        invariant FirstMatch(processors[i..], s) == FirstMatch(processors, s)
      {
        var made := Build(processors[i], s);
        assert processors[i..][1..] == processors[i + 1..];
        if made.Some? {
          return made;
        }
        i := i + 1;
      }
      return None;
    }

    /** blendColors(): exactly what the blend strategy makes of the pair. */
    method BlendColors(pair: ColorContext) returns (c: Color)
      ensures c == Blend(blendStrategy, pair)
    {
      c := Blend(blendStrategy, pair);
    }
  }

  // ---------------------------------------------------------------------
  // Properties.

  /**
   * The first processor that makes a colour decides: the ones before it
   * make none, and the ones after it are not consulted.
   */
  lemma {:induction false} FirstMatchIsFirst(ps: seq<Processor>, s: string, i: nat)
    requires i < |ps| && Build(ps[i], s).Some?
    requires forall j :: 0 <= j < i ==> Build(ps[j], s).None?
    ensures FirstMatch(ps, s) == Build(ps[i], s)
  {
    if i > 0 {
      var rest := ps[1..];
      assert rest[i - 1] == ps[i];
      assert forall j :: 0 <= j < i - 1 ==> rest[j] == ps[j + 1];
      FirstMatchIsFirst(rest, s, i - 1);
    }
  }

  /**
   * Registering one more processor keeps any colour the earlier processors
   * already make, and otherwise gives the new processor's result.
   */
  lemma {:induction false} RegisterKeepsFirst(ps: seq<Processor>, p: Processor, s: string)
    ensures FirstMatch(ps, s).Some? ==> FirstMatch(ps + [p], s) == FirstMatch(ps, s)
    ensures FirstMatch(ps, s).None? ==> FirstMatch(ps + [p], s) == Build(p, s)
  {
    if ps != [] {
      assert (ps + [p])[0] == ps[0];
      assert (ps + [p])[1..] == ps[1..] + [p];
      RegisterKeepsFirst(ps[1..], p, s);
    }
  }

  /** Two processors that both make a colour: the one registered first wins. */
  lemma EarlierProcessorWins(p: Processor, q: Processor, s: string)
    requires Build(p, s).Some?
    ensures FirstMatch([p, q], s) == Build(p, s)
  {
  }

  /** The hex processor ahead of the rgb one reads a hex colour, and the rgb one still reads rgb(). */
  lemma HexThenRgb(s: string)
    ensures HexCodec.BuildColor(s).Some? ==> FirstMatch([HexProcessor, RgbProcessor], s) == HexCodec.BuildColor(s)
    ensures HexCodec.BuildColor(s).None? ==> FirstMatch([HexProcessor, RgbProcessor], s) == RgbCodec.BuildColor(s)
  {
    var ps := [HexProcessor, RgbProcessor];
    assert ps[1..] == [RgbProcessor];
  }
}
