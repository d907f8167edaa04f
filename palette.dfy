/**
 * The palette that turns a list of colours into foreground/background
 * pairs and iterates over them (ColorPalette.php).
 */
module Palettes {
  import opened Wrappers
  import opened PhpArrays
  import opened Colors
  import opened ColorContexts
  import opened Blending
  import opened Factories

  /** One element of the input list: a colour string, or a colour object taken as it is. */
  datatype Entry = Text(text: string) | Given(color: Color)

  /** The opaque backdrops a translucent background is tried over. */
  const White: Color := Plain(255, 255, 255, 100)
  const Black: Color := Plain(0, 0, 0, 100)

  /** What an entry reads as: the object itself, or what the processors make of the string. */
  function Read(ps: seq<Processor>, e: Entry): Option<Color> {
    match e
    case Given(c) => Some(c)
    case Text(s) => FirstMatch(ps, s)
  }

  /** The colours the entries read as, in input order. */
  function Readable(ps: seq<Processor>, es: seq<Entry>): seq<Color>
    decreases |es|
  {
    if es == [] then []
    else
      var front := Readable(ps, es[..|es| - 1]);
      match Read(ps, es[|es| - 1])
      case Some(c) => front + [c]
      case None => front
  }

  /** The colours buildColors() keeps: each colour read, in turn, under its string. */
  function Collect(ps: seq<Processor>, es: seq<Entry>): (t: Table<Color>)
    ensures WellFormed(t)
  {
    PutEachWellFormed(Empty(), Colors.ToString, Readable(ps, es));
    PutEach(Empty(), Colors.ToString, Readable(ps, es))
  }

  /** The strings no processor reads, in input order; they are what getInvalidStrings() returns. */
  function Rejected(ps: seq<Processor>, es: seq<Entry>): (r: seq<string>)
    ensures |r| <= |es|
    ensures forall k :: 0 <= k < |r| ==> FirstMatch(ps, r[k]).None?
    ensures forall j :: 0 <= j < |es| && es[j].Text? && FirstMatch(ps, es[j].text).None? ==> es[j].text in r
    decreases |es|
  {
    if es == [] then []
    else
      var prefix := es[..|es| - 1];
      var r := Rejected(ps, prefix);
      assert forall j :: 0 <= j < |prefix| ==> es[j] == prefix[j];
      match es[|es| - 1]
      case Text(s) =>
        if FirstMatch(ps, s).None? then
          assert forall k :: 0 <= k < |r| ==> (r + [s])[k] == r[k];
          r + [s]
        else r
      case Given(_) => r
  }

  /** A pair the palette may store: two different, opaque colours. */
  predicate Storable(ctx: ColorContext) {
    !Equals(ctx.foreground, ctx.background) && !Translucent(ctx.foreground) && !Translucent(ctx.background)
  }

  /** Every pair has one of the two backgrounds. */
  predicate AllOver(cs: seq<ColorContext>, bg1: Color, bg2: Color) {
    forall i :: 0 <= i < |cs| ==> cs[i].background == bg1 || cs[i].background == bg2
  }

  /** Every pair has this foreground. */
  predicate AllFrom(cs: seq<ColorContext>, fg: Color) {
    forall i :: 0 <= i < |cs| ==> cs[i].foreground == fg
  }

  /** How many translucent colours are still to be resolved, the background counting double. */
  function Pending(fg: Color, bg: Color): nat {
    (if Translucent(bg) then 2 else 0) + (if Translucent(fg) then 1 else 0)
  }

  /**
   * The pairs pairColors(fg, bg) stores, in order. Only storable pairs and
   * at most two of them; an opaque background is kept as it is, a
   * translucent one is replaced by itself over white and over black; a
   * translucent foreground over an opaque background is replaced by the
   * blend of the two.
   */
  function Stored(b: Blender, fg: Color, bg: Color): (r: seq<ColorContext>)
    requires Resolves(b)
    ensures forall i :: 0 <= i < |r| ==> Storable(r[i])
    ensures |r| <= if Translucent(bg) then 2 else 1
    ensures Equals(fg, bg) ==> r == []
    ensures Storable(ColorContext(fg, bg)) ==> r == [ColorContext(fg, bg)]
    ensures !Translucent(bg) ==> AllOver(r, bg, bg)
    ensures !Translucent(bg) && Translucent(fg) ==> AllFrom(r, Blend(b, ColorContext(fg, bg)))
    ensures Translucent(bg) ==> AllOver(r, Blend(b, ColorContext(bg, White)), Blend(b, ColorContext(bg, Black)))
    ensures var overWhite, overBlack := Blend(b, ColorContext(bg, White)), Blend(b, ColorContext(bg, Black));
      Translucent(bg) && !Translucent(fg) && !Equals(fg, bg) && !Equals(fg, overWhite) && !Equals(fg, overBlack) ==>
        r == [ColorContext(fg, overWhite), ColorContext(fg, overBlack)]
    ensures var blended := Blend(b, ColorContext(fg, bg));
      !Translucent(bg) && Translucent(fg) && !Equals(blended, bg) ==> r == [ColorContext(blended, bg)]
    decreases Pending(fg, bg)
  {
    if Equals(fg, bg) then []
    else if Translucent(bg) then
      var overWhite := Blend(b, ColorContext(bg, White));
      var overBlack := Blend(b, ColorContext(bg, Black));
      Stored(b, fg, overWhite) + Stored(b, fg, overBlack)
    else if Translucent(fg) then
      Stored(b, Blend(b, ColorContext(fg, bg)), bg)
    else
      [ColorContext(fg, bg)]
  }

  /** Every stored pair is storable and sits under its own key. */
  ghost predicate Keyed(t: Table<ColorContext>) {
    forall k :: k in t.values ==> ColorContexts.ToString(t.values[k]) == k && Storable(t.values[k])
  }

  /** The pairs written one after another, each under its key. */
  function PutPairs(t: Table<ColorContext>, cs: seq<ColorContext>): Table<ColorContext> {
    PutEach(t, ColorContexts.ToString, cs)
  }

  /** The pairs of one background with each foreground, in foreground order. */
  function Row(b: Blender, fgs: seq<Color>, bg: Color): (r: seq<ColorContext>)
    requires Resolves(b)
    ensures |r| <= 2 * |fgs|
    decreases |fgs|
  {
    if fgs == [] then []
    else Row(b, fgs[..|fgs| - 1], bg) + Stored(b, fgs[|fgs| - 1], bg)
  }

  /** Every pair of a row is storable. */
  lemma {:induction false} RowStorable(b: Blender, fgs: seq<Color>, bg: Color)
    requires Resolves(b)
    ensures forall i :: 0 <= i < |Row(b, fgs, bg)| ==> Storable(Row(b, fgs, bg)[i])
    decreases |fgs|
  {
    if fgs != [] {
      RowStorable(b, fgs[..|fgs| - 1], bg);
    }
  }

  /** The rows of each background in turn: backgrounds outside, foregrounds inside. */
  function Pairs(b: Blender, colors: seq<Color>, bgs: seq<Color>): (r: seq<ColorContext>)
    requires Resolves(b)
    ensures forall i :: 0 <= i < |r| ==> Storable(r[i])
    decreases |bgs|
  {
    if bgs == [] then []
    else
      RowStorable(b, colors, bgs[|bgs| - 1]);
      Pairs(b, colors, bgs[..|bgs| - 1]) + Row(b, colors, bgs[|bgs| - 1])
  }

  /** The table pairColorArray() builds from the colours. */
  function PairTable(b: Blender, colors: seq<Color>): (t: Table<ColorContext>)
    requires Resolves(b)
    ensures WellFormed(t) && Keyed(t)
  {
    var cs := Pairs(b, colors, colors);
    PutEachWellFormed(Empty(), ColorContexts.ToString, cs);
    PutPairsKeyed(Empty(), cs);
    PutPairs(Empty(), cs)
  }

  class ColorPalette {
    /** The pairs by key. */
    var colorPairs: Table<ColorContext>
    /** The keys of colorPairs, in order, for the iterator. */
    var pairKeys: seq<string>
    var currentPosition: nat
    const colorFactory: ColorFactory
    /** The strings the factory could not read. */
    var invalidStrings: seq<string>
    /** The entries the palette was built from, and the factory's processors at that time. */
    ghost const entries: seq<Entry>
    ghost const readers: seq<Processor>

    /**
     * Every pair is storable and under its key, the iterator's keys are the
     * table's, and the invalid strings are those of the entries no processor reads.
     */
    ghost predicate Valid()
      reads this
    {
      WellFormed(colorPairs) && Keyed(colorPairs) && pairKeys == colorPairs.keys
      && invalidStrings == Rejected(readers, entries)
    }

    /**
     * The palette of the entries: the pairs of the colours read, the
     * strings not read, and the iterator at the start. The blender must
     * resolve translucent foregrounds, or the pairing would not end.
     */
    constructor (factory: ColorFactory, colorStrings: seq<Entry>)
      requires Resolves(factory.blendStrategy)
      ensures Valid()
      ensures colorFactory == factory
      ensures colorPairs == PairTable(factory.blendStrategy, Values(Collect(factory.processors, colorStrings)))
      ensures invalidStrings == Rejected(factory.processors, colorStrings)
      ensures currentPosition == 0
      ensures entries == colorStrings && readers == factory.processors
    {
      colorFactory := factory;
      entries := colorStrings;
      readers := factory.processors;
      colorPairs := Empty();
      pairKeys := [];
      currentPosition := 0;
      invalidStrings := [];
      new;
      var colors := BuildColors(colorStrings);
      PairColorArray(Values(colors));
      assert colorPairs == PairTable(factory.blendStrategy, Values(colors));
    }

    /** uasort() with a comparator, given here as the key order it produces. */
    method SortColorArray(order: seq<string>)
      requires Valid()
      requires multiset(order) == multiset(colorPairs.keys)
      modifies this
      ensures Valid()
      ensures colorPairs == Reorder(old(colorPairs), order) && pairKeys == order
      ensures invalidStrings == old(invalidStrings) && currentPosition == old(currentPosition)
    {
      colorPairs := Reorder(colorPairs, order);
      pairKeys := colorPairs.keys;
    }

    /** pairColorArray(): each background in turn with each foreground, then the keys. */
    method PairColorArray(colors: seq<Color>)
      requires Resolves(colorFactory.blendStrategy)
      modifies this
      ensures colorPairs == PutPairs(old(colorPairs), Pairs(colorFactory.blendStrategy, colors, colors))
      ensures pairKeys == colorPairs.keys
      ensures invalidStrings == old(invalidStrings) && currentPosition == old(currentPosition)
    {
      var b := colorFactory.blendStrategy;
      ghost var start := colorPairs;
      assert colors[..0] == [];
      var i := 0;
      while i < |colors|
        invariant 0 <= i <= |colors|
        invariant colorPairs == PutPairs(start, Pairs(b, colors, colors[..i]))
        invariant invalidStrings == old(invalidStrings) && currentPosition == old(currentPosition)
      {
        PairRow(colors, colors[i]);
        PairsStep(b, start, colors, i);
        i := i + 1;
      }
      assert colors[..i] == colors;
      pairKeys := colorPairs.keys;
    }

    /** The inner loop of pairColorArray(): one background with each foreground in turn. */
    method PairRow(colors: seq<Color>, background: Color)
      requires Resolves(colorFactory.blendStrategy)
      modifies this
      ensures colorPairs == PutPairs(old(colorPairs), Row(colorFactory.blendStrategy, colors, background))
      ensures pairKeys == old(pairKeys) && invalidStrings == old(invalidStrings) && currentPosition == old(currentPosition)
    {
      var b := colorFactory.blendStrategy;
      ghost var start := colorPairs;
      for j := 0 to |colors|
        invariant colorPairs == PutPairs(start, Row(b, colors[..j], background))
        invariant pairKeys == old(pairKeys) && invalidStrings == old(invalidStrings) && currentPosition == old(currentPosition)
      {
        PairNext(colors, j, background, start);
      }
      assert colors[..|colors|] == colors;
    }

    /** One step of the inner loop: the row so far grows by the pairs of the next foreground. */
    method PairNext(colors: seq<Color>, j: nat, background: Color, ghost start: Table<ColorContext>)
      requires j < |colors| && Resolves(colorFactory.blendStrategy)
      requires colorPairs == PutPairs(start, Row(colorFactory.blendStrategy, colors[..j], background))
      modifies this
      ensures colorPairs == PutPairs(start, Row(colorFactory.blendStrategy, colors[..j + 1], background))
      ensures pairKeys == old(pairKeys) && invalidStrings == old(invalidStrings) && currentPosition == old(currentPosition)
    {
      PairColors(colors[j], background);
      RowStep(colorFactory.blendStrategy, start, colors, j, background);
    }

    /**
     * pairColors(): what Stored() says, written into the table; nothing
     * else changes.
     */
    method PairColors(foreground: Color, background: Color)
      requires Resolves(colorFactory.blendStrategy)
      modifies this
      ensures colorPairs == PutPairs(old(colorPairs), Stored(colorFactory.blendStrategy, foreground, background))
      ensures pairKeys == old(pairKeys) && invalidStrings == old(invalidStrings) && currentPosition == old(currentPosition)
      decreases Pending(foreground, background)
    {
      var b := colorFactory.blendStrategy;
      if Equals(foreground, background) {
        return;
      }
      if Translucent(background) {
        ghost var start := colorPairs;
        var overWhite := colorFactory.BlendColors(ColorContext(background, White));
        PairColors(foreground, overWhite);
        var overBlack := colorFactory.BlendColors(ColorContext(background, Black));
        PairColors(foreground, overBlack);
        PutEachAppend(start, ColorContexts.ToString, Stored(b, foreground, overWhite), Stored(b, foreground, overBlack));
        return;
      }
      if Translucent(foreground) {
        var blended := colorFactory.BlendColors(ColorContext(foreground, background));
        PairColors(blended, background);
        return;
      }
      var context := ColorContext(foreground, background);
      PutEachOne(colorPairs, ColorContexts.ToString, context);
      colorPairs := Put(colorPairs, ColorContexts.ToString(context), context);
    }

    /**
     * buildColors(): the colours read, keyed by their string, returned; the
     * strings not read appended to invalidStrings.
     */
    method BuildColors(colorStrings: seq<Entry>) returns (colors: Table<Color>)
      modifies this
      ensures colors == Collect(colorFactory.processors, colorStrings)
      ensures invalidStrings == old(invalidStrings) + Rejected(colorFactory.processors, colorStrings)
      ensures colorPairs == old(colorPairs) && pairKeys == old(pairKeys) && currentPosition == old(currentPosition)
    {
      var ps := colorFactory.processors;
      colors := Empty();
      var i := 0;
      while i < |colorStrings|
        invariant 0 <= i <= |colorStrings|
        invariant colors == Collect(ps, colorStrings[..i])
        invariant invalidStrings == old(invalidStrings) + Rejected(ps, colorStrings[..i])
        invariant colorPairs == old(colorPairs) && pairKeys == old(pairKeys) && currentPosition == old(currentPosition)
      {
        assert colorStrings[..i + 1][..i] == colorStrings[..i];
        CollectStep(ps, colorStrings, i);
        match colorStrings[i] {
          case Given(c) =>
            colors := Put(colors, Colors.ToString(c), c);
          case Text(s) =>
            var color := colorFactory.BuildColor(s);
            if color.Some? {
              colors := Put(colors, Colors.ToString(color.value), color.value);
            } else {
              invalidStrings := invalidStrings + [s];
            }
        }
        i := i + 1;
      }
      assert colorStrings[..i] == colorStrings;
    }

    /** getInvalidStrings(). */
    function InvalidStrings(): (s: seq<string>)
      reads this
      ensures Valid() ==> s == Rejected(readers, entries)
      ensures Valid() ==> forall k :: 0 <= k < |s| ==> FirstMatch(readers, s[k]).None?
      ensures Valid() ==> forall j :: 0 <= j < |entries| && entries[j].Text? && FirstMatch(readers, entries[j].text).None? ==> entries[j].text in s
    {
      invalidStrings
    }

    /** rewind(). */
    method Rewind()
      modifies this
      ensures currentPosition == 0
      ensures Valid() <==> old(Valid())
      ensures colorPairs == old(colorPairs) && pairKeys == old(pairKeys) && invalidStrings == old(invalidStrings)
    {
      currentPosition := 0;
    }

    /** next(). */
    method Next()
      modifies this
      ensures currentPosition == old(currentPosition) + 1
      ensures Valid() <==> old(Valid())
      ensures colorPairs == old(colorPairs) && pairKeys == old(pairKeys) && invalidStrings == old(invalidStrings)
    {
      currentPosition := currentPosition + 1;
    }

    /** valid(): the position is still inside the keys. */
    predicate ValidPosition()
      reads this
    {
      currentPosition < |pairKeys|
    }

    /** key(): the key at the position; PHP's null past the end. */
    function Key(): (k: Option<string>)
      reads this
      ensures k.Some? <==> ValidPosition()
      ensures k.Some? ==> k.value == pairKeys[currentPosition]
      ensures Valid() && k.Some? ==> k.value in colorPairs.values
    {
      if currentPosition < |pairKeys| then Some(pairKeys[currentPosition]) else None
    }

    /**
     * current(): the pair stored under the key at the position, which is a
     * storable pair whose key that is; PHP's null past the end.
     */
    function Current(): (c: Option<ColorContext>)
      reads this
      ensures Valid() ==> (c.Some? <==> ValidPosition())
      ensures Valid() && c.Some? ==> ColorContexts.ToString(c.value) == pairKeys[currentPosition] && Storable(c.value)
      ensures c.Some? ==>
        ValidPosition() && pairKeys[currentPosition] in colorPairs.values && c.value == colorPairs.values[pairKeys[currentPosition]]
    {
      if currentPosition < |pairKeys| && pairKeys[currentPosition] in colorPairs.values then
        Some(colorPairs.values[pairKeys[currentPosition]])
      else None
    }
  }

  // ---------------------------------------------------------------------
  // Properties.

  /** One more entry adds its colour, if it reads as one, under its string. */
  lemma CollectStep(ps: seq<Processor>, es: seq<Entry>, i: nat)
    requires i < |es|
    ensures Read(ps, es[i]).Some? ==>
      Collect(ps, es[..i + 1]) == Put(Collect(ps, es[..i]), Colors.ToString(Read(ps, es[i]).value), Read(ps, es[i]).value)
    ensures Read(ps, es[i]).None? ==> Collect(ps, es[..i + 1]) == Collect(ps, es[..i])
  {
    assert es[..i + 1][..i] == es[..i];
    var r := Read(ps, es[i]);
    if r.Some? {
      PutEachAppend(Empty(), Colors.ToString, Readable(ps, es[..i]), [r.value]);
      PutEachOne(PutEach(Empty(), Colors.ToString, Readable(ps, es[..i])), Colors.ToString, r.value);
    }
  }

  /** A colour is among those read exactly when some entry reads as it. */
  lemma {:induction false} ReadableExactly(ps: seq<Processor>, es: seq<Entry>, c: Color)
    ensures c in Readable(ps, es) <==> exists i :: 0 <= i < |es| && Read(ps, es[i]) == Some(c)
    decreases |es|
  {
    if es != [] {
      var front := es[..|es| - 1];
      ReadableExactly(ps, front, c);
      assert forall i :: 0 <= i < |front| ==> front[i] == es[i];
      if !(c in Readable(ps, front)) && Read(ps, es[|es| - 1]) != Some(c) {
        assert forall i :: 0 <= i < |es| ==> i < |front| || Read(ps, es[i]) != Some(c);
      }
    }
  }

  /** Each colour kept sits under its own string, and is what some entry reads as. */
  lemma CollectSound(ps: seq<Processor>, es: seq<Entry>, k: string)
    requires k in Collect(ps, es).values
    ensures Colors.ToString(Collect(ps, es).values[k]) == k
    ensures exists i :: 0 <= i < |es| && Read(ps, es[i]) == Some(Collect(ps, es).values[k])
  {
    var vs := Readable(ps, es);
    PutEachValue(Empty(), Colors.ToString, vs, k);
    var j :| 0 <= j < |vs| && Colors.ToString(vs[j]) == k && Collect(ps, es).values[k] == vs[j];
    ReadableExactly(ps, es, vs[j]);
  }

  /** Every entry that reads as a colour has that colour's string among the keys. */
  lemma CollectComplete(ps: seq<Processor>, es: seq<Entry>, i: nat)
    requires i < |es| && Read(ps, es[i]).Some?
    ensures Colors.ToString(Read(ps, es[i]).value) in Collect(ps, es).values
  {
    var vs := Readable(ps, es);
    var c := Read(ps, es[i]).value;
    ReadableExactly(ps, es, c);
    var j :| 0 <= j < |vs| && vs[j] == c;
    PutEachHas(Empty(), Colors.ToString, vs, Colors.ToString(c));
  }

  /** A string is reported invalid exactly when it is an entry no processor reads. */
  lemma {:induction false} RejectedExactly(ps: seq<Processor>, es: seq<Entry>, s: string)
    ensures s in Rejected(ps, es) <==> exists i :: 0 <= i < |es| && es[i] == Text(s) && FirstMatch(ps, s).None?
    decreases |es|
  {
    if es != [] {
      var front := es[..|es| - 1];
      RejectedExactly(ps, front, s);
      assert forall i :: 0 <= i < |front| ==> front[i] == es[i];
      if s in Rejected(ps, front) {
        var i :| 0 <= i < |front| && front[i] == Text(s) && FirstMatch(ps, s).None?;
        assert es[i] == Text(s);
      }
    }
  }

  /** Invalid strings keep the input order: the ones of a longer input extend those of a prefix. */
  lemma {:induction false} RejectedInOrder(ps: seq<Processor>, es: seq<Entry>, more: seq<Entry>)
    ensures Rejected(ps, es + more) == Rejected(ps, es) + Rejected(ps, more)
    decreases |more|
  {
    if more == [] {
      assert es + more == es;
    } else {
      var front := more[..|more| - 1];
      assert (es + more)[..|es + more| - 1] == es + front;
      assert (es + more)[|es + more| - 1] == more[|more| - 1];
      RejectedInOrder(ps, es, front);
    }
  }

  /** Writing storable pairs keeps every pair storable and under its key. */
  lemma PutPairsKeyed(t: Table<ColorContext>, cs: seq<ColorContext>)
    requires Keyed(t)
    requires forall i :: 0 <= i < |cs| ==> Storable(cs[i])
    ensures Keyed(PutPairs(t, cs))
  {
    var r := PutPairs(t, cs);
    forall k | k in r.values
      ensures ColorContexts.ToString(r.values[k]) == k && Storable(r.values[k])
    {
      PutEachValue(t, ColorContexts.ToString, cs, k);
    }
  }

  /** One more foreground extends the row by its stored pairs. */
  lemma RowStep(b: Blender, t: Table<ColorContext>, colors: seq<Color>, j: nat, bg: Color)
    requires Resolves(b) && j < |colors|
    ensures PutPairs(PutPairs(t, Row(b, colors[..j], bg)), Stored(b, colors[j], bg)) == PutPairs(t, Row(b, colors[..j + 1], bg))
  {
    PutEachAppend(t, ColorContexts.ToString, Row(b, colors[..j], bg), Stored(b, colors[j], bg));
    assert colors[..j + 1][..j] == colors[..j];
  }

  /** One more background extends the pairs by its row. */
  lemma PairsStep(b: Blender, t: Table<ColorContext>, colors: seq<Color>, i: nat)
    requires Resolves(b) && i < |colors|
    ensures PutPairs(PutPairs(t, Pairs(b, colors, colors[..i])), Row(b, colors, colors[i])) == PutPairs(t, Pairs(b, colors, colors[..i + 1]))
  {
    PutEachAppend(t, ColorContexts.ToString, Pairs(b, colors, colors[..i]), Row(b, colors, colors[i]));
    assert colors[..i + 1][..i] == colors[..i];
  }

  /** The backdrops are the opaque white and black the source constructs. */
  lemma Backdrops()
    ensures White == NewColor(255.0, 255.0, 255.0, 1.0)
    ensures Black == NewColor(0.0, 0.0, 0.0, 1.0)
  {
    NewColorKeepsIntegers(255, 255, 255, 100);
    NewColorKeepsIntegers(0, 0, 0, 100);
  }

  /** A colour given on its own makes no pair with itself. */
  lemma SingleColour(b: Blender, c: Color)
    requires Resolves(b)
    ensures Pairs(b, [c], [c]) == []
  {
    assert [c][..0] == [];
  }

  /** A row of two foregrounds is the pairs of the first, then those of the second. */
  lemma RowOfTwo(b: Blender, f0: Color, f1: Color, bg: Color)
    requires Resolves(b)
    ensures Row(b, [f0, f1], bg) == Stored(b, f0, bg) + Stored(b, f1, bg)
  {
    assert [f0, f1][..1] == [f0];
    assert [f0][..0] == [];
  }

  /** The pairs of two backgrounds are the first one's row, then the second one's. */
  lemma PairsOfTwo(b: Blender, colors: seq<Color>, g0: Color, g1: Color)
    requires Resolves(b)
    ensures Pairs(b, colors, [g0, g1]) == Row(b, colors, g0) + Row(b, colors, g1)
  {
    assert [g0, g1][..1] == [g0];
    assert [g0][..0] == [];
    assert Pairs(b, colors, [g0]) == [] + Row(b, colors, g0);
  }

  /**
   * Two different opaque colours make two pairs, the second over the first
   * before the first over the second: backgrounds are the outer loop.
   */
  lemma TwoColours(b: Blender, c0: Color, c1: Color)
    requires Resolves(b)
    requires !Translucent(c0) && !Translucent(c1) && !Equals(c0, c1)
    ensures Pairs(b, [c0, c1], [c0, c1]) == [ColorContext(c1, c0), ColorContext(c0, c1)]
  {
    RowOfTwo(b, c0, c1, c0);
    RowOfTwo(b, c0, c1, c1);
    PairsOfTwo(b, [c0, c1], c0, c1);
    assert Stored(b, c0, c0) == [] && Stored(b, c1, c1) == [];
    assert Stored(b, c1, c0) == [ColorContext(c1, c0)];
    assert Stored(b, c0, c1) == [ColorContext(c0, c1)];
  }

  /** The palette of two different opaque colours iterates over the second on the first, then the first on the second. */
  lemma TwoColourKeys(b: Blender, c0: Color, c1: Color)
    requires Resolves(b)
    requires !Translucent(c0) && !Translucent(c1) && !Equals(c0, c1)
    ensures PairTable(b, [c0, c1]).keys == [ColorContexts.ToString(ColorContext(c1, c0)), ColorContexts.ToString(ColorContext(c0, c1))]
  {
    TwoColours(b, c0, c1);
    var x, y := ColorContext(c1, c0), ColorContext(c0, c1);
    ColorContexts.ToStringInjective(x, y);
    PutEachTwo(ColorContexts.ToString, x, y);
  }

  /** The same colour given twice is kept once, under its key. */
  lemma DuplicateKeptOnce(ps: seq<Processor>, c: Color)
    ensures Collect(ps, [Given(c), Given(c)]) == Collect(ps, [Given(c)])
  {
    var k := Colors.ToString(c);
    assert [Given(c), Given(c)][..1] == [Given(c)];
    assert [Given(c)][..0] == [];
    assert Readable(ps, [Given(c)]) == [] + [c];
    assert Readable(ps, [Given(c), Given(c)]) == [c] + [c];
    PutEachAppend(Empty(), Colors.ToString, [c], [c]);
    PutEachOne(Empty(), Colors.ToString, c);
    PutEachOne(Put(Empty(), k, c), Colors.ToString, c);
    PutTwice(Empty(), k, c, c);
  }

  /**
   * With opaque colours only, a row holds exactly the pairs of the
   * background with the foregrounds that differ from it.
   */
  lemma {:induction false} OpaqueRow(b: Blender, fgs: seq<Color>, bg: Color, ctx: ColorContext)
    requires Resolves(b)
    requires !Translucent(bg) && forall i :: 0 <= i < |fgs| ==> !Translucent(fgs[i])
    ensures ctx in Row(b, fgs, bg) <==> ctx.background == bg && !Equals(ctx.foreground, bg) && ctx.foreground in fgs
    decreases |fgs|
  {
    if fgs != [] {
      var front := fgs[..|fgs| - 1];
      var last := fgs[|fgs| - 1];
      OpaqueRow(b, front, bg, ctx);
      assert fgs == front + [last];
      assert ctx.foreground in fgs <==> ctx.foreground in front || ctx.foreground == last;
    }
  }
}
