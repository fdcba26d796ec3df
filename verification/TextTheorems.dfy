/** What text on the screen looks like, whatever the order it was drawn in. */
module TextTheorems {
  import opened Raster
  import opened Words
  import opened Channels
  import opened Blending
  import opened TextLayout
  import opened SimpleText

  // The picture `m'` is `m` with the disjoint glyphs `ps` drawn on it.
  ghost predicate TextShown(canvas: Canvas, m: Bytes, m': Bytes, ps: seq<Placement>) {
    && Supported(canvas.depth) && canvas.FrameInside(|m|) && AllValid(ps) && AllApart(ps)
    && AllInside(ps, canvas.rows, canvas.frame.line)
    && m' == DrawAll(canvas, m, ps)
  }

  /** Every glyph pixel of a text of disjoint glyphs is that glyph's own; every other pixel is none's. */
  lemma {:induction false} TextPixelIs(canvas: Canvas, m: Bytes, ps: seq<Placement>, r: nat, c: nat)
    requires Supported(canvas.depth) && canvas.frame.unit == Unit(canvas.depth) && AllValid(ps) && AllApart(ps)
    ensures forall p | p in ps && p.Covers(r, c) :: canvas.TextPixel(m, ps, r, c) == Some(canvas.Inked(m, p, r, c))
    ensures (forall p | p in ps :: !p.Covers(r, c)) ==> canvas.TextPixel(m, ps, r, c) == None
  {
    if ps == [] {
    } else {
      var last, most := ps[|ps| - 1], ps[..|ps| - 1];
      TextPixelIs(canvas, m, most, r, c);
      forall p | p in ps && p.Covers(r, c)
        ensures canvas.TextPixel(m, ps, r, c) == Some(canvas.Inked(m, p, r, c))
      {
        if p != last {
          var i :| 0 <= i < |ps| && ps[i] == p;
          assert Apart(ps[i], ps[|ps| - 1]);
        }
      }
    }
  }

  // The channels of a drawn pixel are the channels it was drawn with.
  lemma InkReadsBack(canvas: Canvas, m: Bytes, p: Placement, r: nat, c: nat)
    requires Supported(canvas.depth) && canvas.frame.unit == Unit(canvas.depth) && p.Covers(r, c) && p.glyph.Valid()
    ensures ReadPixel(canvas.depth, canvas.Inked(m, p, r, c)) == canvas.Ink(m, p, r, c)
    ensures canvas.Ink(m, p, r, c) == canvas.GlyphColour(m, p, r, c)
  {
    hide ReadPixel, MergeColorChannels, SeparateColorChannels, MixRgb, Blended, Grid.At;
    var font, ink := SeparateColorChannels(canvas.depth, Bytes32(p.color)), canvas.Ink(m, p, r, c);
    ClippingIsIdle(canvas.depth, font, canvas.Behind(m, r, c), p.AlphaAt(r, c));
    var merged := MergeColorChannels(canvas.depth, ink);
    var q := canvas.Inked(m, p, r, c);
    assert canvas.depth == 16 ==> q == merged + [];
    assert canvas.depth == 24 ==> q == merged + [];
    assert canvas.depth == 32 ==> q == merged + [canvas.stale(r, c)];
    MergedComesBack(canvas.depth, ink, []);
    MergedComesBack(canvas.depth, ink, [canvas.stale(r, c)]);
  }

  // `m'` is `m` with a text printed on it whose lines do not overlap.
  ghost predicate Printed(canvas: Canvas, style: Style, top: nat, text: string, m: Bytes, m': Bytes) {
    && canvas.FrameInside(|m|)
    && Printable(text) && LowLines(style, text)
    && var ps := Layout(style, top, text).placed;
    AllInside(ps, canvas.rows, canvas.frame.line) && AllValid(ps) && m' == DrawAll(canvas, m, ps)
  }

  /** The closed form of a printed string: a pixel of a glyph has the glyph's colour blended, by the glyph's
      own alpha, with the old picture or with the background colour; every other pixel of the frame, and every
      byte outside the frame, is as it was. At an unsupported depth everything is as it was. */
  lemma PrintedText(canvas: Canvas, style: Style, top: nat, text: string, m: Bytes, m': Bytes)
    requires Printed(canvas, style, top, text, m, m')
    ensures |m'| == |m|
    ensures forall p, r: nat, c: nat
              | p in Layout(style, top, text).placed && p.Covers(r, c) && Supported(canvas.depth) ::
              canvas.ChannelsAt(m', r, c) == canvas.GlyphColour(m, p, r, c)
    ensures forall r: nat, c: nat | r < canvas.rows && c < canvas.frame.line
                                 && (forall p | p in Layout(style, top, text).placed :: !p.Covers(r, c)) ::
              canvas.PixelAt(m', r, c) == canvas.PixelAt(m, r, c)
    ensures forall a: nat | a < |m| && (!Supported(canvas.depth) || !canvas.Owns(a)) :: m'[a] == m[a]
  {
    hide Canvas.GlyphColour, Canvas.PixelAt, Canvas.ChannelsAt, Canvas.Owns;
    var ps := Layout(style, top, text).placed;
    GlyphsApart(style, top, text);
    forall p, r: nat, c: nat | p in ps && p.Covers(r, c) && Supported(canvas.depth)
      ensures canvas.ChannelsAt(m', r, c) == canvas.GlyphColour(m, p, r, c)
    {
      GlyphPixel(canvas, m, m', ps, p, r, c);
    }
    forall a: nat | a < |m| && (!Supported(canvas.depth) || !canvas.Owns(a))
      ensures m'[a] == m[a]
    {
      DrawnInside(canvas, m, ps, a);
    }
    if Supported(canvas.depth) {
      forall r: nat, c: nat | r < canvas.rows && c < canvas.frame.line && (forall p | p in ps :: !p.Covers(r, c))
        ensures canvas.PixelAt(m', r, c) == canvas.PixelAt(m, r, c)
      {
        OtherPixel(canvas, m, m', ps, r, c);
      }
    } else {
      assert m' == m;
    }
  }

  // ----- glyphs over glyphs

  /** The channels a pixel ends with when glyphs are drawn over each other: every glyph that covers it is blended
      with what the earlier ones have left, or with the background colour. */
  ghost function Layered(canvas: Canvas, m: Bytes, ps: seq<Placement>, r: nat, c: nat): Rgb
    requires canvas.frame.unit == Unit(canvas.depth) && AllValid(ps)
  {
    if ps == [] then canvas.ChannelsAt(m, r, c)
    else
      var before, p := Layered(canvas, m, ps[..|ps| - 1], r, c), ps[|ps| - 1];
      if !p.Covers(r, c) then before
      else
        MixRgb(SeparateColorChannels(canvas.depth, Bytes32(p.color)),
               if canvas.background == CLEAR_BACKGROUND then before
               else SeparateColorChannels(canvas.depth, Bytes32(canvas.background)), p.AlphaAt(r, c))
  }

  /** Every printed text, overlapping or not: each pixel of the frame has the channels of the layers over it. */
  lemma {:induction false} LayersShow(canvas: Canvas, m: Bytes, ps: seq<Placement>, r: nat, c: nat)
    requires canvas.FrameInside(|m|) && AllValid(ps) && AllInside(ps, canvas.rows, canvas.frame.line)
    requires r < canvas.rows && c < canvas.frame.line
    ensures canvas.ChannelsAt(DrawAll(canvas, m, ps), r, c) == Layered(canvas, m, ps, r, c)
  {
    hide ReadPixel, SeparateColorChannels, MixRgb, DrawGlyph, Bytes32;
    hide Canvas.ChannelsAt, Canvas.Inked, Canvas.Ink, Grid.At;
    if ps == [] {
    } else {
      LayersShow(canvas, m, ps[..|ps| - 1], r, c);
      OneLayer(canvas, DrawAll(canvas, m, ps[..|ps| - 1]), ps[|ps| - 1], r, c);
    }
  }

  // What one glyph does to a pixel.
  lemma OneLayer(canvas: Canvas, m: Bytes, p: Placement, r: nat, c: nat)
    requires canvas.FrameInside(|m|) && p.glyph.Valid() && p.Inside(canvas.rows, canvas.frame.line)
    requires r < canvas.rows && c < canvas.frame.line
    ensures canvas.ChannelsAt(DrawGlyph(canvas, m, p), r, c)
         == if p.Covers(r, c) then canvas.GlyphColour(m, p, r, c) else canvas.ChannelsAt(m, r, c)
  {
    hide ReadPixel, SeparateColorChannels, MixRgb, DrawGlyph, Canvas.Inked, Canvas.Ink, Grid.At, Bytes32;
    var m' := DrawGlyph(canvas, m, p);
    if !Supported(canvas.depth) {
      BlackAtOtherDepths(canvas, m, r, c);
      BlackAtOtherDepths(canvas, m', r, c);
      if p.Covers(r, c) {
        BlackStaysBlack(canvas, m, p, r, c);
      }
    } else {
      GlyphDrawn(canvas, m, p);
      if p.Covers(r, c) {
        assert Shows(m', canvas.frame, canvas.Drawing(m, p), r, c);
        InkReadsBack(canvas, m, p, r, c);
      } else {
        PixelInMemory(canvas.frame, canvas.rows, |m|, r, c);
        PaintedKeeps(m, m', canvas.frame, canvas.rows, canvas.frame.line, canvas.Drawing(m, p), r, c);
      }
    }
  }

  lemma BlackStaysBlack(canvas: Canvas, m: Bytes, p: Placement, r: nat, c: nat)
    requires canvas.frame.unit == Unit(canvas.depth) && !Supported(canvas.depth) && p.Covers(r, c) && p.glyph.Valid()
    ensures canvas.GlyphColour(m, p, r, c) == Rgb(0, 0, 0)
  {
    hide MixRgb;
    BlackAtOtherDepths(canvas, m, r, c);
    SelfBlend(Rgb(0, 0, 0), p.AlphaAt(r, c));
  }

  lemma GlyphPixel(canvas: Canvas, m: Bytes, m': Bytes, ps: seq<Placement>, p: Placement, r: nat, c: nat)
    requires TextShown(canvas, m, m', ps) && p in ps && r < canvas.rows && c < canvas.frame.line && p.Covers(r, c)
    ensures canvas.PixelAt(m', r, c) == canvas.Inked(m, p, r, c)
    ensures canvas.ChannelsAt(m', r, c) == canvas.GlyphColour(m, p, r, c)
  {
    hide Canvas.Inked, Canvas.Ink, MixRgb, ReadPixel, SeparateColorChannels, Grid.At;
    TextPixelIs(canvas, m, ps, r, c);
    DisjointGlyphsDrawn(canvas, m, ps);
    assert Shows(m', canvas.frame, canvas.Text(m, ps), r, c);
    InkReadsBack(canvas, m, p, r, c);
  }

  lemma OtherPixel(canvas: Canvas, m: Bytes, m': Bytes, ps: seq<Placement>, r: nat, c: nat)
    requires TextShown(canvas, m, m', ps) && r < canvas.rows && c < canvas.frame.line
    requires forall p | p in ps :: !p.Covers(r, c)
    ensures canvas.PixelAt(m', r, c) == canvas.PixelAt(m, r, c)
  {
    TextPixelIs(canvas, m, ps, r, c);
    DisjointGlyphsDrawn(canvas, m, ps);
    PixelInMemory(canvas.frame, canvas.rows, |m|, r, c);
    PaintedKeeps(m, m', canvas.frame, canvas.rows, canvas.frame.line, canvas.Text(m, ps), r, c);
  }

  // A glyph in the background colour fills its box with it.
  lemma BoxFilled(canvas: Canvas, m: Bytes, m': Bytes, ps: seq<Placement>, p: Placement, r: nat, c: nat)
    requires TextShown(canvas, m, m', ps) && p in ps && r < canvas.rows && c < canvas.frame.line && p.Covers(r, c)
    requires p.color == canvas.background != CLEAR_BACKGROUND
    ensures canvas.ChannelsAt(m', r, c) == SeparateColorChannels(canvas.depth, Bytes32(canvas.background))
    ensures var n := if canvas.depth == 16 then 2 else 3;
            canvas.PixelAt(m', r, c)[..n] == Bytes32(canvas.background)[..n]
  {
    hide SeparateColorChannels, MergeColorChannels, ReadPixel, MixRgb, Grid.At, Painted, Bytes32, Canvas.Text;
    var color := Bytes32(canvas.background);
    var channels := SeparateColorChannels(canvas.depth, color);
    GlyphPixel(canvas, m, m', ps, p, r, c);
    InkReadsBack(canvas, m, p, r, c);
    SelfBlend(channels, p.AlphaAt(r, c));
    SplitMergeRestores(canvas.depth, color);
    assert canvas.Ink(m, p, r, c) == channels;
  }

  /** A space fills the box of a '-' at its place, and a tab `TAB_SPACING` adjacent ones, with the background
      colour, whatever the '-' of the font looks like. */
  lemma BlankFills(canvas: Canvas, style: Style, top: nat, text: string, m: Bytes, m': Bytes,
                   i: nat, t: nat, r: nat, c: nat)
    requires Supported(canvas.depth) && Printed(canvas, style, top, text, m, m')
    requires style.background == canvas.background != CLEAR_BACKGROUND && i < |text| && t < BlankBoxes(text[i])
    requires BlankBox(style, Layout(style, top, text[..i]), t).Covers(r, c)
    ensures canvas.ChannelsAt(m', r, c) == SeparateColorChannels(canvas.depth, Bytes32(canvas.background))
    ensures var n := if canvas.depth == 16 then 2 else 3;
            canvas.PixelAt(m', r, c)[..n] == Bytes32(canvas.background)[..n]
  {
    hide Layout, SeparateColorChannels, Bytes32, DrawAll;
    var p := BlankBox(style, Layout(style, top, text[..i]), t);
    BlankAdds(style, top, text, i, t);
    GlyphsApart(style, top, text);
    BoxFilled(canvas, m, m', Layout(style, top, text).placed, p, r, c);
  }

  /** Every pixel of every visible character of a printed text: the text's colour blended, by the character's own
      alpha map read row by row, with the old picture or with the background colour. */
  lemma CharacterShows(canvas: Canvas, style: Style, top: nat, text: string, m: Bytes, m': Bytes,
                       i: nat, glyph: Glyph, row: nat, col: nat, r: nat, c: nat)
    requires Supported(canvas.depth) && Printed(canvas, style, top, text, m, m')
    requires i < |text| && 33 <= text[i] as int <= 126 && glyph == style.font[text[i] as int - 33]
    requires row < glyph.height && r == top + Newlines(text[..i]) * style.font[91].height + row
    requires col < glyph.width && c == style.left + Length(style.font, LastLine(text[..i])) + col
    ensures 0 <= row * glyph.width + col < |glyph.alphaMap| && r < canvas.rows && c < canvas.frame.line
    ensures canvas.ChannelsAt(m', r, c)
         == MixRgb(SeparateColorChannels(canvas.depth, Bytes32(style.color)),
                   if canvas.background == 0xffff_ffff then canvas.ChannelsAt(m, r, c)
                   else SeparateColorChannels(canvas.depth, Bytes32(canvas.background)),
                   glyph.alphaMap[row * glyph.width + col])
  {
    hide Layout, Length, LastLine, Newlines;
    hide SeparateColorChannels, Bytes32, DrawAll, MixRgb, ReadPixel, Canvas.ChannelsAt;
    VisiblePlaced(style, top, text, i);
    var p := Placement(c - col, r - row, style.color, glyph);
    GlyphsApart(style, top, text);
    assert glyph in style.font && p.Inside(canvas.rows, canvas.frame.line) && p.Covers(r, c);
    glyph.Index(row, col);
    GlyphPixel(canvas, m, m', Layout(style, top, text).placed, p, r, c);
  }

  // ----- drawing a glyph over itself

  // Pictures each of which is the one before with the glyph drawn on it.
  ghost predicate Redrawn(canvas: Canvas, p: Placement, pictures: seq<Bytes>, stales: seq<(nat, nat) -> bv8>) {
    && |pictures| == |stales| + 1
    && p.glyph.Valid() && p.Inside(canvas.rows, canvas.frame.line)
    && canvas.FrameInside(|pictures[0]|)
    && forall k | 0 <= k < |stales| ::
         |pictures[k]| == |pictures[0]| && pictures[k + 1] == DrawGlyph(canvas.(stale := stales[k]), pictures[k], p)
  }

  // A channel, and all channels, after `n` redraws.
  ghost predicate ChannelFollows(font: bv8, first: bv8, last: bv8, alpha: bv8, n: nat) {
    last as int == Redraw(font as int, first as int, alpha as int, n)
  }

  ghost predicate Follows(font: Rgb, first: Rgb, last: Rgb, alpha: bv8, n: nat) {
    && ChannelFollows(font.red, first.red, last.red, alpha, n)
    && ChannelFollows(font.green, first.green, last.green, alpha, n)
    && ChannelFollows(font.blue, first.blue, last.blue, alpha, n)
  }

  lemma FollowsOn(font: Rgb, first: Rgb, last: Rgb, alpha: bv8, n: nat)
    ensures Follows(font, first, first, alpha, 0)
    ensures Follows(font, first, last, alpha, n) ==> Follows(font, first, MixRgb(font, last, alpha), alpha, n + 1)
  {
    hide Mix, ChannelFollows;
    ChannelFollowsOn(font.red, first.red, last.red, alpha, n);
    ChannelFollowsOn(font.green, first.green, last.green, alpha, n);
    ChannelFollowsOn(font.blue, first.blue, last.blue, alpha, n);
  }

  lemma ChannelFollowsOn(font: bv8, first: bv8, last: bv8, alpha: bv8, n: nat)
    ensures ChannelFollows(font, first, first, alpha, 0)
    ensures ChannelFollows(font, first, last, alpha, n) ==>
              ChannelFollows(font, first, Mix(font, last, alpha), alpha, n + 1)
  {
    hide Mix, Blend;
  }

  /** On a clear background every channel of every glyph pixel follows the redraw recurrence. */
  lemma {:induction false} RedrawnChannels(canvas: Canvas, p: Placement, pictures: seq<Bytes>,
                                           stales: seq<(nat, nat) -> bv8>, r: nat, c: nat)
    requires Redrawn(canvas, p, pictures, stales) && canvas.background == CLEAR_BACKGROUND
    requires r < canvas.rows && c < canvas.frame.line && p.Covers(r, c)
    ensures Follows(SeparateColorChannels(canvas.depth, Bytes32(p.color)), canvas.ChannelsAt(pictures[0], r, c),
                    canvas.ChannelsAt(pictures[|stales|], r, c), p.AlphaAt(r, c), |stales|)
    decreases |stales|
  {
    hide ReadPixel, SeparateColorChannels, Grid.At, DrawGlyph, Canvas.ChannelsAt, Follows, MixRgb, Bytes32;
    var n, font := |stales|, SeparateColorChannels(canvas.depth, Bytes32(p.color));
    var first := canvas.ChannelsAt(pictures[0], r, c);
    if n == 0 {
      FollowsOn(font, first, first, p.AlphaAt(r, c), 0);
    } else {
      RedrawnChannels(canvas, p, pictures[..n], stales[..n - 1], r, c);
      SameChannels(canvas, stales[n - 1], pictures[n - 1], r, c);
      SameChannels(canvas, stales[n - 1], pictures[n], r, c);
      RedrawStep(canvas.(stale := stales[n - 1]), p, pictures[n - 1], pictures[n], r, c);
      FollowsOn(font, first, canvas.ChannelsAt(pictures[n - 1], r, c), p.AlphaAt(r, c), n - 1);
    }
  }

  lemma SameChannels(canvas: Canvas, stale: (nat, nat) -> bv8, m: Bytes, r: nat, c: nat)
    requires canvas.frame.unit == Unit(canvas.depth)
    ensures canvas.(stale := stale).ChannelsAt(m, r, c) == canvas.ChannelsAt(m, r, c)
  {
  }

  lemma RedrawStep(canvas: Canvas, p: Placement, m: Bytes, m': Bytes, r: nat, c: nat)
    requires canvas.FrameInside(|m|) && p.glyph.Valid() && p.Inside(canvas.rows, canvas.frame.line)
    requires canvas.background == CLEAR_BACKGROUND && m' == DrawGlyph(canvas, m, p)
    requires r < canvas.rows && c < canvas.frame.line && p.Covers(r, c)
    ensures canvas.ChannelsAt(m', r, c)
         == MixRgb(SeparateColorChannels(canvas.depth, Bytes32(p.color)), canvas.ChannelsAt(m, r, c), p.AlphaAt(r, c))
  {
    hide DrawGlyph, MixRgb, SeparateColorChannels, ReadPixel, Canvas.ChannelsAt;
    OneLayer(canvas, m, p, r, c);
  }

  // The channel, and all channels, a redrawn pixel ends with.
  ghost predicate ChannelSettled(font: bv8, first: bv8, last: bv8, alpha: bv8)
    requires alpha as int >= 1
  {
    last as int == SettledLevel(font as int, first as int, alpha as int)
  }

  ghost predicate ChannelsSettled(font: Rgb, first: Rgb, last: Rgb, alpha: bv8)
    requires alpha as int >= 1
  {
    && ChannelSettled(font.red, first.red, last.red, alpha)
    && ChannelSettled(font.green, first.green, last.green, alpha)
    && ChannelSettled(font.blue, first.blue, last.blue, alpha)
  }

  /** From the 255th redraw of a visible glyph pixel on its channels stay where they settle: at the font colour, or,
      if they were darker, short of it by `254 / alpha`, or unchanged if they were no further away at first. */
  lemma RedrawSettles(canvas: Canvas, p: Placement, pictures: seq<Bytes>, stales: seq<(nat, nat) -> bv8>,
                      r: nat, c: nat)
    requires Redrawn(canvas, p, pictures, stales) && canvas.background == CLEAR_BACKGROUND
    requires r < canvas.rows && c < canvas.frame.line && p.Covers(r, c) && p.AlphaAt(r, c) as int >= 1
    ensures forall k | 255 <= k <= |stales| ::
              && canvas.ChannelsAt(pictures[k], r, c) == canvas.ChannelsAt(pictures[255], r, c)
              && ChannelsSettled(SeparateColorChannels(canvas.depth, Bytes32(p.color)),
                                 canvas.ChannelsAt(pictures[0], r, c), canvas.ChannelsAt(pictures[k], r, c),
                                 p.AlphaAt(r, c))
  {
    hide ReadPixel, SeparateColorChannels, Grid.At, DrawGlyph, Canvas.ChannelsAt, ChannelsSettled, Bytes32;
    var font, first := SeparateColorChannels(canvas.depth, Bytes32(p.color)), canvas.ChannelsAt(pictures[0], r, c);
    forall k | 255 <= k <= |stales|
      ensures canvas.ChannelsAt(pictures[k], r, c) == canvas.ChannelsAt(pictures[255], r, c)
      ensures ChannelsSettled(font, first, canvas.ChannelsAt(pictures[k], r, c), p.AlphaAt(r, c))
    {
      SettledAfter(canvas, p, pictures, stales, r, c, 255);
      SettledAfter(canvas, p, pictures, stales, r, c, k);
      SettledAlike(font, first, canvas.ChannelsAt(pictures[255], r, c), canvas.ChannelsAt(pictures[k], r, c),
                   p.AlphaAt(r, c));
    }
  }

  lemma SettledAfter(canvas: Canvas, p: Placement, pictures: seq<Bytes>, stales: seq<(nat, nat) -> bv8>,
                     r: nat, c: nat, k: nat)
    requires Redrawn(canvas, p, pictures, stales) && canvas.background == CLEAR_BACKGROUND
    requires r < canvas.rows && c < canvas.frame.line && p.Covers(r, c) && p.AlphaAt(r, c) as int >= 1
    requires 255 <= k <= |stales|
    ensures ChannelsSettled(SeparateColorChannels(canvas.depth, Bytes32(p.color)), canvas.ChannelsAt(pictures[0], r, c),
                            canvas.ChannelsAt(pictures[k], r, c), p.AlphaAt(r, c))
  {
    hide ReadPixel, SeparateColorChannels, Grid.At, DrawGlyph, Canvas.ChannelsAt, Follows, ChannelsSettled, Bytes32;
    RedrawnChannels(canvas, p, pictures[..k + 1], stales[..k], r, c);
    FollowsToTheEnd(SeparateColorChannels(canvas.depth, Bytes32(p.color)), canvas.ChannelsAt(pictures[0], r, c),
                    canvas.ChannelsAt(pictures[k], r, c), p.AlphaAt(r, c), k);
  }

  // Where a pixel settles is determined.
  lemma SettledAlike(font: Rgb, first: Rgb, a: Rgb, b: Rgb, alpha: bv8)
    requires alpha as int >= 1 && ChannelsSettled(font, first, a, alpha) && ChannelsSettled(font, first, b, alpha)
    ensures a == b
  {
    hide ChannelSettled;
    ChannelAlike(font.red, first.red, a.red, b.red, alpha);
    ChannelAlike(font.green, first.green, a.green, b.green, alpha);
    ChannelAlike(font.blue, first.blue, a.blue, b.blue, alpha);
  }

  lemma ChannelAlike(font: bv8, first: bv8, a: bv8, b: bv8, alpha: bv8)
    requires alpha as int >= 1 && ChannelSettled(font, first, a, alpha) && ChannelSettled(font, first, b, alpha)
    ensures a == b
  {
    hide SettledLevel;
    SameByte(a, b);
  }

  lemma FollowsToTheEnd(font: Rgb, first: Rgb, last: Rgb, alpha: bv8, n: nat)
    requires Follows(font, first, last, alpha, n) && alpha as int >= 1 && n >= 255
    ensures ChannelsSettled(font, first, last, alpha)
  {
    hide ChannelFollows, ChannelSettled;
    ChannelToTheEnd(font.red, first.red, last.red, alpha, n);
    ChannelToTheEnd(font.green, first.green, last.green, alpha, n);
    ChannelToTheEnd(font.blue, first.blue, last.blue, alpha, n);
  }

  lemma ChannelToTheEnd(font: bv8, first: bv8, last: bv8, alpha: bv8, n: nat)
    requires ChannelFollows(font, first, last, alpha, n) && alpha as int >= 1 && n >= 255
    ensures ChannelSettled(font, first, last, alpha)
  {
    hide SettledLevel, Redraw;
    RedrawEnds(font as int, first as int, alpha as int, n);
  }
}
