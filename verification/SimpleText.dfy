/** Drawing anti-aliased text into the draw frame (graphic_lib/simple_text.c, with `vid_set_pixel` of
    graphic_lib/simple_graphics.c). */
module SimpleText {
  import opened Raster
  import opened Words
  import opened Channels
  import opened VipFr
  import opened TextLayout

  /** Everything besides the glyphs that decides what text looks like. The top byte of a drawn 32-bit pixel is
      a byte of the stack that the program never sets; `stale` stands for whatever it happens to be. */
  datatype Canvas = Canvas(frame: Grid, rows: nat, depth: int, background: bv32, stale: (nat, nat) -> bv8) {
    // The frame is inside a memory of that size; at a depth the program does not know, nothing is drawn.
    ghost predicate FrameInside(size: nat) {
      && frame.unit == Unit(depth)
      && (Supported(depth) ==> frame.base + rows * frame.line * frame.unit <= size)
    }

    // The bytes of the frame.
    predicate Owns(a: nat) {
      frame.base <= a < frame.base + rows * frame.line * frame.unit
    }

    // The frame's pixel at row `r` and column `c`.
    ghost function PixelAt(m: Bytes, r: nat, c: nat): (p: Bytes)
      ensures |p| == frame.unit
    {
      if frame.At(r, c) + frame.unit <= |m| then m[frame.At(r, c)..frame.At(r, c) + frame.unit]
      else seq(frame.unit, _ => 0)
    }

    ghost function ChannelsAt(m: Bytes, r: nat, c: nat): Rgb
      requires frame.unit == Unit(depth)
    {
      ReadPixel(depth, PixelAt(m, r, c))
    }

    // The colour a glyph is blended with.
    ghost function Behind(m: Bytes, r: nat, c: nat): Rgb
      requires frame.unit == Unit(depth)
    {
      if background == CLEAR_BACKGROUND then ChannelsAt(m, r, c)
      else SeparateColorChannels(depth, Bytes32(background))
    }

    /** The channels a glyph leaves at a pixel it covers. */
    ghost function Ink(m: Bytes, p: Placement, r: nat, c: nat): Rgb
      requires frame.unit == Unit(depth) && p.Covers(r, c) && p.glyph.Valid()
    {
      Blended(depth, SeparateColorChannels(depth, Bytes32(p.color)), Behind(m, r, c), p.AlphaAt(r, c))
    }

    // The same without clipping: the glyph's colour blended, by its own alpha, with what is behind it.
    ghost function GlyphColour(m: Bytes, p: Placement, r: nat, c: nat): Rgb
      requires frame.unit == Unit(depth) && p.Covers(r, c) && p.glyph.Valid()
    {
      MixRgb(SeparateColorChannels(depth, Bytes32(p.color)), Behind(m, r, c), p.AlphaAt(r, c))
    }

    ghost function Inked(m: Bytes, p: Placement, r: nat, c: nat): (q: Bytes)
      requires frame.unit == Unit(depth) && p.Covers(r, c) && p.glyph.Valid()
      ensures |q| == frame.unit
    {
      (MergeColorChannels(depth, Ink(m, p, r, c)) + [stale(r, c)])[..frame.unit]
    }

    // What a glyph stores.
    ghost function Drawing(m: Bytes, p: Placement): Cells
      requires frame.unit == Unit(depth) && p.glyph.Valid()
    {
      (r: nat, c: nat) => if Supported(depth) && p.Covers(r, c) then Some(Inked(m, p, r, c)) else None
    }

    // What a sequence of glyphs stores, each blended with the picture `m`.
    ghost function TextPixel(m: Bytes, ps: seq<Placement>, r: nat, c: nat): Option<Bytes>
      requires frame.unit == Unit(depth) && forall p | p in ps :: p.glyph.Valid()
    {
      if ps == [] || !Supported(depth) then None
      else
        var last := ps[|ps| - 1];
        if last.Covers(r, c) then Some(Inked(m, last, r, c)) else TextPixel(m, ps[..|ps| - 1], r, c)
    }

    ghost function Text(m: Bytes, ps: seq<Placement>): Cells
      requires frame.unit == Unit(depth) && forall p | p in ps :: p.glyph.Valid()
    {
      (r: nat, c: nat) => TextPixel(m, ps, r, c)
    }
  }

  function FrameOf(display: FrameReader): Grid
    reads display
  {
    Grid(display.GetDrawFrame(), display.width, Unit(display.colorDepth))
  }

  // The draw frame is in memory, if the program knows its colour depth.
  ghost predicate Ready(display: FrameReader)
    reads display, display.sdram
  {
    Supported(display.colorDepth) ==>
      display.GetDrawFrame() + display.height * display.width * Unit(display.colorDepth) <= display.sdram.Length
  }

  // Pixels of the frame are in memory.
  lemma PixelInMemory(g: Grid, rows: nat, size: nat, r: nat, c: nat)
    requires g.base + rows * g.line * g.unit <= size && r < rows && c < g.line
    ensures g.base <= g.At(r, c) && g.At(r, c) + g.unit <= size
  {
    MulMono(r + 1, rows, g.line);
    assert (r + 1) * g.line == r * g.line + g.line;
    MulMono(r * g.line + c + 1, rows * g.line, g.unit);
    assert (r * g.line + c + 1) * g.unit == (r * g.line + c) * g.unit + g.unit;
  }

  /** `vid_set_pixel`: stores the low bytes of the colour in one pixel; nothing at an unsupported depth. */
  method VidSetPixel(display: FrameReader, horiz: nat, vert: nat, color: bv32)
    requires Supported(display.colorDepth) ==>
               FrameOf(display).At(vert, horiz) + Unit(display.colorDepth) <= display.sdram.Length
    modifies display.sdram
    ensures display.sdram[..] ==
              if Supported(display.colorDepth)
              then Put(old(display.sdram[..]), FrameOf(display).At(vert, horiz),
                       Bytes32(color)[..Unit(display.colorDepth)])
              else old(display.sdram[..])
  {
    hide Put, Grid.At;
    var m := display.sdram;
    PixelAddress(FrameOf(display), vert, horiz);
    LowBytes(color);
    if display.colorDepth == 32 {
      var addr := display.GetDrawFrame() + vert * (display.width * 4) + horiz * 4;
      Store32(m, addr, color);
    } else if display.colorDepth == 24 {
      var addr := display.GetDrawFrame() + vert * (display.width * 3) + horiz * 3;
      PutBytes(m[..], addr, Bytes32(color)[..3]);
      m[addr] := (color & 0xff) as bv8;
      m[addr + 1] := ((color >> 8) & 0xff) as bv8;
      m[addr + 2] := ((color >> 16) & 0xff) as bv8;
    } else if display.colorDepth == 16 {
      var addr := display.GetDrawFrame() + vert * (display.width * 2) + horiz * 2;
      Store16(m, addr, (color & 0xffff) as bv16);
    }
  }

  // Two ways of computing a pixel's address.
  lemma PixelAddress(g: Grid, vert: nat, horiz: nat)
    ensures g.At(vert, horiz) == g.base + vert * (g.line * g.unit) + horiz * g.unit
    ensures g.At(vert, horiz) == g.base + vert * g.line * g.unit + horiz * g.unit
  {
  }

  lemma LowBytes(color: bv32)
    ensures Bytes16((color & 0xffff) as bv16) == Bytes32(color)[..2]
    ensures Bytes32(color)[..4] == Bytes32(color)
  {
  }

  /** `read_from_frame` */
  method ReadFromFrame(display: FrameReader, horiz: nat, vert: nat) returns (c: Rgb)
    requires Supported(display.colorDepth) ==>
               FrameOf(display).At(vert, horiz) + Unit(display.colorDepth) <= display.sdram.Length
    ensures var a, unit := FrameOf(display).At(vert, horiz), Unit(display.colorDepth);
            c == if Supported(display.colorDepth) then ReadPixel(display.colorDepth, display.sdram[..][a..a + unit])
                 else Rgb(0, 0, 0)
  {
    if !Supported(display.colorDepth) {
      return Rgb(0, 0, 0);
    }
    var unit := Unit(display.colorDepth);
    var addr := display.GetDrawFrame() + vert * display.width * unit + horiz * unit;
    PixelAddress(FrameOf(display), vert, horiz);
    assert display.sdram[addr..addr + unit] == display.sdram[..][addr..addr + unit];
    c := ReadPixel(display.colorDepth, display.sdram[addr..addr + unit]);
  }

  ghost predicate On(canvas: Canvas, display: FrameReader)
    reads display, display.sdram
  {
    && Ready(display)
    && canvas.frame == FrameOf(display) && canvas.rows == display.height && canvas.depth == display.colorDepth
  }

  /** `alpha_blending` */
  method AlphaBlending(display: FrameReader, horiz: nat, vert: nat, background: bv32, alpha: bv8, font: Rgb,
                       ghost canvas: Canvas)
    returns (blended: Rgb)
    requires On(canvas, display) && canvas.background == background && horiz < display.width && vert < display.height
    ensures blended == Blended(display.colorDepth, font, canvas.Behind(display.sdram[..], vert, horiz), alpha)
  {
    hide Grid.At, Blended, ReadPixel, SeparateColorChannels;
    if Supported(display.colorDepth) {
      PixelInMemory(canvas.frame, canvas.rows, display.sdram.Length, vert, horiz);
    }
    BlackAtOtherDepths(canvas, display.sdram[..], vert, horiz);
    var back;
    if background == CLEAR_BACKGROUND {
      back := ReadFromFrame(display, horiz, vert);
    } else {
      back := SeparateColorChannels(display.colorDepth, Bytes32(background));
    }
    blended := Blended(display.colorDepth, font, back, alpha);
  }

  lemma BlackAtOtherDepths(canvas: Canvas, m: Bytes, r: nat, c: nat)
    requires canvas.frame.unit == Unit(canvas.depth)
    ensures !Supported(canvas.depth) ==> canvas.ChannelsAt(m, r, c) == Rgb(0, 0, 0)
  {
  }

  // The glyph's pixels counted from its own corner.
  ghost function Local(canvas: Canvas, m: Bytes, p: Placement): Cells
    requires canvas.frame.unit == Unit(canvas.depth) && p.glyph.Valid()
  {
    (i: nat, j: nat) =>
      if Supported(canvas.depth) && i < p.glyph.height && j < p.glyph.width
      then Some(canvas.Inked(m, p, p.y + i, p.x + j)) else None
  }

  // The memory after the first `i` rows of a glyph and then the first `j` pixels of the next one.
  ghost function Inking(canvas: Canvas, m: Bytes, p: Placement, i: nat, j: nat): (m': Bytes)
    requires canvas.frame.unit == Unit(canvas.depth) && p.glyph.Valid()
    ensures |m'| == |m|
  {
    Paint(m, Within(canvas.frame, p.y, p.x), p.glyph.width, Local(canvas, m, p), i, j)
  }

  // Where a pixel of a glyph lies and what is stored there.
  lemma InkLands(canvas: Canvas, m: Bytes, p: Placement, i: nat, j: nat)
    requires canvas.FrameInside(|m|) && p.glyph.Valid() && p.Inside(canvas.rows, canvas.frame.line)
    requires i < p.glyph.height && j < p.glyph.width
    ensures var l, r, c := Within(canvas.frame, p.y, p.x), p.y + i, p.x + j;
            && canvas.frame.At(r, c) == l.At(i, j) && canvas.frame.unit == l.unit
            && Stores(m, l, Local(canvas, m, p), i, j)
            && Local(canvas, m, p)(i, j) == canvas.Drawing(m, p)(r, c)
            && (Supported(canvas.depth) <==> canvas.Drawing(m, p)(r, c).Some?)
  {
    hide Canvas.Inked, Grid.At;
    AllStored(canvas, m, p);
    WithinAt(canvas.frame, p.y, p.x, i, j);
  }

  // The alpha values are read in the order of the pixels.
  lemma AlphaRuns(p: Placement, i: nat, j: nat)
    requires p.glyph.Valid() && i < p.glyph.height && j < p.glyph.width
    ensures 0 <= i * p.glyph.width + j < |p.glyph.alphaMap|
    ensures p.AlphaAt(p.y + i, p.x + j) == p.glyph.alphaMap[i * p.glyph.width + j]
  {
    p.glyph.Index(i, j);
  }

  // Just before a pixel of a glyph is drawn the frame still has what was there at first.
  lemma BehindInk(canvas: Canvas, m: Bytes, p: Placement, i: nat, j: nat)
    requires canvas.FrameInside(|m|) && p.glyph.Valid() && p.Inside(canvas.rows, canvas.frame.line)
    requires i < p.glyph.height && j < p.glyph.width
    ensures canvas.Behind(Inking(canvas, m, p, i, j), p.y + i, p.x + j) == canvas.Behind(m, p.y + i, p.x + j)
  {
    hide Canvas.Inked, Grid.At, Paint, ReadPixel, Local, Within;
    AllStored(canvas, m, p);
    InkLands(canvas, m, p, i, j);
    BlackAtOtherDepths(canvas, m, p.y + i, p.x + j);
    BlackAtOtherDepths(canvas, Inking(canvas, m, p, i, j), p.y + i, p.x + j);
    if Supported(canvas.depth) {
      PaintAhead(m, Within(canvas.frame, p.y, p.x), p.glyph.width, Local(canvas, m, p), i, j);
    }
  }

  // Drawing one more pixel of a glyph.
  lemma NextInk(canvas: Canvas, m: Bytes, p: Placement, i: nat, j: nat)
    requires canvas.FrameInside(|m|) && p.glyph.Valid() && p.Inside(canvas.rows, canvas.frame.line)
    requires i < p.glyph.height && j < p.glyph.width
    ensures Inking(canvas, m, p, i, j + 1)
         == Plot(Inking(canvas, m, p, i, j), canvas.frame, canvas.Drawing(m, p), p.y + i, p.x + j)
  {
    hide Canvas.Drawing, Grid.At, Put, Local, Within;
    InkLands(canvas, m, p, i, j);
  }

  // The first pixel of a glyph, the end of a row, and the end of the glyph.
  lemma InkRows(canvas: Canvas, m: Bytes, p: Placement, i: nat)
    requires canvas.frame.unit == Unit(canvas.depth) && p.glyph.Valid()
    ensures Inking(canvas, m, p, 0, 0) == m
    ensures Inking(canvas, m, p, i + 1, 0) == Inking(canvas, m, p, i, p.glyph.width)
    ensures (i + 1) * p.glyph.width == i * p.glyph.width + p.glyph.width
    ensures DrawGlyph(canvas, m, p) == Inking(canvas, m, p, p.glyph.height, 0)
  {
  }

  lemma AllStored(canvas: Canvas, m: Bytes, p: Placement)
    requires canvas.FrameInside(|m|) && p.glyph.Valid() && p.Inside(canvas.rows, canvas.frame.line)
    ensures forall r: nat, c: nat :: Stores(m, Within(canvas.frame, p.y, p.x), Local(canvas, m, p), r, c)
  {
    hide Canvas.Inked, Grid.At;
    var l, f := Within(canvas.frame, p.y, p.x), Local(canvas, m, p);
    forall r: nat, c: nat
      ensures Stores(m, l, f, r, c)
    {
      if Supported(canvas.depth) && r < p.glyph.height && c < p.glyph.width {
        WithinAt(canvas.frame, p.y, p.x, r, c);
        PixelInMemory(canvas.frame, canvas.rows, |m|, p.y + r, p.x + c);
      }
    }
  }

  // The memory after a glyph has been drawn row by row.
  ghost function DrawGlyph(canvas: Canvas, m: Bytes, p: Placement): (m': Bytes)
    requires canvas.frame.unit == Unit(canvas.depth) && p.glyph.Valid()
    ensures |m'| == |m|
  {
    Paint(m, Within(canvas.frame, p.y, p.x), p.glyph.width, Local(canvas, m, p), p.glyph.height, 0)
  }

  /** A drawn glyph shows its ink, and nothing else of the memory has changed. */
  lemma GlyphDrawn(canvas: Canvas, m: Bytes, p: Placement)
    requires canvas.FrameInside(|m|) && p.glyph.Valid() && p.Inside(canvas.rows, canvas.frame.line)
    ensures Painted(m, DrawGlyph(canvas, m, p), canvas.frame, canvas.rows, canvas.frame.line, canvas.Drawing(m, p))
  {
    hide Canvas.Inked, Grid.At, Paint;
    var l, f, h, w := Within(canvas.frame, p.y, p.x), Local(canvas, m, p), p.glyph.height, p.glyph.width;
    var m' := Paint(m, l, w, f, h, 0);
    AllStored(canvas, m, p);
    PaintPaints(m, l, h, w, f);
    PaintedWithin(m, m', canvas.frame, canvas.rows, canvas.frame.line, f, p.y, p.x, h, w);
    PaintedSame(m, m', canvas.frame, canvas.rows, canvas.frame.line, Shifted(f, p.y, p.x, h, w), canvas.Drawing(m, p));
  }

  // The word whose first bytes were merged and whose other bytes were never set.
  function NewColor(merged: Bytes, top: bv8): (w: bv32)
    requires |merged| == 2 || |merged| == 3
    ensures |merged| == 2 ==> Bytes32(w)[..2] == (merged + [top])[..2]
    ensures |merged| == 3 ==> Bytes32(w)[..3] == (merged + [top])[..3] && Bytes32(w)[..4] == (merged + [top])[..4]
  {
    var p := if |merged| == 2 then merged + [top, top] else merged + [top];
    BytesOfWord32(p);
    Word32(p)
  }

  /** Blends, merges and stores one pixel of a glyph. */
  method DrawInk(display: FrameReader, horiz: nat, vert: nat, background: bv32, alpha: bv8, original: Rgb, top: bv8,
                 ghost canvas: Canvas, ghost was: Bytes, ghost p: Placement)
    requires On(canvas, display) && canvas.background == background && horiz < display.width && vert < display.height
    requires p.Covers(vert, horiz) && p.glyph.Valid() && alpha == p.AlphaAt(vert, horiz)
    requires top == canvas.stale(vert, horiz)
    requires original == SeparateColorChannels(canvas.depth, Bytes32(p.color))
    requires canvas.Behind(display.sdram[..], vert, horiz) == canvas.Behind(was, vert, horiz)
    modifies display.sdram
    ensures display.sdram[..] == Plot(old(display.sdram[..]), canvas.frame, canvas.Drawing(was, p), vert, horiz)
  {
    hide Grid.At, Put, Canvas.Behind, Blended, MergeColorChannels, SeparateColorChannels, NewColor, Bytes32;
    if Supported(display.colorDepth) {
      PixelInMemory(canvas.frame, canvas.rows, display.sdram.Length, vert, horiz);
    }
    var blended := AlphaBlending(display, horiz, vert, background, alpha, original, canvas);
    var newColor := NewColor(MergeColorChannels(display.colorDepth, blended), top);
    VidSetPixel(display, horiz, vert, newColor);
  }

  /** `vid_print_char_alpha` */
  method PrintChar(display: FrameReader, horizOffset: nat, vertOffset: nat, color: bv32, character: char,
                   background: bv32, font: Font, stale: (nat, nat) -> bv8, ghost canvas: Canvas)
    requires On(canvas, display) && canvas.background == background && canvas.stale == stale
    requires Visible(character)
    requires Placement(horizOffset, vertOffset, color, GlyphOf(font, character)).Inside(display.height, display.width)
    modifies display.sdram
    ensures var p, was := Placement(horizOffset, vertOffset, color, GlyphOf(font, character)), old(display.sdram[..]);
            && display.sdram[..] == DrawGlyph(canvas, was, p)
            && Painted(was, display.sdram[..], canvas.frame, canvas.rows, canvas.frame.line, canvas.Drawing(was, p))
  {
    hide Grid.At, Plot, Inking, DrawGlyph, Canvas.Behind, Canvas.Drawing, SeparateColorChannels, Unit, Painted;
    var glyph := font[character as int - 33];
    ghost var was := display.sdram[..];
    ghost var p := Placement(horizOffset, vertOffset, color, glyph);
    var original := SeparateColorChannels(display.colorDepth, Bytes32(color));
    var alpha: nat := 0;
    var i: nat := 0;
    InkRows(canvas, was, p, 0);
    while i < glyph.height
      invariant i <= glyph.height && alpha == i * glyph.width
      invariant display.sdram[..] == Inking(canvas, was, p, i, 0)
    {
      var j: nat := 0;
      while j < glyph.width
        invariant j <= glyph.width && alpha == i * glyph.width + j
        invariant display.sdram[..] == Inking(canvas, was, p, i, j)
      {
        NextInk(canvas, was, p, i, j);
        BehindInk(canvas, was, p, i, j);
        AlphaRuns(p, i, j);
        var horiz, vert := horizOffset + j, vertOffset + i;
        DrawInk(display, horiz, vert, background, glyph.alphaMap[alpha], original, stale(vert, horiz), canvas, was, p);
        alpha := alpha + 1;
        j := j + 1;
      }
      InkRows(canvas, was, p, i);
      i := i + 1;
    }
    GlyphDrawn(canvas, was, p);
  }

  // ----- strings

  ghost predicate AllValid(ps: seq<Placement>) {
    forall p | p in ps :: p.glyph.Valid()
  }

  ghost predicate AllInside(ps: seq<Placement>, rows: nat, cols: nat) {
    forall p | p in ps :: p.Inside(rows, cols)
  }

  // Glyphs drawn one after the other, each over the picture the earlier ones have left.
  ghost function DrawAll(canvas: Canvas, m: Bytes, ps: seq<Placement>): (m': Bytes)
    requires canvas.frame.unit == Unit(canvas.depth) && AllValid(ps)
    ensures |m'| == |m|
  {
    if ps == [] then m else DrawGlyph(canvas, DrawAll(canvas, m, ps[..|ps| - 1]), ps[|ps| - 1])
  }

  lemma DrawOneMore(canvas: Canvas, m: Bytes, ps: seq<Placement>, p: Placement)
    requires canvas.frame.unit == Unit(canvas.depth) && AllValid(ps) && p.glyph.Valid()
    ensures AllValid(ps + [p]) && DrawAll(canvas, m, ps + [p]) == DrawGlyph(canvas, DrawAll(canvas, m, ps), p)
  {
  }

  /** A blank of a string: the '-' in the background colour, or nothing on a clear background. */
  method PrintBlank(display: FrameReader, horiz: nat, vert: nat, style: Style, stale: (nat, nat) -> bv8,
                    ghost canvas: Canvas, ghost was: Bytes, ghost k: Cursor)
    requires On(canvas, display) && canvas.background == style.background && canvas.stale == stale
    requires k.x == horiz && k.y == vert && AllValid(k.placed)
    requires AllInside(Blank(style, k).placed, display.height, display.width)
    requires display.sdram[..] == DrawAll(canvas, was, k.placed)
    modifies display.sdram
    ensures AllValid(Blank(style, k).placed) && display.sdram[..] == DrawAll(canvas, was, Blank(style, k).placed)
  {
    hide Painted, Unit, DrawAll, DrawGlyph;
    ghost var p := Placement(horiz, vert, style.background, Dash(style.font));
    if style.background != CLEAR_BACKGROUND {
      assert p in Blank(style, k).placed;
      DrawOneMore(canvas, was, k.placed, p);
      PrintChar(display, horiz, vert, style.background, '-', style.background, style.font, stale, canvas);
    }
  }

  // The two frames are apart and big enough for pixels of the colour depth.
  ghost predicate Buffered(display: FrameReader)
    reads display, display.sdram
  {
    display.Valid() && display.State().Apart() && Unit(display.colorDepth) <= display.bytesPerPixel
  }

  /** Text is a run of draws of the screen's state machine: with the frames apart it is not seen before a swap. */
  lemma PrintedBehind(s: Screen, canvas: Canvas, ps: seq<Placement>)
    requires s.Valid() && s.Apart()
    requires canvas.FrameInside(|s.mem|) && AllValid(ps) && AllInside(ps, canvas.rows, canvas.frame.line)
    requires canvas.frame.base == s.DrawBase() && canvas.rows * canvas.frame.line * canvas.frame.unit <= s.size
    ensures var drawn := s.(mem := DrawAll(canvas, s.mem, ps));
            && drawn.Valid() && drawn.Scanned() == s.Scanned()
            && drawn == Run(s, Writes(drawn.FrameAt(s.DrawBase())))
            && Apply(drawn, Swap).Scanned() == drawn.FrameAt(s.DrawBase())
  {
    hide DrawAll, Apply, Screen.Scanned;
    var m := DrawAll(canvas, s.mem, ps);
    forall a: nat | a < |m| && !(s.DrawBase() <= a < s.DrawBase() + s.size)
      ensures m[a] == s.mem[a]
    {
      DrawnInside(canvas, s.mem, ps, a);
    }
    DrawingIsARun(s, m);
    DrawnBehind(s, m);
  }

  // A frame of the display's pixels is no bigger than the display's buffers.
  lemma FrameIsBuffered(display: FrameReader, canvas: Canvas)
    requires On(canvas, display) && Buffered(display)
    ensures canvas.FrameInside(display.sdram.Length) && canvas.frame.base == display.State().DrawBase()
    ensures canvas.rows * canvas.frame.line * canvas.frame.unit <= display.State().size
  {
    assert display.height * display.width == display.width * display.height;
    MulMono(Unit(display.colorDepth), display.bytesPerPixel, display.height * display.width);
  }

  /** `vid_print_string_alpha`: draws the glyphs of the laid-out text in order. */
  method PrintString(display: FrameReader, horizOffset: nat, vertOffset: nat, color: bv32, background: bv32, font: Font,
                     stale: (nat, nat) -> bv8, text: string, ghost canvas: Canvas) returns (ret: int)
    requires On(canvas, display) && canvas.background == background && canvas.stale == stale
    requires Printable(text)
    requires AllInside(Layout(Style(font, color, background, horizOffset), vertOffset, text).placed,
                       display.height, display.width)
    modifies display.sdram
    ensures ret == 0
    ensures var ps := Layout(Style(font, color, background, horizOffset), vertOffset, text).placed;
            AllValid(ps) && display.sdram[..] == DrawAll(canvas, old(display.sdram[..]), ps)
    ensures old(Buffered(display)) ==> display.Valid() && display.State().Scanned() == old(display.State().Scanned())
  {
    hide Painted, Unit, Layout, Blank, DrawAll, DrawGlyph;
    var style := Style(font, color, background, horizOffset);
    var horiz, vert, i := horizOffset, vertOffset, 0;
    ghost var was, before, buffered := display.sdram[..], display.State(), Buffered(display);
    if buffered {
      FrameIsBuffered(display, canvas);
    }
    ghost var k := Cursor(horiz, vert, []);
    assert k == Layout(style, vertOffset, text[..0]) by { LayoutEmpty(style, vertOffset); assert text[..0] == []; }
    assert DrawAll(canvas, was, []) == was by { NothingDrawn(canvas, was); }
    while i < |text|
      invariant 0 <= i <= |text|
      invariant k == Layout(style, vertOffset, text[..i]) && k.x == horiz && k.y == vert
      invariant AllValid(k.placed) && display.sdram[..] == DrawAll(canvas, was, k.placed)
    {
      var ch := text[i];
      assert ch in text;
      ghost var next := Layout(style, vertOffset, text[..i + 1]);
      LayoutNext(style, vertOffset, text, i);
      if ch == '\n' {
        horiz := horizOffset;
        vert := vert + GlyphOf(font, '|').height;
        i := i + 1;
        k := next;
        continue;
      }
      if ch == ' ' {
        PrintBlank(display, horiz, vert, style, stale, canvas, was, k);
        BlankMoves(style, k);
        horiz := horiz + font[45 - 33].width;
      } else if ch == '\t' {
        var tab: nat := 0;
        while tab < TAB_SPACING
          invariant tab <= TAB_SPACING
          invariant horiz == Blanks(style, k, tab).x && Blanks(style, k, tab).y == vert
          invariant AllValid(Blanks(style, k, tab).placed)
          invariant display.sdram[..] == DrawAll(canvas, was, Blanks(style, k, tab).placed)
        {
          BlanksGrow(style, k, tab, TAB_SPACING);
          BlanksGrow(style, k, tab + 1, TAB_SPACING);
          BlankMoves(style, Blanks(style, k, tab));
          PrintBlank(display, horiz, vert, style, stale, canvas, was, Blanks(style, k, tab));
          horiz := horiz + font[45 - 33].width;
          tab := tab + 1;
        }
      } else {
        ghost var p := Placement(horiz, vert, color, GlyphOf(font, ch));
        assert next.placed[|k.placed|] == p;
        assert p in Layout(style, vertOffset, text).placed;
        DrawOneMore(canvas, was, k.placed, p);
        PrintChar(display, horiz, vert, color, ch, background, font, stale, canvas);
        horiz := horiz + font[ch as int - 33].width;
      }
      i := i + 1;
      k := next;
    }
    assert text[..|text|] == text;
    if buffered {
      PrintedBehind(before, canvas, k.placed);
    }
    ret := 0;
  }

  lemma NothingDrawn(canvas: Canvas, m: Bytes)
    requires canvas.frame.unit == Unit(canvas.depth)
    ensures DrawAll(canvas, m, []) == m
  {
  }

  // ----- where text does not draw

  // No pixel of a frame reaches outside it.
  lemma OutsideFrame(canvas: Canvas, f: Cells, a: nat)
    requires !canvas.Owns(a)
    ensures Untouched(canvas.frame, canvas.rows, canvas.frame.line, f, a)
  {
    hide Grid.At;
    var g, rows := canvas.frame, canvas.rows;
    forall r: nat, c: nat | r < rows && c < g.line
      ensures !Hits(g, f, r, c, a)
    {
      PixelInMemory(g, rows, g.base + rows * g.line * g.unit, r, c);
    }
  }

  /** Text leaves every byte outside its frame alone, and at an unsupported depth every byte. */
  lemma {:induction false} DrawnInside(canvas: Canvas, m: Bytes, ps: seq<Placement>, a: nat)
    requires canvas.FrameInside(|m|) && AllValid(ps) && AllInside(ps, canvas.rows, canvas.frame.line)
    requires a < |m| && (!Supported(canvas.depth) || !canvas.Owns(a))
    ensures DrawAll(canvas, m, ps)[a] == m[a]
  {
    hide DrawGlyph, Grid.At, Canvas.Owns;
    if ps == [] {
    } else {
      var most, p := ps[..|ps| - 1], ps[|ps| - 1];
      DrawnInside(canvas, m, most, a);
      GlyphDrawn(canvas, DrawAll(canvas, m, most), p);
      if Supported(canvas.depth) {
        OutsideFrame(canvas, canvas.Drawing(DrawAll(canvas, m, most), p), a);
      }
    }
  }

  // ----- the picture of disjoint glyphs

  // A pixel under a glyph that is apart from all the others belongs to none of them.
  lemma {:induction false} NotCovered(canvas: Canvas, m: Bytes, ps: seq<Placement>, p: Placement, r: nat, c: nat)
    requires canvas.frame.unit == Unit(canvas.depth) && AllValid(ps)
    requires p.Covers(r, c) && forall q | q in ps :: Apart(q, p)
    ensures canvas.TextPixel(m, ps, r, c) == None
  {
    if ps == [] {
    } else {
      assert ps[|ps| - 1] in ps;
      NotCovered(canvas, m, ps[..|ps| - 1], p, r, c);
    }
  }

  // One more glyph, apart from those before it, extends the text.
  lemma OneMoreGlyph(canvas: Canvas, was: Bytes, m: Bytes, m': Bytes, ps: seq<Placement>, p: Placement)
    requires canvas.FrameInside(|was|) && AllValid(ps) && p.glyph.Valid() && forall q | q in ps :: Apart(q, p)
    requires Painted(was, m, canvas.frame, canvas.rows, canvas.frame.line, canvas.Text(was, ps))
    requires Painted(m, m', canvas.frame, canvas.rows, canvas.frame.line, canvas.Drawing(m, p))
    ensures AllValid(ps + [p])
    ensures Painted(was, m', canvas.frame, canvas.rows, canvas.frame.line, canvas.Text(was, ps + [p]))
  {
    hide Canvas.Inked, Grid.At, Painted, ReadPixel;
    var g, h, w := canvas.frame, canvas.rows, canvas.frame.line;
    forall r: nat, c: nat | r < h && c < w
      ensures canvas.Drawing(m, p)(r, c) == canvas.Drawing(was, p)(r, c)
    {
      if Supported(canvas.depth) && p.Covers(r, c) {
        NotCovered(canvas, was, ps, p, r, c);
        PixelInMemory(g, h, |was|, r, c);
        PaintedKeeps(was, m, g, h, w, canvas.Text(was, ps), r, c);
        PaintedLength(was, m, g, h, w, canvas.Text(was, ps));
        SameInk(canvas, m, was, p, r, c);
      }
    }
    PaintedSame(m, m', g, h, w, canvas.Drawing(m, p), canvas.Drawing(was, p));
    PaintedOver(was, m, m', g, h, w, canvas.Text(was, ps), canvas.Drawing(was, p));
    assert (ps + [p])[..|ps|] == ps;
    PaintedSame(was, m', g, h, w, Over(canvas.Drawing(was, p), canvas.Text(was, ps)), canvas.Text(was, ps + [p]));
  }

  lemma PaintedLength(m: Bytes, m': Bytes, g: Grid, h: int, w: int, f: Cells)
    requires Painted(m, m', g, h, w, f)
    ensures |m'| == |m|
  {
  }

  lemma SameInk(canvas: Canvas, m: Bytes, m': Bytes, p: Placement, r: nat, c: nat)
    requires canvas.frame.unit == Unit(canvas.depth) && p.Covers(r, c) && p.glyph.Valid()
    requires canvas.PixelAt(m, r, c) == canvas.PixelAt(m', r, c)
    ensures canvas.Inked(m, p, r, c) == canvas.Inked(m', p, r, c)
  {
  }

  /** Disjoint glyphs drawn one after the other show every glyph blended with the picture before any was drawn. */
  lemma {:induction false} DisjointGlyphsDrawn(canvas: Canvas, m: Bytes, ps: seq<Placement>)
    requires canvas.FrameInside(|m|) && AllValid(ps) && AllApart(ps) && AllInside(ps, canvas.rows, canvas.frame.line)
    ensures Painted(m, DrawAll(canvas, m, ps), canvas.frame, canvas.rows, canvas.frame.line, canvas.Text(m, ps))
  {
    hide Canvas.Inked, DrawGlyph;
    if ps == [] {
    } else {
      var most, p := ps[..|ps| - 1], ps[|ps| - 1];
      DisjointGlyphsDrawn(canvas, m, most);
      var m' := DrawAll(canvas, m, most);
      GlyphDrawn(canvas, m', p);
      forall q | q in most
        ensures Apart(q, p)
      {
        var i :| 0 <= i < |most| && most[i] == q;
        assert Apart(ps[i], ps[|ps| - 1]);
      }
      OneMoreGlyph(canvas, m, m', DrawGlyph(canvas, m', p), most, p);
      assert most + [p] == ps;
    }
  }
}
