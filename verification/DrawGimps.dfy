/** Copying loaded images into frame memory (graphic_lib/draw_gimps.c). */
module DrawGimps {
  import opened Raster
  import opened Words
  import opened GimpBmp
  import opened VipFr

  // The 24-bit colour of a 32-bit source pixel: red in byte 2, green in byte 1, blue in byte 0.
  function Colour(p: Bytes): bv32
    requires |p| == 4
  {
    ((p[2] as bv32) << 16) | ((p[1] as bv32) << 8) | (p[0] as bv32)
  }

  lemma ColourIsMasked(p: Bytes)
    requires |p| == 4
    ensures Colour(p) == Word32(p) & 0xff_ffff && Colour(p) <= 0xff_ffff
  {
  }

  function Min(a: int, b: int): int {
    if a < b then a else b
  }

  /** One clipped copy: an image of `width` by `height` pixels is placed at (x, y) of a frame that starts at
      `dest` and is `destWidth` pixels wide. */
  datatype Blit = Blit(dest: nat, destWidth: nat, width: nat, height: nat, x: int, y: int, wFit: int, hFit: int,
                       transparent: Option<bv32>)
  {
    function Origin(): int {
      dest + 4 * (y * destWidth + x)
    }

    // The address of the frame's pixel under the image's pixel (r, c).
    function Address(r: nat, c: nat): int {
      dest + 4 * ((r + y) * destWidth + (c + x))
    }

    function Target(): Grid {
      Grid(Max0(Origin()), destWidth, 4)
    }

    function Source(): Grid {
      Grid(0, width, 4)
    }

    // Both limits belong to the part that is copied.
    predicate WithinLimits(r: nat, c: nat) {
      r <= hFit && c <= wFit
    }

    /** What is stored: the colours of the image inside the limits, except the transparent one. */
    ghost function Cells(src: Bytes): Cells {
      (r: nat, c: nat) =>
        var a := Source().At(r, c);
        if WithinLimits(r, c) && a + 4 <= |src| && transparent != Some(Colour(src[a..a + 4]))
        then Some(Bytes32(Colour(src[a..a + 4]))) else None
    }

    // The image has all its pixels.
    predicate Complete(src: nat) {
      width * height * 4 <= src
    }

    // The part inside the limits is inside the memory.
    predicate InBounds(mem: nat) {
      var w, h := Min(width, wFit + 1), Min(height, hFit + 1);
      w > 0 && h > 0 ==> 0 <= Origin() && Room(mem, Target(), w, h)
    }

    // It is no wider than the frame: its rows do not run into each other.
    predicate InLines() {
      Min(width, wFit + 1) > 0 && Min(height, hFit + 1) > 0 ==> Min(width, wFit + 1) <= destWidth
    }

    // The part inside the limits is inside a frame of `rows` rows.
    predicate InFrame(rows: nat) {
      var w, h := Min(width, wFit + 1), Min(height, hFit + 1);
      w > 0 && h > 0 ==> 0 <= x && 0 <= y && x + w <= destWidth && y + h <= rows
    }

    /** The memory after the pixels of the image have been stored one after the other. */
    ghost function Result(m: Bytes, f: Cells): (m': Bytes)
      ensures |m'| == |m|
    {
      Paint(m, Target(), width, f, height, 0)
    }

    lemma AddressAt(r: nat, c: nat)
      requires 0 <= Origin()
      ensures Target().At(r, c) == Address(r, c)
    {
    }

    // The pixel the copy has reached.
    lemma Next(src: Bytes, m: Bytes, r: nat, c: nat)
      requires Complete(|src|) && InBounds(|m|) && r < height && c < width
      ensures Source().At(r, c) + 4 <= |src| && Source().At(r, c + 1) == Source().At(r, c) + 4
      ensures Lands(m, Target(), Cells(src), r, c) && (InLines() ==> Stores(m, Target(), Cells(src), r, c))
      ensures WithinLimits(r, c) ==> Target().At(r, c) == Address(r, c) && Address(r, c) + 4 <= |m|
      ensures var p := src[Source().At(r, c)..Source().At(r, c) + 4];
              Cells(src)(r, c)
                == if WithinLimits(r, c) && transparent != Some(Colour(p)) then Some(Bytes32(Colour(p))) else None
    {
      RoomForAll(width, height, width, height, 4);
      FitsBound(src, Source(), height, width, r, c);
      AtStep(Source(), r, c);
      if WithinLimits(r, c) {
        FitsBound(m, Target(), Min(height, hFit + 1), Min(width, wFit + 1), r, c);
        AddressAt(r, c);
      }
    }

    lemma Paints(src: Bytes, m: Bytes)
      requires Complete(|src|) && InBounds(|m|) && InLines()
      ensures Painted(m, Result(m, Cells(src)), Target(), height, width, Cells(src))
    {
      forall r: nat, c: nat | r < height && c < width
        ensures Stores(m, Target(), Cells(src), r, c)
      {
        Next(src, m, r, c);
      }
      PaintPaints(m, Target(), height, width, Cells(src));
    }
  }

  /** `AsVidCopyImageToBuffer2` (without a transparent colour) and `AsVidCopyImageToBuffer3`. */
  method CopyImageClipped(mem: array<bv8>, dest: nat, src: array<bv8>, destWidth: nat, srcWidth: int, srcHeight: int,
                          x: int, y: int, wFit: int, hFit: int, transparent: Option<bv32>, ghost b: Blit)
    requires mem != src
    requires b == Blit(dest, destWidth, Max0(srcWidth), Max0(srcHeight), x, y, wFit, hFit, transparent)
    requires b.Complete(src.Length) && b.InBounds(mem.Length)
    modifies mem
    ensures mem[..] == b.Result(old(mem[..]), b.Cells(src[..]))
    ensures b.InLines() ==> Painted(old(mem[..]), mem[..], b.Target(), b.height, b.width, b.Cells(src[..]))
  {
    hide Blit.Cells, Blit.Complete, Blit.InBounds, Blit.InLines, Blit.Origin;
    hide Grid.At, Paint, Stores, Lands, Colour, Put;
    ghost var s, g := b.Source(), b.Target();
    ghost var source, was := src[..], mem[..];
    ghost var f := b.Cells(source);
    WalkStarts(source, s, b.width, f);
    WalkStarts(was, g, b.width, f);
    var srcPtr: nat := 0;
    var row: nat := 0;
    while row < srcHeight
      invariant row <= b.height && srcPtr == s.At(row, 0)
      invariant src[..] == source && mem[..] == Paint(was, g, b.width, f, row, 0)
    {
      var col: nat := 0;
      while col < srcWidth
        invariant col <= b.width && srcPtr == s.At(row, col)
        invariant src[..] == source && mem[..] == Paint(was, g, b.width, f, row, col)
      {
        b.Next(source, was, row, col);
        PaintStep(was, g, b.width, f, row, col);
        var color := src[srcPtr..srcPtr + 4];
        assert color == source[s.At(row, col)..s.At(row, col) + 4];
        srcPtr := srcPtr + 4;
        var realColor := Colour(color);
        if row <= hFit && col <= wFit {
          if transparent != Some(realColor) {
            Store32(mem, dest + 4 * ((row + y) * destWidth + (col + x)), realColor);
          }
        }
        col := col + 1;
      }
      AtStep(s, row, b.width);
      RowEnds(source, s, b.width, f, row);
      RowEnds(was, g, b.width, f, row);
      row := row + 1;
    }
    if b.InLines() {
      b.Paints(source, was);
    }
  }

  // The bytes of a colour.
  lemma ColourBytes(red: bv8, green: bv8, blue: bv8)
    ensures Bytes32(((red as bv32) << 16) | ((green as bv32) << 8) | (blue as bv32)) == [blue, green, red, 0]
  {
  }

  lemma SameWord(a: bv32, b: bv32)
    ensures a == b <==> Bytes32(a) == Bytes32(b)
  {
  }

  /** The clipped copy byte by byte: the pixel at row `r` and column `c` of the source is stored at row `r + y` and
      column `c + x` of the destination, its fourth byte cleared, if it is inside the inclusive limits and not of the
      transparent colour; otherwise what was there stays. */
  lemma ClippedBytes(b: Blit, src: Bytes, m: Bytes, r: nat, c: nat)
    requires b.Complete(|src|) && b.InBounds(|m|) && b.InLines() && r < b.height && c < b.width
    requires 0 <= b.dest + 4 * (b.y * b.destWidth + b.x)
    ensures var i, a := 4 * (r * b.width + c), b.dest + 4 * ((r + b.y) * b.destWidth + (c + b.x));
            var m' := b.Result(m, b.Cells(src));
            && 0 <= i && i + 4 <= |src| && 0 <= a
            && var stored := [src[i], src[i + 1], src[i + 2], 0];
            if r <= b.hFit && c <= b.wFit && (b.transparent.Some? ==> stored != Bytes32(b.transparent.value))
            then a + 4 <= |m| && m'[a..a + 4] == stored
            else c < b.destWidth && a + 4 <= |m| ==> m'[a..a + 4] == m[a..a + 4]
  {
    hide Bytes32, Paint, Colour, Grid.At, Blit.Complete, Blit.InBounds, Blit.InLines, Blit.Cells;
    var f, i := b.Cells(src), b.Source().At(r, c);
    b.Next(src, m, r, c);
    b.Paints(src, m);
    b.AddressAt(r, c);
    SourceAt(b, r, c);
    StoredBytes(src[i..i + 4], b.transparent);
    assert Shows(b.Result(m, f), b.Target(), f, r, c);
    if f(r, c).None? && c < b.destWidth && b.Address(r, c) + 4 <= |m| {
      PaintedKeeps(m, b.Result(m, f), b.Target(), b.height, b.width, f, r, c);
    }
  }

  lemma SourceAt(b: Blit, r: nat, c: nat)
    ensures b.Source().At(r, c) == 4 * (r * b.width + c)
  {
  }

  lemma StoredBytes(p: Bytes, transparent: Option<bv32>)
    requires |p| == 4
    ensures Bytes32(Colour(p)) == [p[0], p[1], p[2], 0]
    ensures transparent != Some(Colour(p))
       <==> (transparent.Some? ==> [p[0], p[1], p[2], 0] != Bytes32(transparent.value))
  {
    ColourBytes(p[2], p[1], p[0]);
    if transparent.Some? {
      SameWord(Colour(p), transparent.value);
    }
  }

  /** A transparent colour that no 24-bit colour equals makes no difference. */
  lemma ImpossibleKeyIsNoKey(b: Blit, key: bv32, src: Bytes, m: Bytes)
    requires key > 0xff_ffff
    ensures var b1, b2 := b.(transparent := Some(key)), b.(transparent := None);
            b1.Result(m, b1.Cells(src)) == b2.Result(m, b2.Cells(src))
  {
    var b1, b2 := b.(transparent := Some(key)), b.(transparent := None);
    forall r: nat, c: nat | r < b.height && c < b.width
      ensures b1.Cells(src)(r, c) == b2.Cells(src)(r, c)
    {
      var a := b.Source().At(r, c);
      if a + 4 <= |src| {
        ColourIsMasked(src[a..a + 4]);
      }
    }
    PaintSame(m, b.Target(), b.width, b1.Cells(src), b2.Cells(src), b.height, 0);
  }

  // The image lies inside the columns of its frame.
  predicate InColumns(b: Blit) {
    0 <= b.x && 0 <= b.y && b.x + b.width <= b.destWidth
  }

  predicate Disjoint(b1: Blit, b2: Blit) {
    || b1.x + b1.width <= b2.x || b2.x + b2.width <= b1.x
    || b1.y + b1.height <= b2.y || b2.y + b2.height <= b1.y
  }

  lemma FramePixel(b: Blit, r: nat, c: nat)
    requires InColumns(b)
    ensures b.Target().At(r, c) == Grid(b.dest, b.destWidth, 4).At(r + b.y, c + b.x)
  {
  }

  lemma PixelsApart(b1: Blit, b2: Blit, r1: nat, c1: nat, r2: nat, c2: nat)
    requires b1.dest == b2.dest && b1.destWidth == b2.destWidth && InColumns(b1) && InColumns(b2) && Disjoint(b1, b2)
    requires r1 < b1.height && c1 < b1.width && r2 < b2.height && c2 < b2.width
    ensures b1.Target().At(r1, c1) + 4 <= b2.Target().At(r2, c2) || b2.Target().At(r2, c2) + 4 <= b1.Target().At(r1, c1)
  {
    var g := Grid(b1.dest, b1.destWidth, 4);
    var R1, C1, R2, C2 := r1 + b1.y, c1 + b1.x, r2 + b2.y, c2 + b2.x;
    FramePixel(b1, r1, c1);
    FramePixel(b2, r2, c2);
    hide Grid.At;
    if Before(R1, C1, R2, C2) {
      AtBefore(g, R1, C1, R2, C2);
    } else {
      AtBefore(g, R2, C2, R1, C1);
    }
  }

  /** Images in disjoint rectangles of one frame can be drawn in either order. */
  lemma DisjointBlitsCommute(b1: Blit, src1: Bytes, b2: Blit, src2: Bytes, m: Bytes, m1: Bytes, m12: Bytes, m2: Bytes,
                             m21: Bytes)
    requires b1.dest == b2.dest && b1.destWidth == b2.destWidth && InColumns(b1) && InColumns(b2) && Disjoint(b1, b2)
    requires Painted(m, m1, b1.Target(), b1.height, b1.width, b1.Cells(src1))
    requires Painted(m1, m12, b2.Target(), b2.height, b2.width, b2.Cells(src2))
    requires Painted(m, m2, b2.Target(), b2.height, b2.width, b2.Cells(src2))
    requires Painted(m2, m21, b1.Target(), b1.height, b1.width, b1.Cells(src1))
    ensures m12 == m21
  {
    hide Blit.Cells, Grid.At, Painted;
    var f1, f2 := b1.Cells(src1), b2.Cells(src2);
    forall a: nat
      ensures Untouched(b1.Target(), b1.height, b1.width, f1, a) || Untouched(b2.Target(), b2.height, b2.width, f2, a)
    {
      if r1: nat, c1: nat :| r1 < b1.height && c1 < b1.width && Hits(b1.Target(), f1, r1, c1, a) {
        forall r2: nat, c2: nat | r2 < b2.height && c2 < b2.width
          ensures !Hits(b2.Target(), f2, r2, c2, a)
        {
          PixelsApart(b1, b2, r1, c1, r2, c2);
        }
      }
    }
    PaintedCommute(m, m1, m12, m2, m21, b1.Target(), b1.height, b1.width, f1, b2.Target(), b2.height, b2.width, f2);
  }

  // ----- whole rows

  lemma RowAt(g: Grid, w: nat, h: nat, size: nat, r: nat, c: nat)
    requires g.unit == 4 && Room(size, g, w, h) && r < h && c <= w && w > 0
    ensures g.At(r, c) == g.At(r, 0) + 4 * c <= size
  {
  }

  // Copying one more pixel of a row.
  lemma NextWord(src: Bytes, m: Bytes, d: Grid, w: nat, h: nat, r: nat, c: nat)
    requires d.unit == 4 && r < h && c < w && Room(|src|, Grid(0, w, 4), w, h) && Room(|m|, d, w, h)
    ensures var s, f := Grid(0, w, 4), Pixels(From32To32, src, Grid(0, w, 4));
            && s.At(r, c) <= s.At(r, c + 1) <= |src|
            && d.At(r, c) + (s.At(r, c + 1) - s.At(r, c)) <= |m|
            && Paint(m, d, w, f, r, c + 1) == Put(Paint(m, d, w, f, r, c), d.At(r, c), src[s.At(r, c)..s.At(r, c + 1)])
  {
    hide Grid.At, Put, Paint, Pixels, Room;
    var s := Grid(0, w, 4);
    NextPixel(From32To32, src, s, m, d, w, h, r, c);
    var p := src[s.At(r, c)..s.At(r, c) + 4];
    assert From32To32.Pixel(p) == p;
  }

  // The first `c` pixels of a row copied one by one are their bytes copied at once.
  lemma {:induction false} RowPrefix(src: Bytes, m: Bytes, d: Grid, w: nat, h: nat, r: nat, c: nat)
    requires d.unit == 4 && r < h && c <= w && w > 0
    requires Room(|src|, Grid(0, w, 4), w, h) && Room(|m|, d, w, h)
    ensures var s, f := Grid(0, w, 4), Pixels(From32To32, src, Grid(0, w, 4));
            && s.At(r, c) == s.At(r, 0) + 4 * c <= |src|
            && d.At(r, 0) + 4 * c <= |m|
            && Paint(m, d, w, f, r, c) == Put(Paint(m, d, w, f, r, 0), d.At(r, 0), src[s.At(r, 0)..s.At(r, c)])
  {
    hide Grid.At, Put, Paint, Pixels, Room;
    var s, f := Grid(0, w, 4), Pixels(From32To32, src, Grid(0, w, 4));
    RowAt(s, w, h, |src|, r, c);
    RowAt(d, w, h, |m|, r, c);
    if c == 0 {
      assert src[s.At(r, 0)..s.At(r, 0)] == [];
      PutPut(Paint(m, d, w, f, r, 0), d.At(r, 0), [], []);
    } else {
      RowPrefix(src, m, d, w, h, r, c - 1);
      RowAt(d, w, h, |m|, r, c - 1);
      NextWord(src, m, d, w, h, r, c - 1);
      var done, p := src[s.At(r, 0)..s.At(r, c - 1)], src[s.At(r, c - 1)..s.At(r, c)];
      assert src[s.At(r, 0)..s.At(r, c)] == done + p;
      assert d.At(r, c - 1) == d.At(r, 0) + |done|;
      PutPut(Paint(m, d, w, f, r, 0), d.At(r, 0), done, p);
    }
  }

  /** `AsVidCopyImageToBuffer`: whole rows at a time, yet exactly what the 32-bit pixel converter does. */
  method CopyImageRows(mem: array<bv8>, dest: nat, src: array<bv8>, destWidth: nat, srcWidth: nat, srcHeight: int)
    requires mem != src
    requires Room(src.Length, Grid(0, srcWidth, 4), srcWidth, srcHeight)
    requires Room(mem.Length, Grid(dest, destWidth, 4), srcWidth, srcHeight)
    modifies mem
    ensures mem[..] == Copied(From32To32, src[..], Grid(0, srcWidth, 4),
                              old(mem[..]), Grid(dest, destWidth, 4), srcWidth, srcHeight)
    ensures srcWidth <= destWidth ==>
              Converted(From32To32, src[..], Grid(0, srcWidth, 4),
                        old(mem[..]), mem[..], Grid(dest, destWidth, 4), srcWidth, srcHeight)
  {
    hide Grid.At, Put, Paint, Pixels, Room;
    ghost var h := Max0(srcHeight);
    ghost var s, d := Grid(0, srcWidth, 4), Grid(dest, destWidth, 4);
    ghost var source, was := src[..], mem[..];
    ghost var f := Pixels(From32To32, source, s);
    WalkStarts(source, s, srcWidth, f);
    WalkStarts(was, d, srcWidth, f);
    var from, to := 0, dest;
    var y: nat := 0;
    while y < srcHeight
      invariant y <= h && from == s.At(y, 0) && to == d.At(y, 0)
      invariant src[..] == source && mem[..] == Paint(was, d, srcWidth, f, y, 0)
    {
      RowEnds(source, s, srcWidth, f, y);
      RowEnds(was, d, srcWidth, f, y);
      if srcWidth > 0 {
        RowPrefix(source, was, d, srcWidth, h, y, srcWidth);
        Memcpy(mem, to, src, from, srcWidth * 4);
      }
      from := from + srcWidth * 4;
      to := to + destWidth * 4;
      y := y + 1;
    }
    if srcWidth <= destWidth {
      AllPixels(From32To32, source, s, was, d, srcWidth, h);
    }
  }

  /** Copying by rows and converting pixel by pixel give the same memory. */
  lemma RowsAreWords(src: Bytes, s: Grid, m: Bytes, byRows: Bytes, byPixels: Bytes, d: Grid, w: int, h: int)
    requires Converted(From32To32, src, s, m, byRows, d, w, h) && Converted(From32To32, src, s, m, byPixels, d, w, h)
    ensures byRows == byPixels
  {
  }

  // ----- images of either source format on the displayed frame

  // The colour of an image's pixel: three-byte pixels start with red, four-byte pixels with blue.
  ghost function ImageColour(data: Bytes, g: Grid, r: nat, c: nat): bv32 {
    PixelColour(PixelAt(data, g, r, c))
  }

  function PixelColour(p: Bytes): bv32 {
    if |p| == 3 then ((p[0] as bv32) << 16) | ((p[1] as bv32) << 8) | (p[2] as bv32)
    else if |p| == 4 then ((p[2] as bv32) << 16) | ((p[1] as bv32) << 8) | (p[0] as bv32)
    else 0
  }

  /** gimp_bmp.h calls four-byte pixels RGBA. Shown as 32-bit pixels they get the colour that order means exactly
      when red and blue are equal; three-byte pixels, called RGB, always do. */
  lemma ShownAsDocumented(data: Bytes, g: Grid, r: nat, c: nat)
    requires (g.unit == 3 || g.unit == 4) && |PixelAt(data, g, r, c)| == g.unit
    ensures var p := PixelAt(data, g, r, c);
            var documented := ((p[0] as bv32) << 16) | ((p[1] as bv32) << 8) | (p[2] as bv32);
            ImageColour(data, g, r, c) == documented <==> g.unit == 3 || p[0] == p[2]
  {
  }

  /** What an image shows inside inclusive limits, without its transparent colour. */
  ghost function Picture(data: Bytes, g: Grid, wFit: int, hFit: int, transparent: Option<bv32>): Cells {
    (r: nat, c: nat) =>
      if r <= hFit && c <= wFit && transparent != Some(ImageColour(data, g, r, c))
      then Some(Bytes32(ImageColour(data, g, r, c))) else None
  }

  function To32(bytesPerPixel: nat): Conversion {
    if bytesPerPixel == 4 then From32To32 else From24To32
  }

  // The colour of a pixel and the colour of its loaded form.
  lemma LoadedColour(bytesPerPixel: nat, p: Bytes)
    requires (bytesPerPixel == 3 || bytesPerPixel == 4) && |p| == bytesPerPixel
    ensures To32(bytesPerPixel).SrcUnit() == bytesPerPixel && To32(bytesPerPixel).DstUnit() == 4
    ensures Colour(To32(bytesPerPixel).Pixel(p)) == PixelColour(p)
  {
  }

  lemma LoadedPixel(data: Bytes, bytesPerPixel: nat, loaded: Bytes, b: Blit, r: nat, c: nat)
    requires bytesPerPixel == 3 || bytesPerPixel == 4
    requires Holds(To32(bytesPerPixel), data, Grid(0, b.width, bytesPerPixel), loaded, b.Source(), b.width, b.height)
    requires r < b.height && c < b.width
    ensures b.Cells(loaded)(r, c) == Picture(data, Grid(0, b.width, bytesPerPixel), b.wFit, b.hFit, b.transparent)(r, c)
  {
    hide Colour, PixelColour, Conversion.Pixel, Conversion.SrcUnit, Conversion.DstUnit, Grid.At, Bytes32, To32, Holds;
    var g := Grid(0, b.width, bytesPerPixel);
    LoadedColour(bytesPerPixel, seq(bytesPerPixel, _ => 0));
    HoldsAt(To32(bytesPerPixel), data, g, loaded, b.Source(), b.width, b.height, r, c);
    LoadedColour(bytesPerPixel, PixelAt(data, g, r, c));
  }

  /** Loading at 32 bits and blitting draws the image itself. */
  lemma LoadedAndBlitted(data: Bytes, bytesPerPixel: nat, loaded: Bytes, b: Blit, m: Bytes)
    requires bytesPerPixel == 3 || bytesPerPixel == 4
    requires Holds(To32(bytesPerPixel), data, Grid(0, b.width, bytesPerPixel), loaded, b.Source(), b.width, b.height)
    ensures b.Result(m, b.Cells(loaded))
         == b.Result(m, Picture(data, Grid(0, b.width, bytesPerPixel), b.wFit, b.hFit, b.transparent))
  {
    hide Blit.Cells, Picture, Holds, Paint;
    var f := Picture(data, Grid(0, b.width, bytesPerPixel), b.wFit, b.hFit, b.transparent);
    forall r: nat, c: nat | r < b.height && c < b.width
      ensures b.Cells(loaded)(r, c) == f(r, c)
    {
      LoadedPixel(data, bytesPerPixel, loaded, b, r, c);
    }
    PaintSame(m, b.Target(), b.width, b.Cells(loaded), f, b.height, 0);
  }

  // The part of a picture inside the limits is inside the memory, and inside its lines if it is narrow enough.
  lemma PictureLands(data: Bytes, g: Grid, b: Blit, m: Bytes, r: nat, c: nat)
    requires b.InBounds(|m|) && r < b.height && c < b.width
    ensures var f := Picture(data, g, b.wFit, b.hFit, b.transparent);
            Lands(m, b.Target(), f, r, c) && (b.InLines() ==> Stores(m, b.Target(), f, r, c))
  {
    hide Grid.At, ImageColour, Bytes32;
    if b.WithinLimits(r, c) {
      FitsBound(m, b.Target(), Min(b.height, b.hFit + 1), Min(b.width, b.wFit + 1), r, c);
    }
  }

  /** The frame's word under a pixel of the image, if the visible part is no wider than the frame: the image's
      colour if it is inside the limits and not transparent, what was there before otherwise (unless the frame's
      line ends before that pixel, so that its place belongs to the next row). */
  lemma PictureShows(data: Bytes, g: Grid, b: Blit, m: Bytes, r: nat, c: nat)
    requires b.InBounds(|m|) && b.InLines() && 0 <= b.Origin() && r < b.height && c < b.width
    ensures var f := Picture(data, g, b.wFit, b.hFit, b.transparent);
            var m', a, colour := b.Result(m, f), b.Address(r, c), ImageColour(data, g, r, c);
            && Painted(m, m', b.Target(), b.height, b.width, f)
            && 0 <= a
            && if b.WithinLimits(r, c) && b.transparent != Some(colour)
               then a + 4 <= |m| && Word32(m'[a..a + 4]) == colour
               else c < b.destWidth && a + 4 <= |m| ==> m'[a..a + 4] == m[a..a + 4]
  {
    hide ImageColour, Bytes32, Grid.At, Paint;
    var f := Picture(data, g, b.wFit, b.hFit, b.transparent);
    var m' := b.Result(m, f);
    forall r: nat, c: nat | r < b.height && c < b.width
      ensures Stores(m, b.Target(), f, r, c)
    {
      PictureLands(data, g, b, m, r, c);
    }
    PaintPaints(m, b.Target(), b.height, b.width, f);
    b.AddressAt(r, c);
    assert Shows(m', b.Target(), f, r, c);
    if f(r, c).None? && c < b.destWidth && b.Address(r, c) + 4 <= |m| {
      PaintedKeeps(m, m', b.Target(), b.height, b.width, f, r, c);
    }
  }

  /** Also where the rows of a wide picture run into each other, the last pixel stored at a place of the frame is
      the one that shows. */
  lemma LastPixelShows(data: Bytes, g: Grid, b: Blit, m: Bytes, r: nat, c: nat)
    requires b.InBounds(|m|) && 0 <= b.Origin() && r < b.height && c < b.width
    requires b.WithinLimits(r, c) && b.transparent != Some(ImageColour(data, g, r, c))
    requires var f := Picture(data, g, b.wFit, b.hFit, b.transparent);
             forall r1: nat, c1: nat | Before(r, c, r1, c1) && r1 < b.height && c1 < b.width && f(r1, c1).Some? ::
               b.Address(r1, c1) != b.Address(r, c)
    ensures var m', a := b.Result(m, Picture(data, g, b.wFit, b.hFit, b.transparent)), b.Address(r, c);
            0 <= a && a + 4 <= |m| && Word32(m'[a..a + 4]) == ImageColour(data, g, r, c)
  {
    hide ImageColour, Bytes32, Paint;
    var f := Picture(data, g, b.wFit, b.hFit, b.transparent);
    PictureLands(data, g, b, m, r, c);
    b.AddressAt(r, c);
    forall r1: nat, c1: nat | Before(r, c, r1, c1) && Before(r1, c1, b.height, 0) && c1 < b.width && f(r1, c1).Some?
      ensures b.Target().Place(r1, c1) != b.Target().Place(r, c)
    {
      b.AddressAt(r1, c1);
    }
    PaintLast(m, b.Target(), b.width, f, b.height, 0, r, c);
  }

  /** A byte at which no pixel is stored is as before. */
  lemma ElsewhereKept(data: Bytes, g: Grid, b: Blit, m: Bytes, a: nat)
    requires 0 <= b.Origin() && a < |m|
    requires var f := Picture(data, g, b.wFit, b.hFit, b.transparent);
             forall r: nat, c: nat | r < b.height && c < b.width && f(r, c).Some? ::
               !(b.Address(r, c) <= a < b.Address(r, c) + 4)
    ensures b.Result(m, Picture(data, g, b.wFit, b.hFit, b.transparent))[a] == m[a]
  {
    hide ImageColour, Bytes32, Paint;
    var f := Picture(data, g, b.wFit, b.hFit, b.transparent);
    forall r: nat, c: nat | Before(r, c, b.height, 0) && c < b.width
      ensures !Hits(b.Target(), f, r, c, a)
    {
      b.AddressAt(r, c);
    }
    PaintOutside(m, b.Target(), b.width, f, b.height, 0, a);
  }

  // A picture inside the frame changes no byte outside it.
  lemma StaysInFrame(data: Bytes, g: Grid, b: Blit, m: Bytes, rows: nat, a: nat)
    requires b.InFrame(rows) && a < |m| && !(b.dest <= a < b.dest + rows * b.destWidth * 4)
    ensures b.Result(m, Picture(data, g, b.wFit, b.hFit, b.transparent))[a] == m[a]
  {
    hide ImageColour, Bytes32, Paint;
    var f := Picture(data, g, b.wFit, b.hFit, b.transparent);
    forall r: nat, c: nat | Before(r, c, b.height, 0) && c < b.width
      ensures !Hits(b.Target(), f, r, c, a)
    {
      if f(r, c).Some? {
        PlaceInFrame(b, rows, r, c);
      }
    }
    PaintOutside(m, b.Target(), b.width, f, b.height, 0, a);
  }

  lemma PlaceInFrame(b: Blit, rows: nat, r: nat, c: nat)
    requires b.InFrame(rows) && r < b.height && c < b.width && b.WithinLimits(r, c)
    ensures b.dest <= b.Target().At(r, c) && b.Target().At(r, c) + 4 <= b.dest + rows * b.destWidth * 4
  {
    var R, C := r + b.y, c + b.x;
    MulMono(R + 1, rows, b.destWidth);
    assert (R + 1) * b.destWidth == R * b.destWidth + b.destWidth;
    assert b.y * b.destWidth >= 0;
    b.AddressAt(r, c);
  }

  // The bytes of an image's colour.
  lemma ImageBytes(p: Bytes, transparent: Option<bv32>)
    requires |p| == 3 || |p| == 4
    ensures var shown := if |p| == 3 then [p[2], p[1], p[0], 0] else [p[0], p[1], p[2], 0];
            && Bytes32(PixelColour(p)) == shown
            && (transparent != Some(PixelColour(p)) <==> (transparent.Some? ==> shown != Bytes32(transparent.value)))
  {
    if |p| == 3 {
      ColourBytes(p[0], p[1], p[2]);
    } else {
      ColourBytes(p[2], p[1], p[0]);
    }
    if transparent.Some? {
      SameWord(PixelColour(p), transparent.value);
    }
  }

  /** A picture whose visible part is inside a frame of `rows` lines of `line` pixels at `base`: at row `r + y` and
      column `c + x` the frame shows the colour of the image's pixel at row `r` and column `c`, if that is inside the
      limits and not transparent, and otherwise what was there before. */
  lemma ImagePlaced(base: nat, line: nat, rows: nat, data: Bytes, unit: nat, iw: nat, ih: nat, x: int, y: int,
                    wFit: int, hFit: int, transparent: Option<bv32>, m: Bytes, r: nat, c: nat)
    requires (unit == 3 || unit == 4) && iw * ih * unit <= |data| && base + rows * line * 4 <= |m|
    requires 0 <= x && 0 <= y && Min(iw, wFit + 1) + x <= line && Min(ih, hFit + 1) + y <= rows
    requires r < ih && c < iw && r + y < rows && c + x < line
    ensures var m' := Blit(base, line, iw, ih, x, y, wFit, hFit, transparent)
                      .Result(m, Picture(data, Grid(0, iw, unit), wFit, hFit, transparent));
            var a, i := base + 4 * ((r + y) * line + (c + x)), (r * iw + c) * unit;
            && 0 <= i && i + unit <= |data| && 0 <= a && a + 4 <= |m|
            && var p := data[i..i + unit];
            var shown := if unit == 3 then [p[2], p[1], p[0], 0] else [p[0], p[1], p[2], 0];
            m'[a..a + 4] == if r <= hFit && c <= wFit && (transparent.Some? ==> shown != Bytes32(transparent.value))
                            then shown else m[a..a + 4]
  {
    hide Bytes32, Blit.Result, PixelColour, Picture, Grid.At;
    var b, g := Blit(base, line, iw, ih, x, y, wFit, hFit, transparent), Grid(0, iw, unit);
    ImageFits(b, rows, data, unit, |m|, r, c);
    ImageBytes(PixelAt(data, g, r, c), transparent);
    PictureBytes(data, g, b, m, r, c);
  }

  // Where the pixel is read and where it is shown.
  lemma ImageFits(b: Blit, rows: nat, data: Bytes, unit: nat, size: nat, r: nat, c: nat)
    requires b.width * b.height * unit <= |data| && b.dest + rows * b.destWidth * 4 <= size
    requires 0 <= b.x && Min(b.width, b.wFit + 1) + b.x <= b.destWidth
    requires 0 <= b.y && Min(b.height, b.hFit + 1) + b.y <= rows
    requires r < b.height && c < b.width && r + b.y < rows && c + b.x < b.destWidth
    ensures var i, a := (r * b.width + c) * unit, b.dest + 4 * ((r + b.y) * b.destWidth + (c + b.x));
            && 0 <= i && i + unit <= |data| && PixelAt(data, Grid(0, b.width, unit), r, c) == data[i..i + unit]
            && 0 <= a && a + 4 <= size && b.Address(r, c) == a
    ensures b.InBounds(size) && b.InLines() && 0 <= b.Origin()
  {
    ImageRead(b.width, b.height, unit, data, r, c);
    PlaceShown(b.dest, b.destWidth, rows, size, r + b.y, c + b.x);
    PictureInBounds(b, rows, size);
    hide Blit.InBounds, Blit.InLines, Blit.Origin, Grid.At, PixelAt;
  }

  lemma ImageRead(iw: nat, ih: nat, unit: nat, data: Bytes, r: nat, c: nat)
    requires iw * ih * unit <= |data| && r < ih && c < iw
    ensures var i := (r * iw + c) * unit;
            0 <= i && i + unit <= |data| && PixelAt(data, Grid(0, iw, unit), r, c) == data[i..i + unit]
  {
    WholeImage(iw, ih, unit, |data|, r, c);
  }

  lemma PlaceShown(base: nat, line: nat, rows: nat, size: nat, r: nat, c: nat)
    requires base + rows * line * 4 <= size && r < rows && c < line
    ensures 0 <= base + 4 * (r * line + c) && base + 4 * (r * line + c) + 4 <= size
  {
    PixelInside(base, line, rows, size, r, c);
  }

  lemma PictureBytes(data: Bytes, g: Grid, b: Blit, m: Bytes, r: nat, c: nat)
    requires b.InBounds(|m|) && b.InLines() && 0 <= b.Origin() && r < b.height && c < b.width && c < b.destWidth
    requires 0 <= b.Address(r, c) && b.Address(r, c) + 4 <= |m|
    ensures var m', a := b.Result(m, Picture(data, g, b.wFit, b.hFit, b.transparent)), b.Address(r, c);
            m'[a..a + 4] == if r <= b.hFit && c <= b.wFit && b.transparent != Some(PixelColour(PixelAt(data, g, r, c)))
                            then Bytes32(PixelColour(PixelAt(data, g, r, c))) else m[a..a + 4]
  {
    hide Bytes32, Blit.Result, PixelColour, Word32, Picture;
    var a := b.Address(r, c);
    PictureShows(data, g, b, m, r, c);
    BytesOfWord32(b.Result(m, Picture(data, g, b.wFit, b.hFit, b.transparent))[a..a + 4]);
  }

  /** In a frame of `line` pixels a line at `base` the pixel at row `r + y` and column `c + x` has the colour of pixel
      (r, c) of an image `iw` pixels wide, if that is inside the inclusive limits and not transparent; otherwise it is
      as it was. */
  ghost predicate ShownAt(was: Bytes, now: Bytes, base: nat, line: nat, x: int, y: int, data: Bytes, unit: nat, iw: nat,
                          wFit: int, hFit: int, transparent: Option<bv32>, r: nat, c: nat)
  {
    var a, i := base + 4 * ((r + y) * line + (c + x)), (r * iw + c) * unit;
    && (unit == 3 || unit == 4) && 0 <= i && i + unit <= |data| && 0 <= a && a + 4 <= |was| == |now|
    && var p := data[i..i + unit];
    var shown := if unit == 3 then [p[2], p[1], p[0], 0] else [p[0], p[1], p[2], 0];
    now[a..a + 4] == if r <= hFit && c <= wFit && (transparent.Some? ==> shown != Bytes32(transparent.value)) then shown
                     else was[a..a + 4]
  }

  // All pixels of the image that lie inside the frame.
  ghost predicate AllShown(was: Bytes, now: Bytes, base: nat, line: nat, rows: nat, x: int, y: int,
                           data: Bytes, unit: nat, iw: nat, ih: nat, wFit: int, hFit: int, transparent: Option<bv32>)
  {
    forall r: nat, c: nat | r < ih && c < iw && r + y < rows && c + x < line ::
      ShownAt(was, now, base, line, x, y, data, unit, iw, wFit, hFit, transparent, r, c)
  }

  lemma ImageShown(was: Bytes, base: nat, line: nat, rows: nat, x: int, y: int, data: Bytes, unit: nat,
                   iw: nat, ih: nat, wFit: int, hFit: int, transparent: Option<bv32>)
    requires (unit == 3 || unit == 4) && iw * ih * unit <= |data| && base + rows * line * 4 <= |was|
    requires 0 <= x && 0 <= y && Min(iw, wFit + 1) + x <= line && Min(ih, hFit + 1) + y <= rows
    ensures AllShown(was, Blit(base, line, iw, ih, x, y, wFit, hFit, transparent)
                          .Result(was, Picture(data, Grid(0, iw, unit), wFit, hFit, transparent)),
                     base, line, rows, x, y, data, unit, iw, ih, wFit, hFit, transparent)
  {
    hide Blit.Result, Picture, Bytes32;
    forall r: nat, c: nat | r < ih && c < iw && r + y < rows && c + x < line
      ensures ShownAt(was, Blit(base, line, iw, ih, x, y, wFit, hFit, transparent)
                           .Result(was, Picture(data, Grid(0, iw, unit), wFit, hFit, transparent)),
                      base, line, x, y, data, unit, iw, wFit, hFit, transparent, r, c)
    {
      ImagePlaced(base, line, rows, data, unit, iw, ih, x, y, wFit, hFit, transparent, was, r, c);
    }
  }

  lemma ShortImage(image: GimpImage)
    requires Drawable(image)
    ensures Max0(ToShort(image.width)) * Max0(ToShort(image.height)) * image.bytesPerPixel <= image.pixelData.Length
  {
    MulMono(Max0(ToShort(image.height)), image.height, Max0(ToShort(image.width)));
    MulMono(Max0(ToShort(image.width)), image.width, image.height);
    MulMono(Max0(ToShort(image.width)) * Max0(ToShort(image.height)), image.width * image.height, image.bytesPerPixel);
  }

  lemma WholeImage(iw: nat, ih: nat, unit: nat, size: nat, r: nat, c: nat)
    requires iw * ih * unit <= size && r < ih && c < iw
    ensures 0 <= (r * iw + c) * unit && (r * iw + c) * unit + unit <= size
  {
    MulMono(r + 1, ih, iw);
    assert (r + 1) * iw == r * iw + iw && ih * iw == iw * ih;
    MulMono(r * iw + c + 1, iw * ih, unit);
    assert (r * iw + c + 1) * unit == (r * iw + c) * unit + unit;
  }

  lemma PixelInside(base: nat, line: nat, rows: nat, size: nat, r: nat, c: nat)
    requires r < rows && c < line
    ensures base + rows * line * 4 <= size ==> base + 4 * (r * line + c) + 4 <= size
  {
    PlaceInRows(Grid(base, line, 4), rows, r, c);
  }

  lemma PictureInBounds(b: Blit, rows: nat, size: nat)
    requires b.dest + rows * b.destWidth * 4 <= size && b.InFrame(rows) && 0 <= b.x && 0 <= b.y
    ensures b.InBounds(size) && b.InLines() && 0 <= b.Origin()
  {
    var w, h := Min(b.width, b.wFit + 1), Min(b.height, b.hFit + 1);
    assert b.y * b.destWidth >= 0;
    if w > 0 && h > 0 {
      PlaceInFrame(b, rows, h - 1, w - 1);
    }
  }

  // The copy that puts a loaded image on the displayed frame.
  ghost function OnDisplay(display: FrameReader, image: GimpImage, x: int, y: int, wFit: int, hFit: int,
                           transparent: Option<bv32>): Blit
    reads display, display.sdram
  {
    Blit(display.State().DisplayBase(), display.width, Max0(ToShort(image.width)), Max0(ToShort(image.height)),
         x, y, wFit, hFit, transparent)
  }

  ghost predicate Drawable(image: GimpImage) {
    && (image.bytesPerPixel == 3 || image.bytesPerPixel == 4)
    && image.pixelData.Length == image.width * image.height * image.bytesPerPixel
  }

  ghost function DataGrid(image: GimpImage): Grid {
    Grid(0, Max0(ToShort(image.width)), image.bytesPerPixel)
  }

  // The two frames are apart and big enough for 32-bit pixels.
  ghost predicate TwoFrames(display: FrameReader)
    reads display, display.sdram
  {
    display.Valid() && display.State().Apart() && display.bytesPerPixel >= 4
  }

  // Images inside the displayed frame are seen at once.
  lemma PictureSeen(s: Screen, b: Blit, rows: nat, data: Bytes, g: Grid)
    requires s.Valid() && s.Apart() && b.dest == s.DisplayBase() && b.InFrame(rows) && rows * b.destWidth * 4 <= s.size
    ensures SeenAtOnce(s, s.(mem := b.Result(s.mem, Picture(data, g, b.wFit, b.hFit, b.transparent))))
  {
    hide Picture, Blit.Result, SeenAtOnce, Screen.Apart, Screen.Valid, Blit.InFrame;
    var m := b.Result(s.mem, Picture(data, g, b.wFit, b.hFit, b.transparent));
    forall a: nat | a < |m| && !(s.DisplayBase() <= a < s.DisplayBase() + s.size)
      ensures m[a] == s.mem[a]
    {
      StaysInFrame(data, g, b, s.mem, rows, a);
    }
    DrawnOnDisplay(s, m);
  }

  lemma FrameFits(display: FrameReader)
    requires TwoFrames(display)
    ensures display.height * display.width * 4 <= display.State().size
  {
    assert display.height * display.width == display.width * display.height;
    MulMono(4, display.bytesPerPixel, display.height * display.width);
  }

  // The pixels of the displayed frame.
  ghost function DisplayGrid(display: FrameReader): Grid
    reads display, display.sdram
  {
    Grid(display.State().DisplayBase(), display.width, 4)
  }

  // A loaded image has all the pixels its bitmap speaks of.
  lemma LoadedComplete(image: GimpImage, b: Blit)
    requires b.width == Max0(ToShort(image.width)) && b.height == Max0(ToShort(image.height))
    ensures b.Complete(BufferSize(image.width, image.height, 4))
  {
    MulMono(b.height, image.height, b.width);
    MulMono(b.width, image.width, image.height);
  }

  // What loading at 32 bits does.
  lemma LoadsAt32(bytesPerPixel: nat)
    requires bytesPerPixel == 3 || bytesPerPixel == 4
    ensures ConversionFor(bytesPerPixel, 32) == Some(To32(bytesPerPixel))
    ensures To32(bytesPerPixel).SrcUnit() == bytesPerPixel && To32(bytesPerPixel).DstUnit() == 4
  {
  }

  lemma HoldsPixels(k: Conversion, src: Bytes, s: Grid, dst: Bytes, d: Grid, w: int, h: int)
    requires Holds(k, src, s, dst, d, w, h)
    ensures Holds(k, src, s, dst, d, Max0(w), Max0(h))
  {
  }

  method DisplayedFrame(display: FrameReader) returns (base: nat)
    ensures base == display.State().DisplayBase()
  {
    base := if display.displayFrame == 0 then display.frame0Base else display.frame1Base;
  }

  /** `DispIMAGE_fit`: the top left part of the image, with one more row and column than `h` and `w`. */
  method DispImageFit(display: FrameReader, image: GimpImage, x: int, y: int, w: int, h: int, malloced: nat -> bv8)
    returns (ok: int)
    requires Drawable(image) && image.pixelData != display.sdram
    requires OnDisplay(display, image, x, y, w, h, None).InBounds(display.sdram.Length)
    modifies display.sdram
    ensures ok == 1
    ensures var b := OnDisplay(display, image, x, y, w, h, None);
            display.sdram[..] == b.Result(old(display.sdram[..]),
                                          Picture(image.pixelData[..], DataGrid(image), w, h, None))
    ensures old(TwoFrames(display)) && OnDisplay(display, image, x, y, w, h, None).InFrame(display.height) ==>
              SeenAtOnce(old(display.State()), display.State())
    ensures var base := if display.displayFrame == 0 then display.frame0Base else display.frame1Base;
            var iw, ih := Max0(ToShort(image.width)), Max0(ToShort(image.height));
            0 <= x && 0 <= y && Min(iw, w + 1) + x <= display.width && Min(ih, h + 1) + y <= display.height
            && base + display.height * display.width * 4 <= display.sdram.Length ==>
              AllShown(old(display.sdram[..]), display.sdram[..], base, display.width, display.height, x, y,
                       image.pixelData[..], image.bytesPerPixel, iw, ih, w, h, None)
  {
    hide Blit.Result, Blit.Cells, Blit.InBounds, Blit.InFrame, Blit.Complete;
    hide Picture, Holds, ToShort, To32, SeenAtOnce, AllShown;
    ghost var b := OnDisplay(display, image, x, y, w, h, None);
    ghost var s, buffered := display.State(), TwoFrames(display);
    if buffered {
      FrameFits(display);
    }
    LoadedComplete(image, b);
    LoadsAt32(image.bytesPerPixel);
    var bitmap := new Bitmap();
    var _ := LoadGimpBmp(image, bitmap, 32, malloced);
    var base := DisplayedFrame(display);
    CopyImageClipped(display.sdram, base, bitmap.data, display.width, bitmap.biWidth, bitmap.biHeight, x, y, w, h,
                     None, b);
    HoldsPixels(To32(image.bytesPerPixel), image.pixelData[..], DataGrid(image), bitmap.data[..], b.Source(),
                bitmap.biWidth, bitmap.biHeight);
    LoadedAndBlitted(image.pixelData[..], image.bytesPerPixel, bitmap.data[..], b, old(display.sdram[..]));
    if buffered && b.InFrame(display.height) {
      PictureSeen(s, b, display.height, image.pixelData[..], DataGrid(image));
    }
    if 0 <= x && 0 <= y && Min(b.width, w + 1) + x <= display.width && Min(b.height, h + 1) + y <= display.height
       && base + display.height * display.width * 4 <= display.sdram.Length {
      ShortImage(image);
      ImageShown(s.mem, base, display.width, display.height, x, y, image.pixelData[..], image.bytesPerPixel,
                 b.width, b.height, w, h, None);
    }
    ok := 1;
  }

  /** `DispIMAGE_from_gimp`: the whole image, except the pixels of the transparent colour. */
  method DispImageFromGimp(display: FrameReader, image: GimpImage, x: int, y: int, transparent: bv32,
                           malloced: nat -> bv8) returns (ok: int)
    requires Drawable(image) && image.pixelData != display.sdram
    requires OnDisplay(display, image, x, y, ToShort(image.width), ToShort(image.height), Some(transparent))
             .InBounds(display.sdram.Length)
    modifies display.sdram
    ensures ok == 1
    ensures var b := OnDisplay(display, image, x, y, ToShort(image.width), ToShort(image.height), Some(transparent));
            display.sdram[..]
              == b.Result(old(display.sdram[..]),
                          Picture(image.pixelData[..], DataGrid(image), b.wFit, b.hFit, Some(transparent)))
    ensures old(TwoFrames(display))
         && OnDisplay(display, image, x, y, ToShort(image.width), ToShort(image.height), Some(transparent))
            .InFrame(display.height)
         ==> SeenAtOnce(old(display.State()), display.State())
    ensures var base := if display.displayFrame == 0 then display.frame0Base else display.frame1Base;
            var iw, ih := Max0(ToShort(image.width)), Max0(ToShort(image.height));
            0 <= x && 0 <= y && iw + x <= display.width && ih + y <= display.height
            && base + display.height * display.width * 4 <= display.sdram.Length ==>
              AllShown(old(display.sdram[..]), display.sdram[..], base, display.width, display.height, x, y,
                       image.pixelData[..], image.bytesPerPixel, iw, ih, ToShort(image.width), ToShort(image.height),
                       Some(transparent))
  {
    hide Blit.Result, Blit.Cells, Blit.InBounds, Blit.InFrame, Blit.Complete;
    hide Picture, Holds, ToShort, To32, SeenAtOnce, AllShown;
    ghost var b := OnDisplay(display, image, x, y, ToShort(image.width), ToShort(image.height), Some(transparent));
    ghost var s, buffered := display.State(), TwoFrames(display);
    if buffered {
      FrameFits(display);
    }
    LoadedComplete(image, b);
    LoadsAt32(image.bytesPerPixel);
    var bitmap := new Bitmap();
    var _ := LoadGimpBmp(image, bitmap, 32, malloced);
    var base := DisplayedFrame(display);
    CopyImageClipped(display.sdram, base, bitmap.data, display.width, bitmap.biWidth, bitmap.biHeight, x, y,
                     bitmap.biWidth, bitmap.biHeight, Some(transparent), b);
    HoldsPixels(To32(image.bytesPerPixel), image.pixelData[..], DataGrid(image), bitmap.data[..], b.Source(),
                bitmap.biWidth, bitmap.biHeight);
    LoadedAndBlitted(image.pixelData[..], image.bytesPerPixel, bitmap.data[..], b, old(display.sdram[..]));
    if buffered && b.InFrame(display.height) {
      PictureSeen(s, b, display.height, image.pixelData[..], DataGrid(image));
    }
    if 0 <= x && 0 <= y && b.width + x <= display.width && b.height + y <= display.height
       && base + display.height * display.width * 4 <= display.sdram.Length {
      ShortImage(image);
      ImageShown(s.mem, base, display.width, display.height, x, y, image.pixelData[..], image.bytesPerPixel,
                 b.width, b.height, b.wFit, b.hFit, Some(transparent));
    }
    ok := 1;
  }

  /** `DispIMAGE`: the image always goes to the top left corner, whatever position is asked for, and its
      32-bit pixels are stored whole. */
  method DispImage(display: FrameReader, x: int, y: int, image: GimpImage, malloced: nat -> bv8)
    requires Drawable(image) && image.pixelData != display.sdram
    requires 0 <= ToShort(image.width)
    requires Room(display.sdram.Length, DisplayGrid(display), ToShort(image.width), ToShort(image.height))
    modifies display.sdram
    ensures display.sdram[..] == Copied(To32(image.bytesPerPixel), image.pixelData[..], DataGrid(image),
                                        old(display.sdram[..]), DisplayGrid(display), ToShort(image.width),
                                        ToShort(image.height))
    ensures old(TwoFrames(display)) && ToShort(image.width) <= display.width && ToShort(image.height) <= display.height
         ==> SeenAtOnce(old(display.State()), display.State())
    ensures var base := if display.displayFrame == 0 then display.frame0Base else display.frame1Base;
            ToShort(image.width) <= display.width ==>
              AllCopied(display.sdram[..], base, display.width, image.pixelData[..], image.bytesPerPixel,
                        Max0(ToShort(image.width)), Max0(ToShort(image.height)))
  {
    hide SeenAtOnce, AllCopied;
    ghost var s, d := display.State(), DisplayGrid(display);
    var bitmap := new Bitmap();
    var _ := LoadGimpBmp(image, bitmap, 32, malloced);
    var base := DisplayedFrame(display);
    RoomForAll(image.width, image.height, bitmap.biWidth, bitmap.biHeight, 4);
    CopyImageRows(display.sdram, base, bitmap.data, display.width, bitmap.biWidth, bitmap.biHeight);
    LoadedAndCopied(image.pixelData[..], DataGrid(image), bitmap.data[..], Grid(0, bitmap.biWidth, 4),
                    old(display.sdram[..]), Grid(base, display.width, 4), bitmap.biWidth, bitmap.biHeight);
    if old(TwoFrames(display)) && bitmap.biWidth <= display.width && bitmap.biHeight <= display.height {
      FrameFits(display);
      CopySeen(s, To32(image.bytesPerPixel), image.pixelData[..], DataGrid(image), d, bitmap.biWidth, bitmap.biHeight,
               display.height);
    }
    if bitmap.biWidth <= display.width && bitmap.biHeight >= 0 {
      ImageRoom(image);
      ImageCopied(s.mem, base, display.width, image.pixelData[..], image.bytesPerPixel,
                  bitmap.biWidth, bitmap.biHeight);
    } else if bitmap.biWidth <= display.width {
      NothingCopied(display.sdram[..], base, display.width, image.pixelData[..], image.bytesPerPixel, bitmap.biWidth);
    }
  }

  lemma NothingCopied(now: Bytes, base: nat, line: nat, data: Bytes, unit: nat, iw: nat)
    ensures AllCopied(now, base, line, data, unit, iw, 0)
  {
  }

  lemma ImageRoom(image: GimpImage)
    requires Drawable(image)
    ensures Room(image.pixelData.Length, DataGrid(image), Max0(ToShort(image.width)), Max0(ToShort(image.height)))
  {
    BufferSizes(image.width, image.height, image.bytesPerPixel);
    RoomForAll(image.width, image.height, Max0(ToShort(image.width)), Max0(ToShort(image.height)), image.bytesPerPixel);
  }

  /** In a frame of `line` pixels a line at `base` the pixel at row `r` and column `c` is pixel (r, c) of an image `iw`
      pixels wide: its four bytes, or its three bytes reversed and 0xff. */
  ghost predicate CopiedAt(now: Bytes, base: nat, line: nat, data: Bytes, unit: nat, iw: nat, r: nat, c: nat) {
    var a, i := base + 4 * (r * line + c), (r * iw + c) * unit;
    && (unit == 3 || unit == 4) && 0 <= i && i + unit <= |data| && 0 <= a && a + 4 <= |now|
    && var p := data[i..i + unit]; now[a..a + 4] == if unit == 3 then [p[2], p[1], p[0], 0xff] else p
  }

  ghost predicate AllCopied(now: Bytes, base: nat, line: nat, data: Bytes, unit: nat, iw: nat, ih: nat) {
    forall r: nat, c: nat | r < ih && c < iw :: CopiedAt(now, base, line, data, unit, iw, r, c)
  }

  lemma ImageCopied(was: Bytes, base: nat, line: nat, data: Bytes, unit: nat, iw: nat, ih: nat)
    requires (unit == 3 || unit == 4) && iw <= line && Room(|was|, Grid(base, line, 4), iw, ih)
    requires Room(|data|, Grid(0, iw, unit), iw, ih)
    ensures AllCopied(Copied(To32(unit), data, Grid(0, iw, unit), was, Grid(base, line, 4), iw, ih),
                      base, line, data, unit, iw, ih)
  {
    hide Copied, Room, Holds;
    var now := Copied(To32(unit), data, Grid(0, iw, unit), was, Grid(base, line, 4), iw, ih);
    AllPixels(To32(unit), data, Grid(0, iw, unit), was, Grid(base, line, 4), iw, ih);
    forall r: nat, c: nat | r < ih && c < iw
      ensures CopiedAt(now, base, line, data, unit, iw, r, c)
    {
      ConvertedBytes(To32(unit), data, Grid(0, iw, unit), now, Grid(base, line, 4), iw, ih, r, c);
    }
  }

  lemma CopySeen(s: Screen, k: Conversion, data: Bytes, g: Grid, d: Grid, w: int, h: int, rows: nat)
    requires s.Valid() && s.Apart() && d.base == s.DisplayBase() && d.unit == 4 && rows * d.line * 4 <= s.size
    requires w <= d.line && h <= rows
    ensures SeenAtOnce(s, s.(mem := Copied(k, data, g, s.mem, d, w, h)))
  {
    hide Paint, Pixels, SeenAtOnce, Screen.Apart, Screen.Valid;
    var m := Copied(k, data, g, s.mem, d, w, h);
    forall a: nat | a < |m| && !(s.DisplayBase() <= a < s.DisplayBase() + s.size)
      ensures m[a] == s.mem[a]
    {
      forall r: nat, c: nat | Before(r, c, Max0(h), 0) && c < Max0(w)
        ensures !Hits(d, Pixels(k, data, g), r, c, a)
      {
        PlaceInRows(d, rows, r, c);
      }
      PaintOutside(s.mem, d, Max0(w), Pixels(k, data, g), Max0(h), 0, a);
    }
    DrawnOnDisplay(s, m);
  }

  lemma PlaceInRows(d: Grid, rows: nat, r: nat, c: nat)
    requires r < rows && c < d.line && d.unit == 4
    ensures d.base <= d.At(r, c) && d.At(r, c) + 4 <= d.base + rows * d.line * 4
  {
    MulMono(r + 1, rows, d.line);
    assert (r + 1) * d.line == r * d.line + d.line;
  }

  /** Copying a loaded image at 32 bits draws what converting the image itself would. */
  lemma LoadedAndCopied(data: Bytes, g: Grid, loaded: Bytes, s: Grid, m: Bytes, d: Grid, w: nat, h: int)
    requires (g.unit == 3 || g.unit == 4) && s.unit == 4 && Holds(To32(g.unit), data, g, loaded, s, w, h)
    ensures Copied(From32To32, loaded, s, m, d, w, h) == Copied(To32(g.unit), data, g, m, d, w, h)
  {
    var f, f' := Pixels(From32To32, loaded, s), Pixels(To32(g.unit), data, g);
    forall r: nat, c: nat | r < h && c < w
      ensures f(r, c) == f'(r, c)
    {
      HoldsAt(To32(g.unit), data, g, loaded, s, w, h, r, c);
    }
    PaintSame(m, d, w, f, f', Max0(h), 0);
  }
}
