/** Loading an image exported by GIMP into a bitmap: six strided pixel-format converters and the
    dispatcher that picks one of them (graphic_lib/gimp_bmp.c). */
module GimpBmp {
  import opened Raster
  import opened Words

  datatype Conversion = From32To32 | From32To24 | From32To16 | From24To32 | From24To24 | From24To16 {
    function SrcUnit(): nat {
      if From32To32? || From32To24? || From32To16? then 4 else 3
    }

    function DstUnit(): nat {
      if From32To32? || From24To32? then 4 else if From32To24? || From24To24? then 3 else 2
    }

    /** What becomes of one pixel. */
    function Pixel(p: Bytes): (q: Bytes)
      requires |p| == SrcUnit()
      ensures |q| == DstUnit()
    {
      match this
      case From32To32 => [p[0], p[1], p[2], p[3]]
      case From32To24 => [p[0], p[1], p[2]]
      case From32To16 => Bytes16(Pack565(p[0], p[1], p[2]))
      case From24To32 => [p[2], p[1], p[0], 0xff]
      case From24To24 => [p[0], p[1], p[2]]
      case From24To16 => Bytes16(Pack565(p[0], p[1], p[2]))
    }
  }

  // Five, six and five most significant bits of three channels.
  function Pack565(red: bv8, green: bv8, blue: bv8): bv16 {
    (((red >> 3) as bv16) << 11) | (((green >> 2) as bv16) << 5) | ((blue >> 3) as bv16)
  }

  /** The pixels a conversion stores: each is the conversion of the source pixel at the same row and column. */
  ghost function Pixels(k: Conversion, src: Bytes, s: Grid): Cells {
    (r: nat, c: nat) =>
      if s.At(r, c) + k.SrcUnit() <= |src| then Some(k.Pixel(src[s.At(r, c)..s.At(r, c) + k.SrcUnit()])) else None
  }

  // `h` rows of `w` converted pixels are in `dst`.
  ghost predicate Holds(k: Conversion, src: Bytes, s: Grid, dst: Bytes, d: Grid, w: int, h: int) {
    forall r: nat, c: nat | r < h && c < w :: Pixels(k, src, s)(r, c).Some? && Shows(dst, d, Pixels(k, src, s), r, c)
  }

  /** `dst'` is `dst` with `h` rows of `w` converted pixels; padding and everything else is as before. */
  ghost predicate Converted(k: Conversion, src: Bytes, s: Grid, dst: Bytes, dst': Bytes, d: Grid, w: int, h: int) {
    && Painted(dst, dst', d, h, w, Pixels(k, src, s))
    && Holds(k, src, s, dst', d, w, h)
  }

  /** The memory after `h` rows of `w` pixels have been converted one after the other. Where the destination's
      lines are shorter than that, rows run into each other. */
  ghost function Copied(k: Conversion, src: Bytes, s: Grid, dst: Bytes, d: Grid, w: int, h: int): (dst': Bytes)
    ensures |dst'| == |dst|
  {
    Paint(dst, d, Max0(w), Pixels(k, src, s), Max0(h), 0)
  }

  function Max0(x: int): nat {
    if x < 0 then 0 else x
  }

  // The last pixel of `h` rows of `w` pixels ends inside `length` bytes.
  predicate Room(length: nat, g: Grid, w: int, h: int) {
    h > 0 && w > 0 ==> g.At(h - 1, w - 1) + g.unit <= length
  }

  // The pixel a conversion is about to copy: where it is read, where it is written, what becomes of the picture.
  lemma NextPixel(k: Conversion, src: Bytes, s: Grid, dst: Bytes, d: Grid, w: nat, h: nat, r: nat, c: nat)
    requires s.unit == k.SrcUnit() && d.unit == k.DstUnit() && Room(|src|, s, w, h) && Room(|dst|, d, w, h)
    requires r < h && c < w
    ensures s.At(r, c) + k.SrcUnit() <= |src| && s.At(r, c + 1) == s.At(r, c) + k.SrcUnit()
    ensures d.At(r, c) + k.DstUnit() <= |dst| && d.At(r, c + 1) == d.At(r, c) + k.DstUnit()
    ensures Pixels(k, src, s)(r, c) == Some(k.Pixel(src[s.At(r, c)..s.At(r, c) + k.SrcUnit()]))
    ensures Paint(dst, d, w, Pixels(k, src, s), r, c + 1)
         == Put(Paint(dst, d, w, Pixels(k, src, s), r, c), d.At(r, c),
                k.Pixel(src[s.At(r, c)..s.At(r, c) + k.SrcUnit()]))
  {
    FitsBound(src, s, h, w, r, c);
    FitsBound(dst, d, h, w, r, c);
    AtStep(s, r, c);
    AtStep(d, r, c);
  }

  lemma AllPixels(k: Conversion, src: Bytes, s: Grid, dst: Bytes, d: Grid, w: nat, h: nat)
    requires s.unit == k.SrcUnit() && d.unit == k.DstUnit() && Room(|src|, s, w, h) && Room(|dst|, d, w, h)
    requires w <= d.line
    ensures Converted(k, src, s, dst, Copied(k, src, s, dst, d, w, h), d, w, h)
  {
    var f := Pixels(k, src, s);
    forall r: nat, c: nat | r < h && c < w
      ensures f(r, c).Some? && Stores(dst, d, f, r, c)
    {
      NextPixel(k, src, s, dst, d, w, h, r, c);
    }
    PaintPaints(dst, d, h, w, f);
  }

  // The 16-bit pixel cut out of a 32-bit word.
  function ShiftWord(long: bv32): bv16 {
    ((((long >> 3) & 0x1f) << 11) | (((long >> 10) & 0x3f) << 5) | ((long >> 19) & 0x1f)) as bv16
  }

  lemma PackedByShifts(p: Bytes)
    requires |p| == 4
    ensures ShiftWord(Word32(p)) == Pack565(p[0], p[1], p[2])
  {
  }

  lemma PackedByMasks(red: bv8, green: bv8, blue: bv8)
    ensures (((red & 0xf8) as bv16) << 8) | (((green & 0xfc) as bv16) << 3) | (((blue & 0xf8) >> 3) as bv16)
         == Pack565(red, green, blue)
  {
  }

  lemma PutReversed(m: Bytes, a: nat, p: Bytes)
    requires |p| == 4 && a + 4 <= |m|
    ensures m[a + 2 := p[2]][a + 1 := p[1]][a := p[0]][a + 3 := p[3]] == Put(m, a, p)
  {
  }

  /** The bodies of the six inner loops: read one pixel, store what becomes of it, advance both pointers. */
  method CopyPixel(k: Conversion, src: array<bv8>, srcPtr: nat, dst: array<bv8>, dstPtr: nat)
    returns (srcNext: nat, dstNext: nat)
    requires src != dst && srcPtr + k.SrcUnit() <= src.Length && dstPtr + k.DstUnit() <= dst.Length
    modifies dst
    ensures srcNext == srcPtr + k.SrcUnit() && dstNext == dstPtr + k.DstUnit()
    ensures dst[..] == Put(old(dst[..]), dstPtr, k.Pixel(src[srcPtr..srcPtr + k.SrcUnit()]))
  {
    srcNext, dstNext := srcPtr, dstPtr;
    ghost var p := src[srcPtr..srcPtr + k.SrcUnit()];
    PutBytes(dst[..], dstPtr, k.Pixel(p));
    match k {
      case From32To32 =>
        BytesOfWord32(p);
        Store32(dst, dstNext, Load32(src, srcNext));
        srcNext, dstNext := srcNext + 4, dstNext + 4;
      case From32To24 =>
        dst[dstNext] := src[srcNext];
        srcNext, dstNext := srcNext + 1, dstNext + 1;
        dst[dstNext] := src[srcNext];
        srcNext, dstNext := srcNext + 1, dstNext + 1;
        dst[dstNext] := src[srcNext];
        srcNext, dstNext := srcNext + 2, dstNext + 1;
      case From32To16 =>
        var long := Load32(src, srcNext);
        srcNext := srcNext + 4;
        PackedByShifts(p);
        Store16(dst, dstNext, ShiftWord(long));
        dstNext := dstNext + 2;
      case From24To32 =>
        PutReversed(dst[..], dstPtr, k.Pixel(p));
        dst[dstNext + 2] := src[srcNext];
        srcNext, dstNext := srcNext + 1, dstNext + 1;
        dst[dstNext] := src[srcNext];
        srcNext, dstNext := srcNext + 1, dstNext + 1;
        dst[dstNext - 2] := src[srcNext];
        srcNext, dstNext := srcNext + 1, dstNext + 1;
        dst[dstNext] := 0xff;
        dstNext := dstNext + 1;
      case From24To24 =>
        dst[dstNext] := src[srcNext];
        srcNext, dstNext := srcNext + 1, dstNext + 1;
        dst[dstNext] := src[srcNext];
        srcNext, dstNext := srcNext + 1, dstNext + 1;
        dst[dstNext] := src[srcNext];
        srcNext, dstNext := srcNext + 1, dstNext + 1;
      case From24To16 =>
        var short := ((src[srcNext] & 0xf8) as bv16) << 8;
        srcNext := srcNext + 1;
        short := short | (((src[srcNext] & 0xfc) as bv16) << 3);
        srcNext := srcNext + 1;
        short := short | (((src[srcNext] & 0xf8) >> 3) as bv16);
        srcNext := srcNext + 1;
        PackedByMasks(p[0], p[1], p[2]);
        Store16(dst, dstNext, short);
        dstNext := dstNext + 2;
    }
  }

  /** The six converters `copy_pix_map_*`: they share the walk and differ in `CopyPixel`. */
  method CopyPixMap(k: Conversion, src: array<bv8>, srcStart: nat, srcActiveWidth: int, srcActiveHeight: int,
                    srcLineWidth: nat, dst: array<bv8>, dstStart: nat, dstLineWidth: nat)
    requires src != dst
    requires Room(src.Length, Grid(srcStart, srcLineWidth, k.SrcUnit()), srcActiveWidth, srcActiveHeight)
    requires Room(dst.Length, Grid(dstStart, dstLineWidth, k.DstUnit()), srcActiveWidth, srcActiveHeight)
    modifies dst
    ensures dst[..] == Copied(k, src[..], Grid(srcStart, srcLineWidth, k.SrcUnit()),
                              old(dst[..]), Grid(dstStart, dstLineWidth, k.DstUnit()), srcActiveWidth, srcActiveHeight)
    ensures srcActiveWidth <= dstLineWidth ==>
              Converted(k, src[..], Grid(srcStart, srcLineWidth, k.SrcUnit()),
                        old(dst[..]), dst[..], Grid(dstStart, dstLineWidth, k.DstUnit()),
                        srcActiveWidth, srcActiveHeight)
  {
    hide Grid.At, Paint, Pixels, Room, Conversion.SrcUnit, Conversion.DstUnit, Conversion.Pixel;
    ghost var s, d := Grid(srcStart, srcLineWidth, k.SrcUnit()), Grid(dstStart, dstLineWidth, k.DstUnit());
    ghost var source, was := src[..], dst[..];
    ghost var f := Pixels(k, source, s);
    ghost var w, h := Max0(srcActiveWidth), Max0(srcActiveHeight);
    var srcPtr, dstPtr := srcStart, dstStart;
    var srcIncrement: nat, dstIncrement: nat := srcLineWidth * k.SrcUnit(), dstLineWidth * k.DstUnit();
    WalkStarts(source, s, w, f);
    WalkStarts(was, d, w, f);
    var srcRow: nat := 0;
    while srcRow < srcActiveHeight
      invariant srcRow <= h
      invariant srcPtr == s.At(srcRow, 0) && dstPtr == d.At(srcRow, 0)
      invariant src[..] == source && dst[..] == Paint(was, d, w, f, srcRow, 0)
    {
      var srcLinePtr, dstLinePtr := srcPtr, dstPtr;
      var srcCol: nat := 0;
      while srcCol < srcActiveWidth
        invariant srcCol <= w
        invariant srcLinePtr == s.At(srcRow, srcCol) && dstLinePtr == d.At(srcRow, srcCol)
        invariant src[..] == source && dst[..] == Paint(was, d, w, f, srcRow, srcCol)
      {
        NextPixel(k, source, s, was, d, w, h, srcRow, srcCol);
        srcLinePtr, dstLinePtr := CopyPixel(k, src, srcLinePtr, dst, dstLinePtr);
        srcCol := srcCol + 1;
      }
      RowEnds(source, s, w, f, srcRow);
      RowEnds(was, d, w, f, srcRow);
      srcPtr, dstPtr := srcPtr + srcIncrement, dstPtr + dstIncrement;
      srcRow := srcRow + 1;
    }
    if srcActiveWidth <= dstLineWidth {
      AllPixels(k, source, s, was, d, w, h);
    }
  }

  // ----- what conversions do together

  // The pixel of an image at (r, c).
  ghost function PixelAt(m: Bytes, g: Grid, r: nat, c: nat): Bytes {
    if g.At(r, c) + g.unit <= |m| then m[g.At(r, c)..g.At(r, c) + g.unit] else []
  }

  lemma HoldsAt(k: Conversion, src: Bytes, s: Grid, dst: Bytes, d: Grid, w: int, h: int, r: nat, c: nat)
    requires Holds(k, src, s, dst, d, w, h) && s.unit == k.SrcUnit() && d.unit == k.DstUnit() && r < h && c < w
    ensures c < d.line && |PixelAt(src, s, r, c)| == s.unit
    ensures PixelAt(dst, d, r, c) == k.Pixel(PixelAt(src, s, r, c))
  {
    assert Shows(dst, d, Pixels(k, src, s), r, c);
  }

  /** Going to 16 bits directly or through 24 bits (with intermediate lines that hold the picture's) stores the same
      pixels in the same order, for destination lines of any width. */
  lemma ConversionDiagramCommutes(src: Bytes, s: Grid, mid: Bytes, mid': Bytes, m: Grid,
                                  dst: Bytes, d: Grid, w: int, h: int)
    requires s.unit == 4 && m.unit == 3 && d.unit == 2
    requires Converted(From32To24, src, s, mid, mid', m, w, h)
    ensures Copied(From24To16, mid', m, dst, d, w, h) == Copied(From32To16, src, s, dst, d, w, h)
  {
    var f, f' := Pixels(From24To16, mid', m), Pixels(From32To16, src, s);
    forall r: nat, c: nat | r < h && c < w
      ensures f(r, c) == f'(r, c)
    {
      HoldsAt(From32To24, src, s, mid', m, w, h, r, c);
    }
    PaintSame(dst, d, Max0(w), f, f', Max0(h), 0);
  }

  /** So the pixels of both destinations agree wherever their lines hold the picture's. */
  lemma ConvertedAlike(src: Bytes, s: Grid, mid: Bytes, mid': Bytes, m: Grid,
                       via: Bytes, via': Bytes, direct: Bytes, direct': Bytes, d: Grid, w: int, h: int)
    requires s.unit == 4 && m.unit == 3 && d.unit == 2
    requires Converted(From32To24, src, s, mid, mid', m, w, h)
    requires Converted(From24To16, mid', m, via, via', d, w, h)
    requires Converted(From32To16, src, s, direct, direct', d, w, h)
    ensures forall r: nat, c: nat | r < h && c < w :: PixelAt(via', d, r, c) == PixelAt(direct', d, r, c)
  {
    forall r: nat, c: nat | r < h && c < w
      ensures PixelAt(via', d, r, c) == PixelAt(direct', d, r, c)
    {
      HoldsAt(From32To24, src, s, mid', m, w, h, r, c);
      HoldsAt(From24To16, mid', m, via', d, w, h, r, c);
      HoldsAt(From32To16, src, s, direct', d, w, h, r, c);
    }
  }

  /** Widening to 32 bits and narrowing again reverses the channels of every pixel. */
  lemma RoundTripReverses(src: Bytes, s: Grid, mid: Bytes, mid': Bytes, m: Grid, dst: Bytes, dst': Bytes, d: Grid,
                          w: int, h: int)
    requires s.unit == 3 && m.unit == 4 && d.unit == 3
    requires Converted(From24To32, src, s, mid, mid', m, w, h)
    requires Converted(From32To24, mid', m, dst, dst', d, w, h)
    ensures forall r: nat, c: nat | r < h && c < w ::
              var p := PixelAt(src, s, r, c); |p| == 3 && PixelAt(dst', d, r, c) == [p[2], p[1], p[0]]
  {
    forall r: nat, c: nat | r < h && c < w
      ensures var p := PixelAt(src, s, r, c); |p| == 3 && PixelAt(dst', d, r, c) == [p[2], p[1], p[0]]
    {
      HoldsAt(From24To32, src, s, mid', m, w, h, r, c);
      HoldsAt(From32To24, mid', m, dst', d, w, h, r, c);
    }
  }

  /** Doing so twice restores the image. */
  lemma TwoRoundTripsRestore(src: Bytes, s: Grid, m1: Bytes, m1': Bytes, a: Grid, m2: Bytes, m2': Bytes, b: Grid,
                             m3: Bytes, m3': Bytes, c: Grid, m4: Bytes, m4': Bytes, d: Grid, w: int, h: int)
    requires s.unit == 3 && a.unit == 4 && b.unit == 3 && c.unit == 4 && d.unit == 3
    requires Converted(From24To32, src, s, m1, m1', a, w, h) && Converted(From32To24, m1', a, m2, m2', b, w, h)
    requires Converted(From24To32, m2', b, m3, m3', c, w, h) && Converted(From32To24, m3', c, m4, m4', d, w, h)
    ensures forall row: nat, col: nat | row < h && col < w :: PixelAt(m4', d, row, col) == PixelAt(src, s, row, col)
  {
    RoundTripReverses(src, s, m1, m1', a, m2, m2', b, w, h);
    RoundTripReverses(m2', b, m3, m3', c, m4, m4', d, w, h);
  }

  // ----- byte by byte

  /** What each converter makes of a pixel, byte by byte: 32-bit words are copied whole, of four bytes the first three
      are kept, three bytes are reversed and followed by 0xff, or kept, and 16-bit pixels are the top five, six and
      five bits of the first three bytes. */
  lemma ConvertedBytes(k: Conversion, src: Bytes, s: Grid, dst: Bytes, d: Grid, w: int, h: int, r: nat, c: nat)
    requires Holds(k, src, s, dst, d, w, h) && s.unit == k.SrcUnit() && d.unit == k.DstUnit() && r < h && c < w
    ensures var a, b := s.base + (r * s.line + c) * s.unit, d.base + (r * d.line + c) * d.unit;
            && a + s.unit <= |src| && b + d.unit <= |dst|
            && var p, q := src[a..a + s.unit], dst[b..b + d.unit];
            match k
            case From32To32 => s.unit == d.unit == 4 && q == p
            case From32To24 => s.unit == 4 && d.unit == 3 && q == [p[0], p[1], p[2]]
            case From32To16 => s.unit == 4 && d.unit == 2 && Is565(Word16(q), p[0], p[1], p[2])
            case From24To32 => s.unit == 3 && d.unit == 4 && q == [p[2], p[1], p[0], 0xff]
            case From24To24 => s.unit == d.unit == 3 && q == p
            case From24To16 => s.unit == 3 && d.unit == 2 && Is565(Word16(q), p[0], p[1], p[2])
  {
    HoldsAt(k, src, s, dst, d, w, h, r, c);
    var p := PixelAt(src, s, r, c);
    Packed565(p[0], p[1], p[2]);
    assert Shows(dst, d, Pixels(k, src, s), r, c);
  }

  // The fields of a 16-bit pixel.
  predicate Is565(word: bv16, red: bv8, green: bv8, blue: bv8) {
    && (word >> 11) & 0x1f == (red >> 3) as bv16
    && (word >> 5) & 0x3f == (green >> 2) as bv16
    && word & 0x1f == (blue >> 3) as bv16
  }

  lemma Packed565(red: bv8, green: bv8, blue: bv8)
    ensures Is565(Pack565(red, green, blue), red, green, blue)
  {
  }

  /** A loaded image: every pixel of the bitmap, byte by byte, for every pair of formats, with lines of `w` pixels on
      either side. */
  lemma LoadedBytes(data: Bytes, bytesPerPixel: nat, loaded: Bytes, bits: nat, w: nat, h: nat, r: nat, c: nat)
    requires (bytesPerPixel == 3 || bytesPerPixel == 4) && (bits == 16 || bits == 24 || bits == 32) && r < h && c < w
    requires var k := ConversionFor(bytesPerPixel, bits);
             k.Some? && Holds(k.value, data, Grid(0, w, k.value.SrcUnit()), loaded, Grid(0, w, k.value.DstUnit()), w, h)
    ensures var i := r * w + c;
            && 0 <= i * bytesPerPixel && (i + 1) * bytesPerPixel <= |data|
            && 0 <= i * (bits / 8) && (i + 1) * (bits / 8) <= |loaded|
            && var p := data[i * bytesPerPixel..(i + 1) * bytesPerPixel];
            var q := loaded[i * (bits / 8)..(i + 1) * (bits / 8)];
            && (bits == 32 ==> q == if bytesPerPixel == 3 then [p[2], p[1], p[0], 0xff] else p)
            && (bits == 24 ==> q == [p[0], p[1], p[2]])
            && (bits == 16 ==> Is565(Word16(q), p[0], p[1], p[2]))
  {
    hide Holds, Grid.At, Is565, Word16;
    var k := ConversionFor(bytesPerPixel, bits).value;
    ConvertedBytes(k, data, Grid(0, w, k.SrcUnit()), loaded, Grid(0, w, k.DstUnit()), w, h, r, c);
    NextUnit(r * w + c, bytesPerPixel);
    NextUnit(r * w + c, bits / 8);
  }

  lemma NextUnit(i: int, unit: nat)
    ensures (i + 1) * unit == i * unit + unit
  {
  }

  // ----- loading

  /** An image compiled into the program. */
  datatype GimpImage = GimpImage(width: nat, height: nat, bytesPerPixel: nat, pixelData: array<bv8>)

  class Bitmap {
    var biWidth: int
    var biHeight: int
    var biBitCount: int
    var data: array<bv8>

    constructor ()
    {
      data := new bv8[0];
    }
  }

  // Assignment to a 16-bit `short`.
  function ToShort(x: nat): (s: int)
    ensures s <= x && -0x8000 <= s <= 0x7fff && (x - s) % 0x1_0000 == 0
    ensures s == x <==> x <= 0x7fff
  {
    var low := x % 0x1_0000;
    if low < 0x8000 then low else low - 0x1_0000
  }

  function ConversionFor(bytesPerPixel: nat, bits: nat): Option<Conversion> {
    match (bytesPerPixel, bits)
    case (4, 16) => Some(From32To16)
    case (3, 16) => Some(From24To16)
    case (4, 24) => Some(From32To24)
    case (3, 24) => Some(From24To24)
    case (4, 32) => Some(From32To32)
    case (3, 32) => Some(From24To32)
    case _ => None
  }

  function BufferSize(width: nat, height: nat, unit: nat): nat {
    width * height * unit
  }

  lemma BufferSizes(width: nat, height: nat, unit: nat)
    ensures BufferSize(width, height, unit) == width * height * unit
  {
  }

  // `width * height` pixels have room for `h` packed rows of `w` pixels when both are smaller.
  lemma RoomForAll(width: nat, height: nat, w: int, h: int, unit: nat)
    requires w <= width && h <= height
    ensures Room(BufferSize(width, height, unit), Grid(0, Max0(w), unit), w, h)
  {
    if h > 0 && w > 0 {
      assert (h - 1) * w + w == h * w;
      assert (h * w - 1) * unit + unit == h * w * unit;
      MulMono(h, height, w);
      MulMono(w, width, height);
      MulMono(h * w, width * height, unit);
    }
  }

  /** Loads the image into a new buffer; the bitmap's dimensions are those of the image exactly when they fit
      in a `short`, and the pixels are laid out by the bitmap's dimensions. `malloced` is what the new buffer
      happens to hold at first; for an unsupported pair of formats it keeps that. */
  method LoadGimpBmp(image: GimpImage, bmp: Bitmap, outputBitsPerPixel: nat, malloced: nat -> bv8)
    returns (retCode: int)
    requires image.pixelData.Length == image.width * image.height * image.bytesPerPixel
    modifies bmp
    ensures retCode == 0
    ensures bmp.biWidth == ToShort(image.width) && bmp.biHeight == ToShort(image.height)
    ensures bmp.biBitCount == ToShort(outputBitsPerPixel)
    ensures fresh(bmp.data) && bmp.data.Length == image.width * image.height * (outputBitsPerPixel / 8)
    ensures match ConversionFor(image.bytesPerPixel, outputBitsPerPixel)
            case None => forall i: nat | i < bmp.data.Length :: bmp.data[i] == malloced(i)
            case Some(k) => Holds(k, image.pixelData[..], Grid(0, Max0(bmp.biWidth), k.SrcUnit()),
                                  bmp.data[..], Grid(0, Max0(bmp.biWidth), k.DstUnit()), bmp.biWidth, bmp.biHeight)
  {
    BufferSizes(image.width, image.height, image.bytesPerPixel);
    BufferSizes(image.width, image.height, outputBitsPerPixel / 8);
    hide Grid.At, Room, Holds, Conversion.Pixel, BufferSize;
    retCode := 0;
    var outputBytesPerPixel := outputBitsPerPixel / 8;
    bmp.biWidth := ToShort(image.width);
    bmp.biHeight := ToShort(image.height);
    bmp.biBitCount := ToShort(outputBitsPerPixel);
    bmp.data := new bv8[BufferSize(image.width, image.height, outputBytesPerPixel)](i => malloced(i));
    RoomForAll(image.width, image.height, bmp.biWidth, bmp.biHeight, image.bytesPerPixel);
    RoomForAll(image.width, image.height, bmp.biWidth, bmp.biHeight, outputBytesPerPixel);
    var choice: Option<Conversion> := None;
    if outputBitsPerPixel == 16 {
      if image.bytesPerPixel == 4 {
        choice := Some(From32To16);
      }
      if image.bytesPerPixel == 3 {
        choice := Some(From24To16);
      }
    }
    if outputBitsPerPixel == 24 {
      if image.bytesPerPixel == 4 {
        choice := Some(From32To24);
      }
      if image.bytesPerPixel == 3 {
        choice := Some(From24To24);
      }
    }
    if outputBitsPerPixel == 32 {
      if image.bytesPerPixel == 4 {
        choice := Some(From32To32);
      }
      if image.bytesPerPixel == 3 {
        choice := Some(From24To32);
      }
    }
    assert choice == ConversionFor(image.bytesPerPixel, outputBitsPerPixel);
    if choice.Some? {
      var line := Max0(bmp.biWidth);
      CopyPixMap(choice.value, image.pixelData, 0, bmp.biWidth, bmp.biHeight, line, bmp.data, 0, line);
    }
  }
}
