/** Colour channels and how a pixel holds them at the three colour depths: splitting, merging, reading back
    and blending (graphic_lib/simple_text.c). */
module Channels {
  import opened Raster
  import opened Words
  import opened Blending

  datatype Rgb = Rgb(red: bv8, green: bv8, blue: bv8)

  predicate Supported(depth: int) {
    depth == 16 || depth == 24 || depth == 32
  }

  // Bytes of a pixel.
  function Unit(depth: int): nat {
    if depth == 16 then 2 else if depth == 24 then 3 else 4
  }

  // The channels are no wider than the depth has room for.
  predicate InRange(depth: int, c: Rgb) {
    depth == 16 ==> c.red <= 0x1f && c.green <= 0x3f && c.blue <= 0x1f
  }

  /** The pixel `p` holds the channels `c`: five, six and five bits of a little-endian word, or blue, green
      and red bytes. */
  ghost predicate Encodes(depth: int, c: Rgb, p: Bytes) {
    && InRange(depth, c)
    && if depth == 16
       then |p| >= 2 && Word16(p[..2]) == ((c.red as bv16) << 11) | ((c.green as bv16) << 5) | (c.blue as bv16)
       else |p| >= 3 && p[..3] == [c.blue, c.green, c.red]
  }

  /** A pixel holds one set of channels. */
  lemma HeldChannelsUnique(depth: int, c: Rgb, c': Rgb, p: Bytes)
    requires Encodes(depth, c, p) && Encodes(depth, c', p)
    ensures c == c'
  {
  }

  /** The channels of a colour given by its bytes; black when the depth is not supported. */
  function SeparateColorChannels(depth: int, color: Bytes): (c: Rgb)
    requires |color| >= 3
    ensures if Supported(depth) then Encodes(depth, c, color) else c == Rgb(0, 0, 0)
  {
    if depth == 16 then
      var temp := (color[0] as bv16) + ((color[1] as bv16) << 8);
      Rgb(((temp >> 11) & 0x1f) as bv8, ((temp >> 5) & 0x3f) as bv8, (temp & 0x1f) as bv8)
    else if depth == 24 || depth == 32 then
      Rgb(color[2], color[1], color[0])
    else
      Rgb(0, 0, 0)
  }

  /** The bytes merging stores: two at 16 bits, three otherwise. */
  function MergeColorChannels(depth: int, c: Rgb): (p: Bytes)
    ensures |p| == if depth == 16 then 2 else 3
    ensures if Supported(depth) then InRange(depth, c) ==> Encodes(depth, c, p) else p == [0, 0, 0]
  {
    if depth == 16 then
      var temp := ((c.blue & 0x1f) as bv16) | (((c.green & 0x3f) as bv16) << 5) | (((c.red & 0x1f) as bv16) << 11);
      Bytes16(temp)
    else if depth == 24 || depth == 32 then
      [c.blue, c.green, c.red]
    else
      [0, 0, 0]
  }

  /** The channels of a pixel of a frame. */
  function ReadPixel(depth: int, p: Bytes): (c: Rgb)
    requires Supported(depth) ==> |p| == Unit(depth)
    ensures if Supported(depth) then Encodes(depth, c, p) else c == Rgb(0, 0, 0)
  {
    if depth == 32 then
      var temp := Word32(p);
      Rgb(((temp >> 16) & 0xff) as bv8, ((temp >> 8) & 0xff) as bv8, (temp & 0xff) as bv8)
    else if depth == 24 then
      Rgb(p[2], p[1], p[0])
    else if depth == 16 then
      assert p[..2] == p;
      var temp := Word16(p);
      Rgb(((temp >> 11) & 0x1f) as bv8, ((temp >> 5) & 0x3f) as bv8, (temp & 0x1f) as bv8)
    else
      Rgb(0, 0, 0)
  }

  /** Merged channels come back, however they are read and whatever byte follows them in a 32-bit pixel. */
  lemma MergedComesBack(depth: int, c: Rgb, rest: Bytes)
    requires Supported(depth) && InRange(depth, c)
    ensures var p := MergeColorChannels(depth, c) + rest;
            && (|p| >= 3 ==> SeparateColorChannels(depth, p) == c)
            && (|p| == Unit(depth) ==> ReadPixel(depth, p) == c)
  {
  }

  /** Splitting a stored colour and merging it again restores its bytes. */
  lemma SplitMergeRestores(depth: int, color: Bytes)
    requires Supported(depth) && |color| >= 3
    ensures MergeColorChannels(depth, SeparateColorChannels(depth, color))
         == if depth == 16 then color[..2] else color[..3]
  {
  }

  // ----- blending

  function MixLevels(font: Level, back: Level, alpha: Level): (c: bv8)
    ensures c as int == Blend(font, back, alpha)
  {
    BlendBetween(font, back, alpha);
    ToByte(Blend(font, back, alpha))
  }

  /** One channel of a font mixed with one channel of the background. */
  function Mix(font: bv8, back: bv8, alpha: bv8): (c: bv8)
    ensures c as int == Blend(font as int, back as int, alpha as int)
  {
    MixLevels(font as int, back as int, alpha as int)
  }

  function MixRgb(font: Rgb, back: Rgb, alpha: bv8): Rgb {
    Rgb(Mix(font.red, back.red, alpha), Mix(font.green, back.green, alpha), Mix(font.blue, back.blue, alpha))
  }

  /** Channel by channel the font's and the background's levels are weighted by alpha and 255 - alpha. */
  lemma MixIs(font: Rgb, back: Rgb, alpha: bv8)
    ensures var c, a := MixRgb(font, back, alpha), alpha as int;
            && c.red as int == (font.red as int * a + back.red as int * (255 - a)) / 255
            && c.green as int == (font.green as int * a + back.green as int * (255 - a)) / 255
            && c.blue as int == (font.blue as int * a + back.blue as int * (255 - a)) / 255
  {
    hide Mix;
  }

  // `(level > cap) ? cap : level`
  function Clip(level: bv8, cap: bv8): bv8 {
    if level > cap then cap else level
  }

  /** What blending leaves in the font's channels; at an unsupported depth it leaves them alone. */
  function Blended(depth: int, font: Rgb, back: Rgb, alpha: bv8): Rgb {
    var mix := MixRgb(font, back, alpha);
    if depth == 16 then Rgb(Clip(mix.red, 0x1f), Clip(mix.green, 0x3f), Clip(mix.blue, 0x1f))
    else if depth == 24 || depth == 32 then Rgb(Clip(mix.red, 0xff), Clip(mix.green, 0xff), Clip(mix.blue, 0xff))
    else font
  }

  lemma Order(a: bv8, b: bv8)
    ensures a <= b <==> a as int <= b as int
  {
  }

  // A mix of two levels below a cap is below the cap.
  lemma MixBelow(font: bv8, back: bv8, alpha: bv8, cap: bv8)
    requires font <= cap && back <= cap
    ensures Mix(font, back, alpha) <= cap
  {
    BlendBetween(font as int, back as int, alpha as int);
    Order(font, cap);
    Order(back, cap);
    Order(Mix(font, back, alpha), cap);
  }

  /** Channels of the display's own depth blend to channels of that depth, so clipping never has an effect. */
  lemma ClippingIsIdle(depth: int, font: Rgb, back: Rgb, alpha: bv8)
    requires Supported(depth) && InRange(depth, font) && InRange(depth, back)
    ensures Blended(depth, font, back, alpha) == MixRgb(font, back, alpha)
    ensures InRange(depth, Blended(depth, font, back, alpha))
  {
    if depth == 16 {
      MixBelow(font.red, back.red, alpha, 0x1f);
      MixBelow(font.green, back.green, alpha, 0x3f);
      MixBelow(font.blue, back.blue, alpha, 0x1f);
    }
  }

  lemma SelfMix(c: bv8, alpha: bv8)
    ensures Mix(c, c, alpha) == c
  {
    BlendBetween(c as int, c as int, alpha as int);
    SameByte(Mix(c, c, alpha), c);
  }

  /** A colour blended with itself is itself. */
  lemma SelfBlend(c: Rgb, alpha: bv8)
    ensures MixRgb(c, c, alpha) == c
  {
    SelfMix(c.red, alpha);
    SelfMix(c.green, alpha);
    SelfMix(c.blue, alpha);
  }
}
