/** Where the glyphs of a string go (the loop of `vid_print_string_alpha` and the length of a string in
    graphic_lib/simple_text.c). */
module TextLayout {
  const CLEAR_BACKGROUND: bv32 := 0xffff_ffff   // -1
  const TAB_SPACING: nat := 2

  /** A character of a font: its box and one alpha value per pixel, row by row. */
  datatype Glyph = Glyph(width: nat, height: nat, alphaMap: seq<bv8>) {
    predicate Valid() {
      |alphaMap| == width * height
    }

    lemma Index(i: nat, j: nat)
      requires Valid() && i < height && j < width
      ensures 0 <= i * width + j < |alphaMap|
    {
      assert (height - 1 - i) * width >= 0;
      assert (height - 1 - i) * width == height * width - width - i * width;
    }
  }

  // Glyphs for the characters from '!' to '~'.
  type Font = font: seq<Glyph> | |font| == 94 && forall g | g in font :: g.Valid() witness seq(94, _ => Glyph(0, 0, []))

  /** A glyph drawn in a colour with its top left corner at (x, y). */
  datatype Placement = Placement(x: nat, y: nat, color: bv32, glyph: Glyph) {
    predicate Covers(r: nat, c: nat) {
      y <= r < y + glyph.height && x <= c < x + glyph.width
    }

    function AlphaAt(r: nat, c: nat): bv8
      requires Covers(r, c) && glyph.Valid()
    {
      glyph.Index(r - y, c - x);
      glyph.alphaMap[(r - y) * glyph.width + (c - x)]
    }

    predicate Inside(rows: nat, cols: nat) {
      x + glyph.width <= cols && y + glyph.height <= rows
    }
  }

  predicate Visible(ch: char) {
    33 <= ch as int <= 126
  }

  predicate Printable(text: string) {
    forall ch | ch in text :: Visible(ch) || ch == ' ' || ch == '\t' || ch == '\n'
  }

  function GlyphOf(font: Font, ch: char): (g: Glyph)
    requires Visible(ch)
    ensures g in font && g.Valid()
  {
    font[ch as int - 33]
  }

  function Dash(font: Font): Glyph {
    GlyphOf(font, '-')
  }

  function LineHeight(font: Font): nat {
    GlyphOf(font, '|').height
  }

  /** How a string is set: font, colours and the column lines start at. */
  datatype Style = Style(font: Font, color: bv32, background: bv32, left: nat)

  /** The position of the cursor and the glyphs set so far. */
  datatype Cursor = Cursor(x: nat, y: nat, placed: seq<Placement>)

  // A blank is a '-' in the background colour, or nothing on a clear background.
  function Blank(s: Style, k: Cursor): Cursor {
    k.(x := k.x + Dash(s.font).width,
       placed := if s.background == CLEAR_BACKGROUND then k.placed
                 else k.placed + [Placement(k.x, k.y, s.background, Dash(s.font))])
  }

  function Blanks(s: Style, k: Cursor, n: nat): Cursor {
    if n == 0 then k else Blank(s, Blanks(s, k, n - 1))
  }

  function Set(s: Style, k: Cursor, ch: char): Cursor
    requires Printable([ch])
  {
    assert ch in [ch];
    if ch == '\n' then Cursor(s.left, k.y + LineHeight(s.font), k.placed)
    else if ch == ' ' then Blank(s, k)
    else if ch == '\t' then Blanks(s, k, TAB_SPACING)
    else k.(x := k.x + GlyphOf(s.font, ch).width,
            placed := k.placed + [Placement(k.x, k.y, s.color, GlyphOf(s.font, ch))])
  }

  /** The cursor after a text that starts at (left, top). */
  function Layout(s: Style, top: nat, text: string): Cursor
    requires Printable(text)
  {
    if text == [] then Cursor(s.left, top, [])
    else Set(s, Layout(s, top, text[..|text| - 1]), text[|text| - 1])
  }

  // ----- glyphs do not overlap

  predicate Apart(p: Placement, q: Placement) {
    || p.x + p.glyph.width <= q.x || q.x + q.glyph.width <= p.x
    || p.y + p.glyph.height <= q.y || q.y + q.glyph.height <= p.y
  }

  // What the character sets, if anything, is no taller than a line.
  predicate Low(s: Style, ch: char) {
    if Visible(ch) then GlyphOf(s.font, ch).height <= LineHeight(s.font)
    else BlankBoxes(ch) > 0 && s.background != CLEAR_BACKGROUND ==> Dash(s.font).height <= LineHeight(s.font)
  }

  // Nothing the text sets before its last newline is taller than a line.
  ghost predicate LowLines(s: Style, text: string) {
    forall i, j | 0 <= i < j < |text| && text[j] == '\n' :: Low(s, text[i])
  }

  // Every glyph so far is to the left of the cursor on its line, or on an earlier line.
  ghost predicate Passed(font: Font, k: Cursor) {
    forall p | p in k.placed ::
      p.glyph in font && ((p.y == k.y && p.x + p.glyph.width <= k.x) || p.y + p.glyph.height <= k.y)
  }

  ghost predicate AllApart(ps: seq<Placement>) {
    forall i, j | 0 <= i < j < |ps| :: Apart(ps[i], ps[j])
  }

  // Setting one glyph at the cursor.
  lemma PutKeepsApart(font: Font, k: Cursor, p: Placement)
    requires Passed(font, k) && AllApart(k.placed) && p.x == k.x && p.y == k.y && p.glyph in font
    ensures Passed(font, Cursor(k.x + p.glyph.width, k.y, k.placed + [p])) && AllApart(k.placed + [p])
    ensures forall q | q in k.placed :: Apart(q, p)
  {
  }

  lemma {:induction false} BlanksKeepApart(s: Style, k: Cursor, n: nat)
    requires Passed(s.font, k) && AllApart(k.placed)
    ensures Passed(s.font, Blanks(s, k, n)) && AllApart(Blanks(s, k, n).placed)
  {
    if n == 0 {
    } else {
      BlanksKeepApart(s, k, n - 1);
      var k' := Blanks(s, k, n - 1);
      PutKeepsApart(s.font, k', Placement(k'.x, k'.y, s.background, Dash(s.font)));
    }
  }

  lemma SetKeepsApart(s: Style, k: Cursor, ch: char)
    requires Printable([ch]) && Passed(s.font, k) && AllApart(k.placed)
    requires ch == '\n' ==> forall p | p in k.placed :: p.glyph.height <= LineHeight(s.font)
    ensures Passed(s.font, Set(s, k, ch)) && AllApart(Set(s, k, ch).placed)
  {
    assert ch in [ch];
    if ch == ' ' {
      assert Blank(s, k) == Blanks(s, k, 1);
      BlanksKeepApart(s, k, 1);
    } else if ch == '\t' {
      BlanksKeepApart(s, k, TAB_SPACING);
    } else if ch != '\n' {
      PutKeepsApart(s.font, k, Placement(k.x, k.y, s.color, GlyphOf(s.font, ch)));
    }
  }

  lemma {:induction false} BlanksLow(s: Style, k: Cursor, n: nat)
    requires forall p | p in k.placed :: p.glyph.height <= LineHeight(s.font)
    requires s.background != CLEAR_BACKGROUND ==> Dash(s.font).height <= LineHeight(s.font)
    ensures forall p | p in Blanks(s, k, n).placed :: p.glyph.height <= LineHeight(s.font)
  {
    if n == 0 {
    } else {
      BlanksLow(s, k, n - 1);
    }
  }

  lemma SetLow(s: Style, k: Cursor, ch: char)
    requires Printable([ch]) && Low(s, ch) && forall p | p in k.placed :: p.glyph.height <= LineHeight(s.font)
    ensures forall p | p in Set(s, k, ch).placed :: p.glyph.height <= LineHeight(s.font)
  {
    assert ch in [ch];
    if ch == ' ' {
      assert Blank(s, k) == Blanks(s, k, 1);
      BlanksLow(s, k, 1);
    } else if ch == '\t' {
      BlanksLow(s, k, TAB_SPACING);
    }
  }

  // Low characters set low glyphs.
  lemma {:induction false} PlacedLow(s: Style, top: nat, text: string)
    requires Printable(text) && forall i | 0 <= i < |text| :: Low(s, text[i])
    ensures forall p | p in Layout(s, top, text).placed :: p.glyph.height <= LineHeight(s.font)
  {
    hide Set, Low, LineHeight;
    if text == [] {
    } else {
      PlacedLow(s, top, text[..|text| - 1]);
      SetLow(s, Layout(s, top, text[..|text| - 1]), text[|text| - 1]);
    }
  }

  /** The glyph boxes of a text are pairwise disjoint, if nothing set before its last newline is taller than a line. */
  lemma {:induction false} GlyphsApart(s: Style, top: nat, text: string)
    requires Printable(text) && LowLines(s, text)
    ensures Passed(s.font, Layout(s, top, text)) && AllApart(Layout(s, top, text).placed)
  {
    hide Low, Set, Passed, AllApart;
    if text == [] {
      NothingSet(s, top);
    } else {
      var most := text[..|text| - 1];
      GlyphsApart(s, top, most);
      if text[|text| - 1] == '\n' {
        PlacedLow(s, top, most);
      }
      SetKeepsApart(s, Layout(s, top, most), text[|text| - 1]);
    }
  }

  lemma NothingSet(s: Style, top: nat)
    ensures Passed(s.font, Layout(s, top, [])) && AllApart(Layout(s, top, []).placed)
  {
  }

  /** On several lines, glyphs taller than a line do overlap. */
  lemma TallGlyphsOverlap(s: Style, top: nat, ch: char)
    requires Visible(ch) && GlyphOf(s.font, ch).width > 0 && GlyphOf(s.font, ch).height > LineHeight(s.font)
    ensures Printable([ch, '\n', ch]) && !AllApart(Layout(s, top, [ch, '\n', ch]).placed)
  {
    hide Layout;
    var text, g := [ch, '\n', ch], GlyphOf(s.font, ch);
    LayoutEmpty(s, top);
    assert text[..0] == [] && text[..3] == text;
    LayoutNext(s, top, text, 0);
    LayoutNext(s, top, text, 1);
    LayoutNext(s, top, text, 2);
    var ps := Layout(s, top, text).placed;
    assert ps == [Placement(s.left, top, s.color, g), Placement(s.left, top + LineHeight(s.font), s.color, g)];
    assert !Apart(ps[0], ps[1]);
  }

  // Setting more characters only adds glyphs.
  lemma {:induction false} PlacedGrows(s: Style, top: nat, text: string, i: nat)
    requires Printable(text) && i <= |text|
    ensures Layout(s, top, text[..i]).placed <= Layout(s, top, text).placed
  {
    if i == |text| {
      assert text[..i] == text;
    } else {
      PlacedGrows(s, top, text[..|text| - 1], i);
      assert text[..|text| - 1][..i] == text[..i];
      assert Blank(s, Layout(s, top, text[..|text| - 1])) == Blanks(s, Layout(s, top, text[..|text| - 1]), 1);
      SetGrows(s, Layout(s, top, text[..|text| - 1]), text[|text| - 1]);
    }
  }

  lemma SetGrows(s: Style, k: Cursor, ch: char)
    requires Printable([ch])
    ensures k.placed <= Set(s, k, ch).placed
  {
    BlanksGrow(s, k, 0, TAB_SPACING);
  }

  lemma {:induction false} BlanksGrow(s: Style, k: Cursor, n: nat, n': nat)
    requires n <= n'
    ensures Blanks(s, k, n).placed <= Blanks(s, k, n').placed
    ensures Blanks(s, k, n + 1) == Blank(s, Blanks(s, k, n))
  {
    if n < n' {
      BlanksGrow(s, k, n, n' - 1);
    }
  }

  lemma BlankMoves(s: Style, k: Cursor)
    ensures Blank(s, k).x == k.x + Dash(s.font).width && Blank(s, k).y == k.y
  {
  }

  lemma LayoutEmpty(s: Style, top: nat)
    ensures Layout(s, top, []) == Cursor(s.left, top, [])
  {
  }

  // Setting the next character of a text.
  lemma LayoutNext(s: Style, top: nat, text: string, i: nat)
    requires Printable(text) && i < |text|
    ensures Layout(s, top, text[..i + 1]) == Set(s, Layout(s, top, text[..i]), text[i])
    ensures Layout(s, top, text[..i + 1]).placed <= Layout(s, top, text).placed
  {
    assert text[..i + 1][..i] == text[..i];
    PlacedGrows(s, top, text, i + 1);
  }

  // The boxes a blank character fills.
  function BlankBoxes(ch: char): nat {
    if ch == ' ' then 1 else if ch == '\t' then TAB_SPACING else 0
  }

  function BlankBox(s: Style, k: Cursor, t: nat): Placement {
    Placement(k.x + t * Dash(s.font).width, k.y, s.background, Dash(s.font))
  }

  lemma OneMore(n: nat, k: nat)
    ensures (n + 1) * k == n * k + k
  {
  }

  lemma {:induction false} BlanksAre(s: Style, k: Cursor, n: nat)
    ensures Blanks(s, k, n).x == k.x + n * Dash(s.font).width && Blanks(s, k, n).y == k.y
    ensures s.background != CLEAR_BACKGROUND ==>
              Blanks(s, k, n).placed == k.placed + seq(n, t requires 0 <= t < n => BlankBox(s, k, t))
  {
    if n == 0 {
    } else {
      BlanksAre(s, k, n - 1);
      OneMore(n - 1, Dash(s.font).width);
    }
  }

  /** On a background that is not clear a space adds one box of a '-' at the cursor, and a tab `TAB_SPACING`
      adjacent ones. */
  lemma BlankAdds(s: Style, top: nat, text: string, i: nat, t: nat)
    requires Printable(text) && i < |text| && s.background != CLEAR_BACKGROUND && t < BlankBoxes(text[i])
    ensures BlankBox(s, Layout(s, top, text[..i]), t) in Layout(s, top, text).placed
  {
    hide Layout, Blanks;
    var k := Layout(s, top, text[..i]);
    var n := BlankBoxes(text[i]);
    LayoutNext(s, top, text, i);
    BlanksAre(s, k, n);
    BlanksGrow(s, k, 0, 1);
    NoBlanks(s, k);
    var after := Blanks(s, k, n).placed;
    assert after == Layout(s, top, text[..i + 1]).placed;
    assert after[|k.placed| + t] == BlankBox(s, k, t);
  }

  lemma NoBlanks(s: Style, k: Cursor)
    ensures Blanks(s, k, 0) == k
  {
  }

  // ----- how far a text reaches

  predicate OneLine(text: string) {
    Printable(text) && '\n' !in text
  }

  function Advance(font: Font, ch: char): nat
    requires Visible(ch) || ch == ' ' || ch == '\t'
  {
    if ch == ' ' then Dash(font).width
    else if ch == '\t' then TAB_SPACING * Dash(font).width
    else GlyphOf(font, ch).width
  }

  function Length(font: Font, text: string): nat
    requires OneLine(text)
  {
    if text == [] then 0 else Length(font, text[..|text| - 1]) + Advance(font, text[|text| - 1])
  }

  /** `vid_string_pixel_length_alpha`, which does not know tabs. */
  method StringPixelLength(font: Font, text: string) returns (length: nat)
    requires OneLine(text) && '\t' !in text
    ensures length == Length(font, text)
  {
    length := 0;
    var i := 0;
    while i < |text|
      invariant 0 <= i <= |text|
      invariant length == Length(font, text[..i])
    {
      assert text[..i + 1][..i] == text[..i] && text[i] in text;
      if text[i] == ' ' {
        length := length + font[45 - 33].width;
      } else {
        length := length + font[text[i] as int - 33].width;
      }
      i := i + 1;
    }
    assert text[..|text|] == text;
  }

  /** Lengths add up. */
  lemma {:induction false} LengthOfConcatenation(font: Font, a: string, b: string)
    requires OneLine(a) && OneLine(b)
    ensures OneLine(a + b) && Length(font, a + b) == Length(font, a) + Length(font, b)
  {
    if b == [] {
      assert a + b == a;
    } else {
      LengthOfConcatenation(font, a, b[..|b| - 1]);
      assert (a + b)[..|a + b| - 1] == a + b[..|b| - 1];
    }
  }

  // The part of a text after its last newline, and the number of newlines.
  function LastLine(text: string): (line: string)
    requires Printable(text)
    ensures OneLine(line)
  {
    if text == [] || text[|text| - 1] == '\n' then []
    else LastLine(text[..|text| - 1]) + [text[|text| - 1]]
  }

  function Newlines(text: string): nat {
    if text == [] then 0 else Newlines(text[..|text| - 1]) + if text[|text| - 1] == '\n' then 1 else 0
  }

  lemma LayoutStep(s: Style, top: nat, text: string)
    requires text != [] && Printable(text)
    ensures Layout(s, top, text) == Set(s, Layout(s, top, text[..|text| - 1]), text[|text| - 1])
    ensures Newlines(text) == Newlines(text[..|text| - 1]) + if text[|text| - 1] == '\n' then 1 else 0
  {
  }

  // How one character moves the cursor.
  lemma SetMoves(s: Style, k: Cursor, ch: char)
    requires Printable([ch])
    ensures ch == '\n' || Visible(ch) || ch == ' ' || ch == '\t'
    ensures var k' := Set(s, k, ch);
            if ch == '\n' then k'.x == s.left && k'.y == k.y + LineHeight(s.font)
            else k'.x == k.x + Advance(s.font, ch) && k'.y == k.y
  {
    assert ch in [ch];
    BlanksAre(s, k, TAB_SPACING);
  }

  lemma LengthStep(font: Font, line: string, ch: char)
    requires OneLine(line) && (Visible(ch) || ch == ' ' || ch == '\t')
    ensures OneLine(line + [ch]) && Length(font, line + [ch]) == Length(font, line) + Advance(font, ch)
  {
  }

  /** The cursor ends the length of the last line to the right of the margin, and one line height down for
      every newline. */
  lemma {:induction false} CursorEnds(s: Style, top: nat, text: string)
    requires Printable(text)
    ensures var k := Layout(s, top, text);
            k.x == s.left + Length(s.font, LastLine(text)) && k.y == top + Newlines(text) * LineHeight(s.font)
  {
    if text == [] {
    } else {
      var most, ch := text[..|text| - 1], text[|text| - 1];
      assert ch in text;
      hide Layout, Newlines, Length, Set, LineHeight, Advance;
      CursorEnds(s, top, most);
      LayoutStep(s, top, text);
      SetMoves(s, Layout(s, top, most), ch);
      OneMore(Newlines(most), LineHeight(s.font));
      if ch != '\n' {
        LengthStep(s.font, LastLine(most), ch);
      }
    }
  }

  /** Printing one line moves the cursor by exactly the line's measured length and stays on the row, wherever
      the line comes after. */
  lemma {:induction false} MeasuredIsTravelled(s: Style, top: nat, before: string, line: string)
    requires Printable(before) && OneLine(line)
    ensures Printable(before + line)
    ensures var k, k' := Layout(s, top, before), Layout(s, top, before + line);
            k'.x == k.x + Length(s.font, line) && k'.y == k.y
  {
    if line == [] {
      assert before + line == before;
    } else {
      var most, ch := line[..|line| - 1], line[|line| - 1];
      assert ch in line;
      hide Layout, Length, Set, LineHeight, Advance;
      MeasuredIsTravelled(s, top, before, most);
      assert (before + line)[..|before + line| - 1] == before + most;
      LayoutStep(s, top, before + line);
      SetMoves(s, Layout(s, top, before + most), ch);
      LengthStep(s.font, most, ch);
      assert most + [ch] == line;
    }
  }

  // ----- what a text places, character by character

  // Where character `i` of a text goes, counted from the characters before it.
  function ColumnOf(s: Style, text: string, i: nat): nat
    requires Printable(text) && i <= |text|
  {
    s.left + Length(s.font, LastLine(text[..i]))
  }

  function RowOf(s: Style, top: nat, text: string, i: nat): nat
    requires i <= |text|
  {
    top + Newlines(text[..i]) * s.font['|' as int - 33].height
  }

  /** What character `i` places: a visible one its own glyph in the text's colour; a space one box of a '-' and a tab
      two adjacent ones in the background colour, unless the background is clear; a newline nothing. */
  function PlacedBy(s: Style, top: nat, text: string, i: nat): seq<Placement>
    requires Printable(text) && i < |text|
  {
    assert text[i] in text;
    var x, y, dash := ColumnOf(s, text, i), RowOf(s, top, text, i), s.font['-' as int - 33];
    if 33 <= text[i] as int <= 126 then [Placement(x, y, s.color, s.font[text[i] as int - 33])]
    else if text[i] == '\n' || s.background == 0xffff_ffff then []
    else if text[i] == ' ' then [Placement(x, y, s.background, dash)]
    else [Placement(x, y, s.background, dash), Placement(x + dash.width, y, s.background, dash)]
  }

  function PlacedByFirst(s: Style, top: nat, text: string, n: nat): seq<Placement>
    requires Printable(text) && n <= |text|
  {
    if n == 0 then [] else PlacedByFirst(s, top, text, n - 1) + PlacedBy(s, top, text, n - 1)
  }

  // One character of the text.
  lemma CharacterPlaces(s: Style, top: nat, text: string, i: nat)
    requires Printable(text) && i < |text|
    ensures Layout(s, top, text[..i + 1]).placed == Layout(s, top, text[..i]).placed + PlacedBy(s, top, text, i)
  {
    hide Layout, Length, LastLine, Newlines;
    var k := Layout(s, top, text[..i]);
    assert text[i] in text;
    CursorEnds(s, top, text[..i]);
    LayoutNext(s, top, text, i);
    BlanksAre(s, k, 1);
    BlanksAre(s, k, 2);
    BlanksGrow(s, k, 0, 1);
    NoBlanks(s, k);
  }

  /** The placed glyphs are those of the characters, in their order, and no others. */
  lemma {:induction false} PlacedInOrder(s: Style, top: nat, text: string, n: nat)
    requires Printable(text) && n <= |text|
    ensures Layout(s, top, text[..n]).placed == PlacedByFirst(s, top, text, n)
  {
    hide Set, PlacedBy;
    if n == 0 {
      LayoutEmpty(s, top);
    } else {
      PlacedInOrder(s, top, text, n - 1);
      CharacterPlaces(s, top, text, n - 1);
    }
  }

  /** A visible character places its own glyph, in the text's colour, where the text before it ends. */
  lemma VisiblePlaced(s: Style, top: nat, text: string, i: nat)
    requires Printable(text) && i < |text| && 33 <= text[i] as int <= 126
    ensures Placement(s.left + Length(s.font, LastLine(text[..i])), top + Newlines(text[..i]) * s.font[91].height,
                      s.color, s.font[text[i] as int - 33]) in Layout(s, top, text).placed
  {
    hide Layout, Length, LastLine, Newlines;
    CharacterPlaces(s, top, text, i);
    PlacedGrows(s, top, text, i + 1);
    var ps := Layout(s, top, text[..i + 1]).placed;
    assert ps[|ps| - 1] == PlacedBy(s, top, text, i)[0];
  }

  /** The length of one character: the width of its own glyph, of a '-' for a space, and of two for a tab. */
  lemma LengthOfCharacter(font: Font, ch: char)
    requires 33 <= ch as int <= 126 || ch == ' ' || ch == '\t'
    ensures OneLine([ch])
    ensures Length(font, [ch])
         == if ch == ' ' then font[12].width else if ch == '\t' then 2 * font[12].width else font[ch as int - 33].width
  {
    assert [ch][..0] == [];
  }
}
