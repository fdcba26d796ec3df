/** Rectangles of pixels laid out in a flat byte memory, and what it means to paint one.

    Every drawing loop of the program walks a rectangle row by row and stores some of its pixels.
    `Paint` is that walk as a function; `Painted` says, without any order of writing, what the
    memory looks like afterwards. */
module Raster {
  type Bytes = seq<bv8>

  datatype Option<+T> = None | Some(value: T)

  // The pixel a drawing operation stores at (row, column), if it stores one there.
  type Cells = (nat, nat) -> Option<Bytes>

  /** Pixels of `unit` bytes, `line` of them between the starts of consecutive rows. */
  datatype Grid = Grid(base: nat, line: nat, unit: nat) {
    function At(r: nat, c: nat): nat {
      base + Place(r, c) * unit
    }

    // Pixels before (r, c) when rows follow each other without a gap.
    function Place(r: nat, c: nat): nat {
      r * line + c
    }
  }

  function Put(m: Bytes, a: nat, p: Bytes): (m': Bytes)
    requires a + |p| <= |m|
    ensures |m'| == |m| && m'[a..a + |p|] == p
    ensures forall i | 0 <= i < |m| && !(a <= i < a + |p|) :: m'[i] == m[i]
  {
    m[..a] + p + m[a + |p|..]
  }

  // Storing a pixel byte by byte.
  lemma PutBytes(m: Bytes, a: nat, p: Bytes)
    requires a + |p| <= |m|
    ensures |p| == 2 ==> m[a := p[0]][a + 1 := p[1]] == Put(m, a, p)
    ensures |p| == 3 ==> m[a := p[0]][a + 1 := p[1]][a + 2 := p[2]] == Put(m, a, p)
    ensures |p| == 4 ==> m[a := p[0]][a + 1 := p[1]][a + 2 := p[2]][a + 3 := p[3]] == Put(m, a, p)
  {
  }

  lemma PutPut(m: Bytes, a: nat, p: Bytes, q: Bytes)
    requires a + |p| + |q| <= |m|
    ensures Put(Put(m, a, p), a + |p|, q) == Put(m, a, p + q)
    ensures Put(m, a, []) == m
  {
  }

  // What `f` stores at (r, c), if anything, is a pixel and lies inside the memory.
  ghost predicate Lands(m: Bytes, g: Grid, f: Cells, r: nat, c: nat) {
    f(r, c).Some? ==> |f(r, c).value| == g.unit && g.At(r, c) + g.unit <= |m|
  }

  // It also lies inside its line.
  ghost predicate Stores(m: Bytes, g: Grid, f: Cells, r: nat, c: nat) {
    Lands(m, g, f, r, c) && (f(r, c).Some? ==> c < g.line)
  }

  // Whatever `f` stores lies inside the memory, inside its line, and has the grid's pixel size.
  ghost predicate Fits(m: Bytes, g: Grid, h: int, w: int, f: Cells) {
    forall r: nat, c: nat | r < h && c < w :: Stores(m, g, f, r, c)
  }

  ghost function Plot(m: Bytes, g: Grid, f: Cells, r: nat, c: nat): (m': Bytes)
    ensures |m'| == |m|
  {
    if f(r, c).Some? && Lands(m, g, f, r, c) then Put(m, g.At(r, c), f(r, c).value) else m
  }

  // The memory after the first `r` rows and then the first `c` pixels of row `r`.
  ghost function Paint(m: Bytes, g: Grid, w: nat, f: Cells, r: nat, c: nat): (m': Bytes)
    ensures |m'| == |m|
    decreases r, c
  {
    if c > 0 then Plot(Paint(m, g, w, f, r, c - 1), g, f, r, c - 1)
    else if r > 0 then Paint(m, g, w, f, r - 1, w)
    else m
  }

  ghost predicate Hits(g: Grid, f: Cells, r: nat, c: nat, a: nat) {
    f(r, c).Some? && g.At(r, c) <= a < g.At(r, c) + g.unit
  }

  ghost predicate Shows(m: Bytes, g: Grid, f: Cells, r: nat, c: nat) {
    && Stores(m, g, f, r, c)
    && (f(r, c).Some? ==> m[g.At(r, c)..g.At(r, c) + g.unit] == f(r, c).value)
  }

  ghost predicate Untouched(g: Grid, h: int, w: int, f: Cells, a: nat) {
    forall r: nat, c: nat | r < h && c < w :: !Hits(g, f, r, c, a)
  }

  /** The rectangle of `h` rows and `w` columns shows `f`, and no other byte has changed. */
  ghost predicate Painted(m: Bytes, m': Bytes, g: Grid, h: int, w: int, f: Cells) {
    && |m'| == |m|
    && (forall r: nat, c: nat | r < h && c < w :: Shows(m', g, f, r, c))
    && (forall a: nat | a < |m| && Untouched(g, h, w, f, a) :: m'[a] == m[a])
  }

  // ----- address arithmetic

  ghost predicate Before(r: nat, c: nat, r': nat, c': nat) {
    r < r' || (r == r' && c < c')
  }

  lemma AtStep(g: Grid, r: nat, c: nat)
    ensures g.At(r, c + 1) == g.At(r, c) + g.unit
    ensures g.At(r, c) == g.At(r, 0) + c * g.unit
    ensures g.At(r + 1, 0) == g.At(r, 0) + g.line * g.unit
  {
  }

  lemma MulMono(a: nat, b: nat, k: nat)
    requires a <= b
    ensures a * k <= b * k
  {
  }

  // Pixels that come later in the walk lie at higher addresses.
  lemma AtBefore(g: Grid, r: nat, c: nat, r': nat, c': nat)
    requires Before(r, c, r', c') && c < g.line
    ensures g.At(r, c) + g.unit <= g.At(r', c')
  {
    if r < r' {
      MulMono(r + 1, r', g.line);
      assert (r + 1) * g.line == r * g.line + g.line;
    }
    MulMono(r * g.line + c + 1, r' * g.line + c', g.unit);
    assert (r * g.line + c + 1) * g.unit == (r * g.line + c) * g.unit + g.unit;
  }

  lemma FitsBound(m: Bytes, g: Grid, h: nat, w: nat, r: nat, c: nat)
    requires r < h && c < w && g.At(h - 1, w - 1) + g.unit <= |m|
    ensures g.At(r, c) + g.unit <= |m|
  {
    MulMono(r, h - 1, g.line);
    MulMono(r * g.line + c, (h - 1) * g.line + w - 1, g.unit);
  }

  // ----- the walk paints

  lemma WalkStarts(m: Bytes, g: Grid, w: nat, f: Cells)
    ensures g.At(0, 0) == g.base && Paint(m, g, w, f, 0, 0) == m
  {
  }

  lemma RowEnds(m: Bytes, g: Grid, w: nat, f: Cells, r: nat)
    ensures g.At(r + 1, 0) == g.At(r, 0) + g.line * g.unit
    ensures Paint(m, g, w, f, r + 1, 0) == Paint(m, g, w, f, r, w)
  {
  }

  lemma PaintStep(m: Bytes, g: Grid, w: nat, f: Cells, r: nat, c: nat)
    requires Lands(m, g, f, r, c)
    ensures f(r, c).Some? ==> g.At(r, c) + g.unit <= |m| && |f(r, c).value| == g.unit
    ensures Paint(m, g, w, f, r, c + 1) == if f(r, c).Some? then Put(Paint(m, g, w, f, r, c), g.At(r, c), f(r, c).value)
                                           else Paint(m, g, w, f, r, c)
  {
  }

  // Pixels at different places have no byte in common.
  lemma PlacesApart(g: Grid, r: nat, c: nat, r': nat, c': nat)
    requires g.Place(r, c) != g.Place(r', c')
    ensures g.At(r, c) + g.unit <= g.At(r', c') || g.At(r', c') + g.unit <= g.At(r, c)
  {
    hide Grid.Place;
    var i, j := g.Place(r, c), g.Place(r', c');
    if i < j {
      MulMono(i + 1, j, g.unit);
      assert (i + 1) * g.unit == i * g.unit + g.unit;
    } else {
      MulMono(j + 1, i, g.unit);
      assert (j + 1) * g.unit == j * g.unit + g.unit;
    }
  }

  // Nothing later in the walk, up to (r, c), is stored at the place of (r0, c0).
  ghost predicate LastThere(g: Grid, w: nat, f: Cells, r: nat, c: nat, r0: nat, c0: nat) {
    forall r1: nat, c1: nat | Before(r0, c0, r1, c1) && Before(r1, c1, r, c) && c1 < w && f(r1, c1).Some? ::
      g.Place(r1, c1) != g.Place(r0, c0)
  }

  /** A pixel keeps what it was given until something else is stored at its place. */
  lemma {:induction false} PaintLast(m: Bytes, g: Grid, w: nat, f: Cells, r: nat, c: nat, r0: nat, c0: nat)
    requires c <= w && Before(r0, c0, r, c) && c0 < w && f(r0, c0).Some? && Lands(m, g, f, r0, c0)
    requires LastThere(g, w, f, r, c, r0, c0)
    ensures Paint(m, g, w, f, r, c)[g.At(r0, c0)..g.At(r0, c0) + g.unit] == f(r0, c0).value
    decreases r, c
  {
    hide Grid.At, Grid.Place;
    if c > 0 {
      if (r0, c0) != (r, c - 1) {
        PaintLast(m, g, w, f, r, c - 1, r0, c0);
        if f(r, c - 1).Some? {
          assert Before(r0, c0, r, c - 1) && Before(r, c - 1, r, c);
          PlacesApart(g, r, c - 1, r0, c0);
        }
      }
    } else {
      PaintLast(m, g, w, f, r - 1, w, r0, c0);
    }
  }

  // In a picture no wider than its lines every pixel is the last one at its place.
  lemma PaintCell(m: Bytes, g: Grid, w: nat, f: Cells, r: nat, c: nat, r0: nat, c0: nat)
    requires c <= w && c0 < g.line && Lands(m, g, f, r0, c0)
    requires Before(r0, c0, r, c) && c0 < w && f(r0, c0).Some?
    ensures Paint(m, g, w, f, r, c)[g.At(r0, c0)..g.At(r0, c0) + g.unit] == f(r0, c0).value
  {
    forall r1: nat, c1: nat | Before(r0, c0, r1, c1)
      ensures g.Place(r1, c1) != g.Place(r0, c0)
    {
      if r0 < r1 {
        MulMono(r0 + 1, r1, g.line);
        assert (r0 + 1) * g.line == r0 * g.line + g.line;
      }
    }
    PaintLast(m, g, w, f, r, c, r0, c0);
  }

  // A byte that no stored pixel covers keeps its old value.
  lemma {:induction false} PaintOutside(m: Bytes, g: Grid, w: nat, f: Cells, r: nat, c: nat, a: nat)
    requires c <= w && a < |m|
    requires forall r0: nat, c0: nat | Before(r0, c0, r, c) && c0 < w :: !Hits(g, f, r0, c0, a)
    ensures Paint(m, g, w, f, r, c)[a] == m[a]
    decreases r, c
  {
    if c > 0 {
      assert Before(r, c - 1, r, c);
      PaintOutside(m, g, w, f, r, c - 1, a);
    } else if r == 0 {
    } else {
      PaintOutside(m, g, w, f, r - 1, w, a);
    }
  }

  lemma {:induction false} PaintSame(m: Bytes, g: Grid, w: nat, f: Cells, f': Cells, r: nat, c: nat)
    requires c <= w && forall r0: nat, c0: nat | Before(r0, c0, r, c) && c0 < w :: f(r0, c0) == f'(r0, c0)
    ensures Paint(m, g, w, f, r, c) == Paint(m, g, w, f', r, c)
    decreases r, c
  {
    if c > 0 {
      assert Before(r, c - 1, r, c);
      PaintSame(m, g, w, f, f', r, c - 1);
    } else if r == 0 {
    } else {
      PaintSame(m, g, w, f, f', r - 1, w);
    }
  }

  // A byte is either untouched or no longer depends on the memory the walk began with.
  lemma {:induction false} PaintForgets(m: Bytes, n: Bytes, g: Grid, w: nat, f: Cells, r: nat, c: nat, a: nat)
    requires c <= w && a < |m| == |n|
    ensures var p, q := Paint(m, g, w, f, r, c)[a], Paint(n, g, w, f, r, c)[a]; p == q || (p == m[a] && q == n[a])
    decreases r, c
  {
    if c > 0 {
      PaintForgets(m, n, g, w, f, r, c - 1, a);
      PlotForgets(Paint(m, g, w, f, r, c - 1), Paint(n, g, w, f, r, c - 1), g, f, r, c - 1, a);
    } else if r == 0 {
    } else {
      PaintForgets(m, n, g, w, f, r - 1, w, a);
    }
  }

  lemma PlotForgets(m: Bytes, n: Bytes, g: Grid, f: Cells, r: nat, c: nat, a: nat)
    requires a < |m| == |n|
    ensures var p, q := Plot(m, g, f, r, c)[a], Plot(n, g, f, r, c)[a]; p == q || (p == m[a] && q == n[a])
  {
    if f(r, c).Some? && Lands(m, g, f, r, c) && Hits(g, f, r, c, a) {
      var v, i := f(r, c).value, a - g.At(r, c);
      assert Put(m, g.At(r, c), v)[g.At(r, c)..g.At(r, c) + |v|][i] == v[i];
      assert Put(n, g.At(r, c), v)[g.At(r, c)..g.At(r, c) + |v|][i] == v[i];
    }
  }

  /** Walking the same picture again changes nothing, even where its rows run into each other. */
  lemma PaintTwice(m: Bytes, g: Grid, w: nat, f: Cells, h: nat)
    ensures Paint(Paint(m, g, w, f, h, 0), g, w, f, h, 0) == Paint(m, g, w, f, h, 0)
  {
    var once := Paint(m, g, w, f, h, 0);
    forall a: nat | a < |m|
      ensures Paint(once, g, w, f, h, 0)[a] == once[a]
    {
      PaintForgets(m, once, g, w, f, h, 0, a);
    }
  }

  // The pixel the walk is about to visit still holds its original bytes.
  lemma PaintAhead(m: Bytes, g: Grid, w: nat, f: Cells, r: nat, c: nat)
    requires c < w && Fits(m, g, r, w, f) && Fits(m, g, r + 1, c, f)
    requires g.At(r, c) + g.unit <= |m|
    ensures Paint(m, g, w, f, r, c)[g.At(r, c)..g.At(r, c) + g.unit] == m[g.At(r, c)..g.At(r, c) + g.unit]
  {
    forall a: nat | g.At(r, c) <= a < g.At(r, c) + g.unit
      ensures Paint(m, g, w, f, r, c)[a] == m[a]
    {
      forall r0: nat, c0: nat | Before(r0, c0, r, c) && c0 < w
        ensures !Hits(g, f, r0, c0, a)
      {
        assert Stores(m, g, f, r0, c0);
        if f(r0, c0).Some? {
          AtBefore(g, r0, c0, r, c);
        }
      }
      PaintOutside(m, g, w, f, r, c, a);
    }
  }

  /** Walking a rectangle paints it. */
  lemma PaintPaints(m: Bytes, g: Grid, h: nat, w: nat, f: Cells)
    requires Fits(m, g, h, w, f)
    ensures Painted(m, Paint(m, g, w, f, h, 0), g, h, w, f)
  {
    var m' := Paint(m, g, w, f, h, 0);
    forall r: nat, c: nat | r < h && c < w
      ensures Shows(m', g, f, r, c)
    {
      assert Stores(m, g, f, r, c);
      if f(r, c).Some? {
        PaintCell(m, g, w, f, h, 0, r, c);
      }
    }
    forall a: nat | a < |m| && Untouched(g, h, w, f, a)
      ensures m'[a] == m[a]
    {
      PaintOutside(m, g, w, f, h, 0, a);
    }
  }

  // ----- consequences of being painted

  // One byte of a painted pixel.
  lemma PaintedByte(m: Bytes, m': Bytes, g: Grid, h: int, w: int, f: Cells, r: nat, c: nat, a: nat)
    requires Painted(m, m', g, h, w, f) && r < h && c < w && Hits(g, f, r, c, a)
    ensures |f(r, c).value| == g.unit && a < |m'| && m'[a] == f(r, c).value[a - g.At(r, c)]
  {
    assert Shows(m', g, f, r, c);
    assert m'[a] == m'[g.At(r, c)..g.At(r, c) + g.unit][a - g.At(r, c)];
  }

  /** What is painted is determined by the old memory and the pixels. */
  lemma PaintedUnique(m: Bytes, m1: Bytes, m2: Bytes, g: Grid, h: int, w: int, f: Cells, f': Cells)
    requires Painted(m, m1, g, h, w, f) && Painted(m, m2, g, h, w, f')
    requires forall r: nat, c: nat | r < h && c < w :: f(r, c) == f'(r, c)
    ensures m1 == m2
  {
    forall a: nat | a < |m|
      ensures m1[a] == m2[a]
    {
      if Untouched(g, h, w, f, a) {
        forall r: nat, c: nat | r < h && c < w
          ensures !Hits(g, f', r, c, a)
        {
          assert !Hits(g, f, r, c, a);
        }
        assert Untouched(g, h, w, f', a);
      } else {
        var r: nat, c: nat :| r < h && c < w && Hits(g, f, r, c, a);
        assert f(r, c) == f'(r, c);
        PaintedByte(m, m1, g, h, w, f, r, c, a);
        PaintedByte(m, m2, g, h, w, f', r, c, a);
      }
    }
  }

  // A pixel of the rectangle that nothing is stored in keeps its bytes.
  lemma PaintedKeeps(m: Bytes, m': Bytes, g: Grid, h: int, w: int, f: Cells, r: nat, c: nat)
    requires Painted(m, m', g, h, w, f)
    requires r < h && c < w ==> f(r, c).None?
    requires c < g.line && g.At(r, c) + g.unit <= |m|
    ensures m'[g.At(r, c)..g.At(r, c) + g.unit] == m[g.At(r, c)..g.At(r, c) + g.unit]
  {
    forall a: nat | g.At(r, c) <= a < g.At(r, c) + g.unit
      ensures m'[a] == m[a]
    {
      forall r0: nat, c0: nat | r0 < h && c0 < w
        ensures !Hits(g, f, r0, c0, a)
      {
        assert Shows(m', g, f, r0, c0);
        if f(r0, c0).None? {
        } else if Before(r0, c0, r, c) {
          AtBefore(g, r0, c0, r, c);
        } else if (r0, c0) != (r, c) {
          AtBefore(g, r, c, r0, c0);
        }
      }
      assert Untouched(g, h, w, f, a);
    }
  }

  lemma PaintedSame(m: Bytes, m': Bytes, g: Grid, h: int, w: int, f: Cells, f': Cells)
    requires Painted(m, m', g, h, w, f)
    requires forall r: nat, c: nat | r < h && c < w :: f(r, c) == f'(r, c)
    ensures Painted(m, m', g, h, w, f')
  {
    forall r: nat, c: nat | r < h && c < w
      ensures Shows(m', g, f', r, c)
    {
      assert Shows(m', g, f, r, c);
    }
    forall a: nat | a < |m| && Untouched(g, h, w, f', a)
      ensures m'[a] == m[a]
    {
      forall r: nat, c: nat | r < h && c < w
        ensures !Hits(g, f, r, c, a)
      {
        assert !Hits(g, f', r, c, a);
      }
      assert Untouched(g, h, w, f, a);
    }
  }

  /** Painting the same thing again changes nothing. */
  lemma PaintedTwice(m: Bytes, m1: Bytes, m2: Bytes, g: Grid, h: int, w: int, f: Cells)
    requires Painted(m, m1, g, h, w, f) && Painted(m1, m2, g, h, w, f)
    ensures m2 == m1
  {
    forall a: nat | a < |m|
      ensures m2[a] == m1[a]
    {
      if !Untouched(g, h, w, f, a) {
        var r: nat, c: nat :| r < h && c < w && Hits(g, f, r, c, a);
        PaintedByte(m, m1, g, h, w, f, r, c, a);
        PaintedByte(m1, m2, g, h, w, f, r, c, a);
      }
    }
  }

  /** Painting in two places commutes. */
  lemma PaintedCommute(m: Bytes, m1: Bytes, m12: Bytes, m2: Bytes, m21: Bytes,
                       g1: Grid, h1: int, w1: int, f1: Cells, g2: Grid, h2: int, w2: int, f2: Cells)
    requires Painted(m, m1, g1, h1, w1, f1) && Painted(m1, m12, g2, h2, w2, f2)
    requires Painted(m, m2, g2, h2, w2, f2) && Painted(m2, m21, g1, h1, w1, f1)
    requires forall a: nat :: Untouched(g1, h1, w1, f1, a) || Untouched(g2, h2, w2, f2, a)
    ensures m12 == m21
  {
    forall a: nat | a < |m|
      ensures m12[a] == m21[a]
    {
      if !Untouched(g1, h1, w1, f1, a) {
        var r: nat, c: nat :| r < h1 && c < w1 && Hits(g1, f1, r, c, a);
        PaintedByte(m, m1, g1, h1, w1, f1, r, c, a);
        PaintedByte(m2, m21, g1, h1, w1, f1, r, c, a);
      } else if !Untouched(g2, h2, w2, f2, a) {
        var r: nat, c: nat :| r < h2 && c < w2 && Hits(g2, f2, r, c, a);
        PaintedByte(m, m2, g2, h2, w2, f2, r, c, a);
        PaintedByte(m1, m12, g2, h2, w2, f2, r, c, a);
      }
    }
  }

  // ----- rectangles inside a frame

  // A rectangle's pixels as pixels of the frame it is placed in at row `y` and column `x`.
  ghost function Shifted(f: Cells, y: nat, x: nat, h: nat, w: nat): Cells {
    (r: nat, c: nat) => if y <= r < y + h && x <= c < x + w then f(r - y, c - x) else None
  }

  function Within(g: Grid, y: nat, x: nat): Grid {
    Grid(g.At(y, x), g.line, g.unit)
  }

  lemma WithinAt(g: Grid, y: nat, x: nat, r: nat, c: nat)
    ensures Within(g, y, x).At(r, c) == g.At(y + r, x + c)
  {
  }

  lemma PaintedWithin(m: Bytes, m': Bytes, g: Grid, rows: nat, cols: nat, f: Cells, y: nat, x: nat, h: nat, w: nat)
    requires Painted(m, m', Within(g, y, x), h, w, f)
    requires y + h <= rows && x + w <= cols && cols <= g.line
    ensures Painted(m, m', g, rows, cols, Shifted(f, y, x, h, w))
  {
    var l, f' := Within(g, y, x), Shifted(f, y, x, h, w);
    forall r: nat, c: nat | r < rows && c < cols
      ensures Shows(m', g, f', r, c)
    {
      if y <= r < y + h && x <= c < x + w {
        WithinAt(g, y, x, r - y, c - x);
        assert Shows(m', l, f, r - y, c - x);
      }
    }
    forall a: nat | a < |m| && Untouched(g, rows, cols, f', a)
      ensures m'[a] == m[a]
    {
      forall r: nat, c: nat | r < h && c < w
        ensures !Hits(l, f, r, c, a)
      {
        WithinAt(g, y, x, r, c);
        assert !Hits(g, f', y + r, x + c, a);
      }
      assert Untouched(l, h, w, f, a);
    }
  }

  // The later pixels where there are some, the earlier ones elsewhere.
  ghost function Over(later: Cells, earlier: Cells): Cells {
    (r: nat, c: nat) => if later(r, c).Some? then later(r, c) else earlier(r, c)
  }

  /** Painting over a painting. */
  lemma PaintedOver(m: Bytes, m1: Bytes, m2: Bytes, g: Grid, h: int, w: int, f1: Cells, f2: Cells)
    requires Painted(m, m1, g, h, w, f1) && Painted(m1, m2, g, h, w, f2)
    ensures Painted(m, m2, g, h, w, Over(f2, f1))
  {
    var f := Over(f2, f1);
    forall r: nat, c: nat | r < h && c < w
      ensures Shows(m2, g, f, r, c)
    {
      assert Shows(m1, g, f1, r, c) && Shows(m2, g, f2, r, c);
      if f2(r, c).None? && f1(r, c).Some? {
        PaintedKeeps(m1, m2, g, h, w, f2, r, c);
      }
    }
    forall a: nat | a < |m| && Untouched(g, h, w, f, a)
      ensures m2[a] == m[a]
    {
      forall r: nat, c: nat | r < h && c < w
        ensures !Hits(g, f1, r, c, a) && !Hits(g, f2, r, c, a)
      {
        assert !Hits(g, f, r, c, a);
        assert Shows(m1, g, f1, r, c) && Shows(m2, g, f2, r, c);
      }
      assert Untouched(g, h, w, f1, a) && Untouched(g, h, w, f2, a);
    }
  }
}
