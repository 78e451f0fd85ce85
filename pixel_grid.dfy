/*
 * The logical pixel buffer of bitmap.c as a value: a grid of RGBA cells, the
 * effect of one draw_pixel call on it, and the row-major sequences of
 * draw_pixel calls that fill_background and draw_pixels_from_surface perform.
 */
module PixelGrid {

  type u8 = x: int | 0 <= x < 0x100
  type u32 = x: int | 0 <= x < 0x1_0000_0000

  datatype Option<T> = None | Some(value: T)

  /** An SDL_Color: four bytes laid out r, g, b, a. */
  datatype Color = Color(r: u8, g: u8, b: u8, a: u8)

  /** The cell value calloc leaves behind. */
  const Transparent := Color(0, 0, 0, 0)

  /** a * c <= b * c when a <= b. */
  lemma {:induction false} MulLe(a: nat, b: nat, c: nat)
    requires a <= b
    ensures a * c <= b * c
  {
    if c > 0 {
      MulLe(a, b, c - 1);
      assert a * c == a * (c - 1) + a;
      assert b * c == b * (c - 1) + b;
    }
  }

  /**
   * An SDL_Surface as draw_pixels_from_surface reads it: `w` columns and `h`
   * rows of 32-bit pixels, row y starting at byte y * pitch of `pixels`.
   */
  datatype Surface = Surface(w: nat, h: nat, pitch: nat, pixels: seq<u8>)

  /** Every row holds its `w` pixels, and all `h` rows lie inside the bytes. */
  predicate WellFormed(s: Surface) {
    4 * s.w <= s.pitch && s.h * s.pitch <= |s.pixels|
  }

  lemma SurfaceOffsetFits(s: Surface, x: nat, y: nat)
    requires WellFormed(s) && x < s.w && y < s.h
    ensures y * s.pitch + 4 * x + 4 <= |s.pixels|
  {
    MulLe(y + 1, s.h, s.pitch);
    assert (y + 1) * s.pitch == y * s.pitch + s.pitch;
  }

  /**
   * Pixel x of row y, read as the u32 at byte y * pitch + 4 * x reinterpreted
   * as an SDL_Color (bitmap.c:76-78).
   */
  function SurfaceColor(s: Surface, x: nat, y: nat): (c: Color)
    requires WellFormed(s) && x < s.w && y < s.h
    ensures var o := y * s.pitch + 4 * x;
      o + 4 <= |s.pixels| && c == Color(s.pixels[o], s.pixels[o + 1], s.pixels[o + 2], s.pixels[o + 3])
  {
    SurfaceOffsetFits(s, x, y);
    var o := y * s.pitch + 4 * x;
    Color(s.pixels[o], s.pixels[o + 1], s.pixels[o + 2], s.pixels[o + 3])
  }

  /** `g` has exactly `h` rows of `w` cells each. */
  predicate IsGrid(g: seq<seq<Color>>, w: nat, h: nat) {
    |g| == h && forall i :: 0 <= i < h ==> |g[i]| == w
  }

  /** The contents of a height x width array as a grid of rows. */
  ghost function GridOf(a: array2<Color>): (g: seq<seq<Color>>)
    reads a
    ensures IsGrid(g, a.Length1, a.Length0)
    ensures forall i, j :: 0 <= i < a.Length0 && 0 <= j < a.Length1 ==> g[i][j] == a[i, j]
  {
    seq(a.Length0, i requires 0 <= i < a.Length0 reads a =>
      seq(a.Length1, j requires 0 <= j < a.Length1 reads a => a[i, j]))
  }

  /** Two grids of the same shape that agree on every cell are equal. */
  lemma GridsEqual(a: seq<seq<Color>>, b: seq<seq<Color>>, w: nat, h: nat)
    requires IsGrid(a, w, h) && IsGrid(b, w, h)
    requires forall i, j :: 0 <= i < h && 0 <= j < w ==> a[i][j] == b[i][j]
    ensures a == b
  {
    forall i | 0 <= i < h ensures a[i] == b[i] {
      assert forall j :: 0 <= j < w ==> a[i][j] == b[i][j];
    }
  }

  /**
   * draw_pixel on a w x h grid: a write outside [0, w) x [0, h) is ignored, a
   * null colour changes nothing, and a cell that already holds the colour is
   * not rewritten.
   */
  function WritePixel(g: seq<seq<Color>>, w: nat, h: nat, c: Option<Color>, x: int, y: int): (r: seq<seq<Color>>)
    requires IsGrid(g, w, h)
    ensures IsGrid(r, w, h)
  {
    if x < 0 || x >= w || y < 0 || y >= h then g
    else if c.Some? && g[y][x] != c.value then g[y := g[y][x := c.value]]
    else g
  }

  /**
   * The one cell a write can change: (x, y), and only for a non-null colour;
   * the equal-colour skip makes no difference to the result.
   */
  lemma WritePixelCells(g: seq<seq<Color>>, w: nat, h: nat, c: Option<Color>, x: int, y: int)
    requires IsGrid(g, w, h)
    ensures forall i, j :: 0 <= i < h && 0 <= j < w ==>
      WritePixel(g, w, h, c, x, y)[i][j] == if c.Some? && i == y && j == x then c.value else g[i][j]
  {
  }

  /** Writes outside the grid are clipped: the grid is unchanged. */
  lemma WritePixelClipped(g: seq<seq<Color>>, w: nat, h: nat, c: Option<Color>, x: int, y: int)
    requires IsGrid(g, w, h)
    requires x < 0 || x >= w || y < 0 || y >= h
    ensures WritePixel(g, w, h, c, x, y) == g
  {
  }

  /** Writing the same colour to the same cell twice is the same as writing it once. */
  lemma WritePixelIdempotent(g: seq<seq<Color>>, w: nat, h: nat, c: Option<Color>, x: int, y: int)
    requires IsGrid(g, w, h)
    ensures WritePixel(WritePixel(g, w, h, c, x, y), w, h, c, x, y) == WritePixel(g, w, h, c, x, y)
  {
  }

  /**
   * Where the colour of each draw_pixel call in a row-major sweep comes from:
   * one fixed (possibly null) colour, as in fill_background, or the pixel at
   * the same coordinates of a surface, as in draw_pixels_from_surface.
   */
  datatype Brush = Solid(color: Option<Color>) | Image(surface: Surface)

  /** The brush can be read at every (x, y) with x < cols and y < rows. */
  predicate Covers(b: Brush, cols: nat, rows: nat) {
    b.Image? ==> WellFormed(b.surface) && cols <= b.surface.w && rows <= b.surface.h
  }

  /** The colour argument of the draw_pixel call at (x, y). */
  function BrushAt(b: Brush, x: nat, y: nat): Option<Color>
    requires Covers(b, x + 1, y + 1)
  {
    match b
    case Solid(c) => c
    case Image(s) => Some(SurfaceColor(s, x, y))
  }

  /** draw_pixel(BrushAt(b, x, y), x, y) for x = 0 .. n-1 on row y, in that order. */
  function PaintRow(g: seq<seq<Color>>, w: nat, h: nat, b: Brush, y: nat, n: nat): (r: seq<seq<Color>>)
    requires IsGrid(g, w, h) && Covers(b, n, y + 1)
    ensures IsGrid(r, w, h)
    decreases n
  {
    if n == 0 then g
    else WritePixel(PaintRow(g, w, h, b, y, n - 1), w, h, BrushAt(b, n - 1, y), n - 1, y)
  }

  /** PaintRow over `cols` columns for rows 0 .. m-1, in that order. */
  function PaintRows(g: seq<seq<Color>>, w: nat, h: nat, b: Brush, cols: nat, m: nat): (r: seq<seq<Color>>)
    requires IsGrid(g, w, h) && Covers(b, cols, m)
    ensures IsGrid(r, w, h)
    decreases m
  {
    if m == 0 then g
    else PaintRow(PaintRows(g, w, h, b, cols, m - 1), w, h, b, m - 1, cols)
  }

  /** After a row sweep, exactly the first n cells of row y hold the brush's non-null colours. */
  lemma {:induction false} PaintRowCells(g: seq<seq<Color>>, w: nat, h: nat, b: Brush, y: nat, n: nat)
    requires IsGrid(g, w, h) && Covers(b, n, y + 1)
    ensures forall i, j :: 0 <= i < h && 0 <= j < w ==>
      PaintRow(g, w, h, b, y, n)[i][j] ==
        if i == y && j < n && BrushAt(b, j, i).Some? then BrushAt(b, j, i).value else g[i][j]
  {
    if n > 0 {
      PaintRowCells(g, w, h, b, y, n - 1);
      WritePixelCells(PaintRow(g, w, h, b, y, n - 1), w, h, BrushAt(b, n - 1, y), n - 1, y);
    }
  }

  /** After sweeping m rows of `cols` columns, exactly that rectangle holds the brush's non-null colours. */
  lemma {:induction false} PaintRowsCells(g: seq<seq<Color>>, w: nat, h: nat, b: Brush, cols: nat, m: nat)
    requires IsGrid(g, w, h) && Covers(b, cols, m)
    ensures forall i, j :: 0 <= i < h && 0 <= j < w ==>
      PaintRows(g, w, h, b, cols, m)[i][j] ==
        if i < m && j < cols && BrushAt(b, j, i).Some? then BrushAt(b, j, i).value else g[i][j]
  {
    if m > 0 {
      PaintRowsCells(g, w, h, b, cols, m - 1);
      PaintRowCells(PaintRows(g, w, h, b, cols, m - 1), w, h, b, m - 1, cols);
    }
  }

  /** fill_background: draw_pixel(c, j, i) for every cell of the w x h grid, row by row. */
  function Fill(g: seq<seq<Color>>, w: nat, h: nat, c: Option<Color>): (r: seq<seq<Color>>)
    requires IsGrid(g, w, h)
    ensures IsGrid(r, w, h)
  {
    PaintRows(g, w, h, Solid(c), w, h)
  }

  /** After a fill with a colour every cell holds it; a fill with null changes nothing. */
  lemma FillCells(g: seq<seq<Color>>, w: nat, h: nat, c: Option<Color>)
    requires IsGrid(g, w, h)
    ensures forall i, j :: 0 <= i < h && 0 <= j < w ==>
      Fill(g, w, h, c)[i][j] == if c.Some? then c.value else g[i][j]
    ensures c.None? ==> Fill(g, w, h, c) == g
  {
    PaintRowsCells(g, w, h, Solid(c), w, h);
    if c.None? {
      GridsEqual(Fill(g, w, h, c), g, w, h);
    }
  }

  /** Filling twice with the same colour is the same as filling once. */
  lemma FillIdempotent(g: seq<seq<Color>>, w: nat, h: nat, c: Option<Color>)
    requires IsGrid(g, w, h)
    ensures Fill(Fill(g, w, h, c), w, h, c) == Fill(g, w, h, c)
  {
    FillCells(g, w, h, c);
    FillCells(Fill(g, w, h, c), w, h, c);
    GridsEqual(Fill(Fill(g, w, h, c), w, h, c), Fill(g, w, h, c), w, h);
  }

  /** draw_pixels_from_surface: draw_pixel of every surface pixel at its own coordinates, row by row. */
  function CopySurface(g: seq<seq<Color>>, w: nat, h: nat, s: Surface): (r: seq<seq<Color>>)
    requires IsGrid(g, w, h) && WellFormed(s)
    ensures IsGrid(r, w, h)
  {
    PaintRows(g, w, h, Image(s), s.w, s.h)
  }

  /**
   * The cells inside both the grid and the surface take the surface's pixel;
   * every other cell keeps its colour.
   */
  lemma CopySurfaceCells(g: seq<seq<Color>>, w: nat, h: nat, s: Surface)
    requires IsGrid(g, w, h) && WellFormed(s)
    ensures forall i, j :: 0 <= i < h && 0 <= j < w ==>
      CopySurface(g, w, h, s)[i][j] == if i < s.h && j < s.w then SurfaceColor(s, j, i) else g[i][j]
  {
    PaintRowsCells(g, w, h, Image(s), s.w, s.h);
  }
}
