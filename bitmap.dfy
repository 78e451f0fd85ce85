/*
 * The software framebuffer of src/engine/graphics/bitmap/bitmap.c: the
 * process-wide globals pixel_buffer, bitmap_scale_x/y, bitmap_initialized and
 * global.bitmap as one object, with the initialiser, the pixel write API, the
 * per-frame texture synchronisation (sequential branch) and the small setters.
 */
module Bitmap {
  import opened PixelGrid
  import Replication

  type i32 = x: int | -0x8000_0000 <= x < 0x8000_0000

  /** An RGB triple, as the tint and fill fields of the bitmap state hold it. */
  datatype Rgb = Rgb(r: u8, g: u8, b: u8)

  /** Destination rectangle of the final blit. */
  datatype Rect = Rect(x: int, y: int, w: int, h: int)

  /** Bitmap_State, the record held in global.bitmap. */
  datatype BitmapState = BitmapState(
    width: nat, height: nat, rotation: nat,
    tint: Rgb, strokeFill: Rgb, shapeFill: Rgb,
    transform: Rect)

  /** global.bitmap before initialize_bitmap: a zero-initialised global. */
  const ZeroState := BitmapState(0, 0, 0, Rgb(0, 0, 0), Rgb(0, 0, 0), Rgb(0, 0, 0), Rect(0, 0, 0, 0))

  /** Largest percentage bitmap_scale accepts; larger requests are cut down to it. */
  const MaxScalePercent := 500

  /** clamp (bitmap.c:50-56): below `min` gives `min`, else above `max` gives `max`, else `value`. */
  function Clamp(value: i32, min: i32, max: i32): (r: i32)
    ensures min <= max ==> min <= r <= max
    ensures min <= value <= max ==> r == value
    ensures r == value || r == min || r == max
    ensures value < min ==> r == min
    ensures min <= value && value > max ==> r == max
  {
    if value < min then min
    else if value > max then max
    else value
  }

  /**
   * The guard of bitmap_scale (bitmap.c:96-105): each percentage is cut down
   * to MaxScalePercent, then a zero in either one rejects the request (with a
   * warning) before any state changes. An accepted request keeps each
   * percentage that lies in 1 .. MaxScalePercent and cuts a larger one down
   * to MaxScalePercent.
   */
  function ScaleGuard(widthScale: u32, heightScale: u32): (r: Option<(nat, nat)>)
    ensures r.None? <==> widthScale == 0 || heightScale == 0
    ensures r.Some? ==> 1 <= r.value.0 <= MaxScalePercent && 1 <= r.value.1 <= MaxScalePercent
    ensures r.Some? ==> (widthScale <= MaxScalePercent ==> r.value.0 == widthScale) &&
                        (heightScale <= MaxScalePercent ==> r.value.1 == heightScale)
    ensures r.Some? ==> (widthScale > MaxScalePercent ==> r.value.0 == MaxScalePercent) &&
                        (heightScale > MaxScalePercent ==> r.value.1 == MaxScalePercent)
  {
    var ws := if widthScale > MaxScalePercent then MaxScalePercent else widthScale;
    var hs := if heightScale > MaxScalePercent then MaxScalePercent else heightScale;
    if ws == 0 || hs == 0 then None else Some((ws, hs))
  }

  /**
   * The replication factor of one axis (bitmap.c:147-148, 182-183): the
   * largest s with s * logical <= render. It is 0 exactly when the render
   * size is smaller than the logical size.
   */
  function ScaleFactor(render: nat, logical: nat): (s: nat)
    requires logical > 0
    ensures s * logical <= render < (s + 1) * logical
    ensures s == 0 <==> render < logical
  {
    render / logical
  }

  /** The state the first initialize_bitmap(width, height) call installs (bitmap.c:116-143). */
  function InitialState(width: u32, height: u32, renderWidth: u32, renderHeight: u32): (st: BitmapState)
    ensures st.width == (if width > 0 then width else renderWidth)
    ensures st.height == (if height > 0 then height else renderHeight)
    ensures st.rotation == 0 && st.tint == Rgb(255, 255, 255) && st.strokeFill == Rgb(0, 0, 0)
    ensures st.shapeFill == Rgb(255, 255, 255) && st.transform == Rect(0, 0, renderWidth, renderHeight)
  {
    var bmp := BitmapState(renderWidth, renderHeight, 0, Rgb(255, 255, 255), Rgb(0, 0, 0), Rgb(255, 255, 255),
                           Rect(0, 0, renderWidth, renderHeight));
    var bmp := if width > 0 then bmp.(width := width) else bmp;
    if height > 0 then bmp.(height := height) else bmp
  }

  /**
   * The locked texture memory can take the expanded grid: `pitch` is a
   * positive whole number of words, a row holds width * sx words and the
   * memory holds height * sy rows.
   */
  predicate TextureFits(width: nat, height: nat, sx: nat, sy: nat, pitch: nat, words: nat) {
    pitch > 0 && pitch % 4 == 0 && width * sx <= pitch / 4 && height * sy * (pitch / 4) <= words
  }

  class Framebuffer {
    /** pixel_buffer: height rows of width cells; 0 x 0 stands for NULL before initialisation. */
    var pixels: array2<Color>
    /** bitmap_scale_x and bitmap_scale_y. */
    var scaleX: nat
    var scaleY: nat
    /** bitmap_initialized. */
    var initialized: bool
    /** global.bitmap. */
    var state: BitmapState

    /** The buffer has the state's dimensions, which are positive once initialised and 0 before. */
    ghost predicate Valid()
      reads this
    {
      pixels.Length0 == state.height && pixels.Length1 == state.width &&
      (initialized ==> state.width > 0 && state.height > 0) &&
      (!initialized ==> state.width == 0 && state.height == 0)
    }

    /** The contents of the pixel buffer. */
    ghost function Grid(): seq<seq<Color>>
      reads this, pixels
    {
      GridOf(pixels)
    }

    /** The globals as the program starts (bitmap.c:7-11). */
    constructor ()
      ensures Valid() && !initialized && scaleX == 1 && scaleY == 1 && state == ZeroState
    {
      pixels := new Color[0, 0]((i, j) => Transparent);
      scaleX, scaleY := 1, 1;
      initialized := false;
      state := ZeroState;
    }

    /**
     * initialize_bitmap (bitmap.c:114-173). The first call installs the
     * initial state, the scale factors and a zero-filled height x width
     * buffer; any later call only warns and changes nothing.
     */
    method Initialize(width: u32, height: u32, renderWidth: u32, renderHeight: u32) returns (warned: bool)
      requires Valid()
      requires !initialized ==> (width > 0 || renderWidth > 0) && (height > 0 || renderHeight > 0)
      modifies this
      ensures Valid() && initialized
      ensures warned == old(initialized)
      ensures old(initialized) ==> unchanged(this)
      ensures !old(initialized) ==>
        state == InitialState(width, height, renderWidth, renderHeight) &&
        scaleX == ScaleFactor(renderWidth, state.width) && scaleY == ScaleFactor(renderHeight, state.height) &&
        fresh(pixels) &&
        forall i, j :: 0 <= i < state.height && 0 <= j < state.width ==> pixels[i, j] == Transparent
    {
      if !initialized {
        state := InitialState(width, height, renderWidth, renderHeight);
        scaleX := renderWidth / state.width;
        scaleY := renderHeight / state.height;
        pixels := new Color[state.height, state.width]((i, j) => Transparent);
        initialized := true;
        warned := false;
      } else {
        warned := true;
      }
    }

    /**
     * draw_pixel (bitmap.c:58-70): the write of WritePixel on the buffer. A
     * write before initialisation is a fatal error, so it is excluded.
     */
    method DrawPixel(c: Option<Color>, x: int, y: int)
      requires Valid() && initialized
      modifies pixels
      ensures Grid() == WritePixel(old(Grid()), state.width, state.height, c, x, y)
      ensures forall i, j :: 0 <= i < state.height && 0 <= j < state.width ==>
        pixels[i, j] == if c.Some? && i == y && j == x then c.value else old(pixels[i, j])
    {
      if x < 0 || x >= state.width || y < 0 || y >= state.height {
        return;
      }
      if c.Some? && pixels[y, x] != c.value {
        pixels[y, x] := c.value;
      }
      WritePixelCells(old(Grid()), state.width, state.height, c, x, y);
      GridsEqual(Grid(), WritePixel(old(Grid()), state.width, state.height, c, x, y), state.width, state.height);
    }

    /**
     * fill_background (bitmap.c:42-48): draw_pixel(c, j, i) for every cell,
     * row by row. Before initialisation the dimensions are 0 and nothing is
     * drawn; afterwards every cell holds `c` (a null colour changes nothing).
     */
    method FillBackground(c: Option<Color>)
      requires Valid()
      modifies pixels
      ensures Grid() == Fill(old(Grid()), state.width, state.height, c)
      ensures forall i, j :: 0 <= i < state.height && 0 <= j < state.width ==>
        pixels[i, j] == if c.Some? then c.value else old(pixels[i, j])
    {
      ghost var g0 := Grid();
      var i := 0;
      while i < state.height
        invariant 0 <= i <= state.height
        invariant Grid() == PaintRows(g0, state.width, state.height, Solid(c), state.width, i)
      {
        var j := 0;
        while j < state.width
          invariant 0 <= j <= state.width
          invariant Grid() == PaintRow(PaintRows(g0, state.width, state.height, Solid(c), state.width, i),
                                       state.width, state.height, Solid(c), i, j)
        {
          DrawPixel(c, j, i);
          j := j + 1;
        }
        i := i + 1;
      }
      FillCells(g0, state.width, state.height, c);
    }

    /**
     * draw_pixels_from_surface (bitmap.c:72-81): draw_pixel of every surface
     * pixel at its own coordinates, row by row, so the part of the surface
     * outside the buffer is clipped. draw_pixel is reached only for a
     * non-empty surface, and then the buffer must be initialised.
     */
    method DrawPixelsFromSurface(s: Surface)
      requires Valid() && WellFormed(s)
      requires initialized || s.w == 0 || s.h == 0
      modifies pixels
      ensures Grid() == CopySurface(old(Grid()), state.width, state.height, s)
      ensures forall i, j :: 0 <= i < state.height && 0 <= j < state.width ==>
        pixels[i, j] == if i < s.h && j < s.w then SurfaceColor(s, j, i) else old(pixels[i, j])
    {
      ghost var g0 := Grid();
      var y := 0;
      while y < s.h
        invariant 0 <= y <= s.h
        invariant Grid() == PaintRows(g0, state.width, state.height, Image(s), s.w, y)
      {
        var x := 0;
        while x < s.w
          invariant 0 <= x <= s.w
          invariant Grid() == PaintRow(PaintRows(g0, state.width, state.height, Image(s), s.w, y),
                                       state.width, state.height, Image(s), y, x)
        {
          DrawPixel(Some(SurfaceColor(s, x, y)), x, y);
          x := x + 1;
        }
        y := y + 1;
      }
      CopySurfaceCells(g0, state.width, state.height, s);
    }

    /**
     * draw_pixel_buffer with multithreading off (bitmap.c:175-227). The scale
     * factors are recomputed from the current render size. `lockOk` is the
     * outcome of locking the recreated texture; on failure the frame is
     * skipped and no destination word is written. Otherwise the locked memory
     * `dest` (pitch bytes per row) receives the grid expanded by the scale
     * factors, each colour packed by `pack` (SDL_MapRGBA).
     */
    method DrawPixelBuffer(renderWidth: u32, renderHeight: u32, lockOk: bool,
                           dest: array<u32>, pitch: nat, pack: Color -> u32)
      requires Valid() && initialized
      requires lockOk ==> TextureFits(state.width, state.height, ScaleFactor(renderWidth, state.width),
                                      ScaleFactor(renderHeight, state.height), pitch, dest.Length)
      modifies this`scaleX, this`scaleY, dest
      ensures Valid()
      ensures scaleX == ScaleFactor(renderWidth, state.width) && scaleY == ScaleFactor(renderHeight, state.height)
      ensures !lockOk ==> dest[..] == old(dest[..])
      ensures lockOk ==>
        dest[..] == Replication.Expanded(Grid(), state.width, state.height, scaleX, scaleY, pitch / 4, pack, old(dest[..]))
    {
      scaleX := renderWidth / state.width;
      scaleY := renderHeight / state.height;
      if !lockOk {
        return;
      }
      Replication.ConvertSequential(pixels, dest, pitch / 4, scaleX, scaleY, pack);
    }

    /** rotate_bitmap_deg (bitmap.c:83-85): the rotation becomes degrees mod 360, nothing else changes. */
    method RotateDeg(degrees: u32)
      requires Valid()
      modifies this`state
      ensures Valid()
      ensures state == old(state).(rotation := degrees % 360)
      ensures state.rotation < 360
    {
      state := state.(rotation := degrees % 360);
    }
  }

  /* Clients that rely on the contracts alone. */

  /** Initialising twice keeps the first call's dimensions and warns. */
  method ScenarioInitialiseTwice()
  {
    var fb := new Framebuffer();
    var warned := fb.Initialize(4, 4, 8, 8);
    assert !warned && fb.state.width == 4 && fb.state.height == 4 && fb.scaleX == 2 && fb.scaleY == 2;
    warned := fb.Initialize(3, 3, 8, 8);
    assert warned && fb.state.width == 4 && fb.state.height == 4;
  }

  /** A write at x = -1 is clipped and a lock failure writes nothing. */
  method ScenarioClippedWriteAndLockFailure(pack: Color -> u32)
  {
    var fb := new Framebuffer();
    var _ := fb.Initialize(3, 3, 10, 10);
    assert fb.scaleX == 3 && fb.scaleY == 3;
    ghost var g := fb.Grid();
    fb.DrawPixel(Some(Color(255, 0, 0, 255)), -1, 0);
    assert fb.Grid() == g;
    var dest := new u32[90](k => 7);
    fb.DrawPixelBuffer(10, 10, false, dest, 40, pack);
    assert forall k :: 0 <= k < 90 ==> dest[k] == 7;
  }

  /** A 4 x 4 red grid on an 8 x 8 render target fills the whole 8 x 8 texture with red. */
  method ScenarioUniformRed(pack: Color -> u32)
  {
    var fb := new Framebuffer();
    var _ := fb.Initialize(4, 4, 8, 8);
    var red := Color(255, 0, 0, 255);
    fb.FillBackground(Some(red));
    var dest := new u32[64](k => 0);
    ghost var before := dest[..];
    ghost var g := fb.Grid();
    fb.DrawPixelBuffer(8, 8, true, dest, 32, pack);
    Replication.ExpandedUniform(g, 4, 4, 2, 2, 8, pack, before, red);
    assert forall k :: 0 <= k < 64 ==> dest[k] == pack(red);
  }
}
