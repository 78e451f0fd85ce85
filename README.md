# Pixelinator bitmap framebuffer, modelled in Dafny

This project models the software framebuffer of `src/engine/graphics/bitmap/bitmap.c`.
It covers:

- the logical pixel buffer (`pixel_buffer`, a `height x width` grid of `SDL_Color` cells);
- its one-shot initialiser, `initialize_bitmap`;
- the pixel write API: `draw_pixel`, `fill_background` and `draw_pixels_from_surface`;
- the per-frame texture synchronisation `draw_pixel_buffer`. It recomputes the integer scale
  factors, then either skips the frame when the texture lock fails or expands the grid into the
  locked memory by integer replication. This is a Kronecker product of the grid with an
  `sx x sy` block of ones;
- the small helpers `clamp`, `rotate_bitmap_deg` and the guard of `bitmap_scale`.

Files and modules:

- `pixel_grid.dfy`, module `PixelGrid`: colours, surfaces and the grid as a value. `WritePixel`
  is the effect of one `draw_pixel`. `PaintRow`/`PaintRows` are the row-major sweeps of
  `draw_pixel` calls that `fill_background` (`Fill`) and `draw_pixels_from_surface`
  (`CopySurface`) perform. Lemmas give the cell-by-cell result of each.
- `replication.dfy`, module `Replication`: `Expanded`, the destination after the sequential
  conversion. The texture memory is a flat sequence of 32-bit words with `pitch / 4` words per
  row. The module also has lemmas about `Expanded` (block contents, untouched words) and the
  in-place methods `WriteRowSpan`, `ReplicateBlock` and `ConvertSequential`, proved against
  `Expanded`.
- `bitmap.dfy`, module `Bitmap`: the process-wide globals (`pixel_buffer`,
  `bitmap_scale_x/y`, `bitmap_initialized`, `global.bitmap`) as one class, `Framebuffer`. Its
  methods are the operations of `bitmap.c`. The module also has the pure helpers and three
  client methods. Those methods exercise the contracts on concrete scenarios: a second
  initialisation, a clipped write with a lock failure, and a uniform 4 x 4 grid on an 8 x 8
  target.

Modelling choices:

- Before initialisation `pixel_buffer` is `NULL` and `global.bitmap` is a zero-initialised
  global. The model stands for this with a 0 x 0 array and a zero `BitmapState`. So
  `fill_background` before initialisation runs its loops zero times and changes nothing, as in C.
  `draw_pixel` before initialisation is a fatal error and is excluded by a precondition.
  `draw_pixels_from_surface` reaches `draw_pixel` only for a non-empty surface, so only that
  case requires initialisation.
- The render size (`global.render.width/height`) is a parameter of the methods that read it.
- `SDL_MapRGBA` is the parameter `pack: Color -> u32`, an arbitrary function.
- The success of `SDL_LockTexture` is the boolean parameter `lockOk`. The locked memory is an
  `array<u32>` with a `pitch` in bytes.
- `engine/render/render.c:24-25` calls `draw_pixel_buffer` only when `bitmap_initialized`
  holds. `DrawPixelBuffer` therefore requires `initialized`.
- The equal-colour check of `draw_pixel` (`bitmap.c:67`) compares the two colours as 32-bit
  words. That is the same as comparing all four bytes, so it is modelled as `Color` equality.
  `WritePixelCells` shows the check does not change the result.

Facts of the code that the model keeps, where a reader might expect otherwise:

- The scale factors are not clamped to at least 1. The code divides `render / logical`
  without clamping (`bitmap.c:147-148`, `:182-183`), so a factor is 0 whenever the render size
  is smaller than the bitmap. `ScaleFactor` states exactly when it is 0. At the first
  `initialize_bitmap` such a factor makes texture creation fail and the program exit, which is
  outside the model (see "## Left out").
- The `floor` at `bitmap.c:147` acts on an integer quotient and has no effect.
- On the lock-failure path (`bitmap.c:188-192`) the code returns without calling
  `SDL_FreeFormat` on the format allocated at `:176`. The allocation is SDL's and is not
  modelled.

## Model

| member | source | states |
|---|---|---|
| `PixelGrid.SurfaceColor` | src/engine/graphics/bitmap/bitmap.c:76-78 | pixel x of surface row y is the four bytes at byte offset y * pitch + 4 * x, read as r, g, b, a, and they lie inside the surface's bytes |
| `PixelGrid.WritePixel` | src/engine/graphics/bitmap/bitmap.c:63-69 | the effect of one draw_pixel on the grid; its own contract states only that the grid keeps its height x width shape, and its meaning is stated by WritePixelCells, WritePixelClipped and WritePixelIdempotent |
| `PixelGrid.WritePixelCells` | src/engine/graphics/bitmap/bitmap.c:63-69 | after a write only cell (x, y) can differ, it holds the colour when the colour is non-null, and every other cell is unchanged; the equal-colour skip does not show |
| `PixelGrid.WritePixelClipped` | src/engine/graphics/bitmap/bitmap.c:63-64 | a write with x outside [0, width) or y outside [0, height) leaves the whole grid unchanged |
| `PixelGrid.WritePixelIdempotent` | src/engine/graphics/bitmap/bitmap.c:67-69 | writing the same colour to the same cell twice gives the same grid as writing it once |
| `PixelGrid.PaintRow` | src/engine/graphics/bitmap/bitmap.c:44-46 | draw_pixel at columns 0 .. n-1 of one row, in that order; its own contract states only that the shape is kept, and PaintRowCells gives its cell-by-cell result |
| `PixelGrid.PaintRows` | src/engine/graphics/bitmap/bitmap.c:43-47 | the row-major sweep of PaintRow over rows 0 .. m-1, which is also the loop shape of bitmap.c:75-80; its own contract states only that the shape is kept, and PaintRowsCells gives its cell-by-cell result |
| `PixelGrid.PaintRowCells` | src/engine/graphics/bitmap/bitmap.c:44-46 | after draw_pixel at columns 0 .. n-1 of row y, exactly those cells hold their non-null colours |
| `PixelGrid.PaintRowsCells` | src/engine/graphics/bitmap/bitmap.c:43-47 | after the row-major sweep of m rows and cols columns, exactly the cells of that rectangle hold the brush's non-null colours, the rest are unchanged |
| `PixelGrid.Fill` | src/engine/graphics/bitmap/bitmap.c:42-48 | fill_background as the sweep of draw_pixel(c, j, i) over the whole grid; its own contract states only that the shape is kept, and FillCells and FillIdempotent state its meaning |
| `PixelGrid.FillCells` | src/engine/graphics/bitmap/bitmap.c:42-48 | after fill_background(c) every cell in [0, height) x [0, width) equals c; a null colour leaves the grid unchanged |
| `PixelGrid.FillIdempotent` | src/engine/graphics/bitmap/bitmap.c:42-48 | filling twice with the same colour equals filling once |
| `PixelGrid.CopySurface` | src/engine/graphics/bitmap/bitmap.c:72-81 | draw_pixels_from_surface as the sweep of draw_pixel over the surface's rows and columns; its own contract states only that the shape is kept, and CopySurfaceCells gives the clipped copy |
| `PixelGrid.CopySurfaceCells` | src/engine/graphics/bitmap/bitmap.c:72-81 | for y < min(surface.h, height) and x < min(surface.w, width) the cell holds source pixel x of source row y (row y at byte y * pitch); every other cell is unchanged |
| `Replication.Expanded` | src/engine/graphics/bitmap/bitmap.c:205-222 | the locked memory after the sequential conversion, word by word through ExpandedWord and BlockColor: a word in destination row k / stride below H * sy and column k % stride below W * sx holds pack of its logical cell, every other word keeps its old value; its own contract states only that the length is kept, and ExpandedBlock, ExpandedOutsideBlocks, ExpandedIdempotent and ExpandedUniform state its meaning |
| `Replication.ExpandedBlock` | src/engine/graphics/bitmap/bitmap.c:205-222 | for all i < H, j < W, dy < sy, dx < sx the word (i * sy + dy) * (pitch / 4) + j * sx + dx lies in the locked memory and equals pack(buffer[i][j]) |
| `Replication.ExpandedOutsideBlocks` | src/engine/graphics/bitmap/bitmap.c:214-218 | words outside every block keep their value: row padding at or beyond column W * sx and rows at or beyond H * sy |
| `Replication.ExpandedIdempotent` | src/engine/graphics/bitmap/bitmap.c:205-222 | converting the same grid again leaves the destination as it is: the written words depend only on the grid |
| `Replication.ExpandedUniform` | src/engine/graphics/bitmap/bitmap.c:205-222 | a one-colour grid whose blocks tile the memory exactly makes every destination word that colour's packed value |
| `Replication.WriteRowSpan` | src/engine/graphics/bitmap/bitmap.c:216-218 | words j * sx .. j * sx + sx - 1 of the current row receive the packed colour, every other word is unchanged |
| `Replication.ReplicateBlock` | src/engine/graphics/bitmap/bitmap.c:214-219 | the sy rows of the block, each addressed through the pitch, get the packed colour in their sx words, and nothing outside the block changes |
| `Replication.ConvertSequential` | src/engine/graphics/bitmap/bitmap.c:205-222 | the nested loops leave the locked memory equal to Expanded of the grid, the scale factors and the old memory |
| `Bitmap.Clamp` | src/engine/graphics/bitmap/bitmap.c:50-56 | the result is the value when it lies in [min, max], min when the value is below min, max when the value is not below min but above max, and in [min, max] whenever min <= max |
| `Bitmap.ScaleGuard` | src/engine/graphics/bitmap/bitmap.c:96-105 | the request is rejected iff either percentage is 0; an accepted pair lies in 1 .. 500, keeps percentages up to 500 and cuts larger ones to 500 |
| `Bitmap.ScaleFactor` | src/engine/graphics/bitmap/bitmap.c:182-183 | the factor is the largest s with s * logical <= render (floor division), and it is 0 exactly when render < logical |
| `Bitmap.InitialState` | src/engine/graphics/bitmap/bitmap.c:116-143 | width = (w > 0 ? w : render width), height likewise; rotation 0, tint 255,255,255, stroke fill 0,0,0, shape fill 255,255,255, transform (0, 0, render width, render height) |
| `Bitmap.Framebuffer.constructor` | src/engine/graphics/bitmap/bitmap.c:7-11 | before initialisation the buffer is empty, the scale factors are 1 and the flag is clear |
| `Bitmap.Framebuffer.Initialize` | src/engine/graphics/bitmap/bitmap.c:114-173 | the first call installs InitialState, sets the scale factors to render / bitmap size and a fresh height x width buffer of zero cells, and sets the flag; a later call warns and changes no state |
| `Bitmap.Framebuffer.DrawPixel` | src/engine/graphics/bitmap/bitmap.c:58-70 | the buffer becomes WritePixel of the old buffer: clipped out-of-range writes, a null colour changes nothing, otherwise only cell (x, y) changes, to the colour |
| `Bitmap.Framebuffer.FillBackground` | src/engine/graphics/bitmap/bitmap.c:42-48 | the buffer becomes the row-major sweep of draw_pixel(c, j, i), so every cell equals c (unchanged for a null colour) |
| `Bitmap.Framebuffer.DrawPixelsFromSurface` | src/engine/graphics/bitmap/bitmap.c:72-81 | the buffer becomes the row-major sweep of draw_pixel over the surface: the overlap with the surface holds its pixels, the rest is unchanged |
| `Bitmap.Framebuffer.DrawPixelBuffer` | src/engine/graphics/bitmap/bitmap.c:175-227 | the scale factors are always recomputed as render / bitmap size; on lock failure no destination word changes; otherwise the memory becomes Expanded of the buffer with pitch / 4 words per row |
| `Bitmap.Framebuffer.RotateDeg` | src/engine/graphics/bitmap/bitmap.c:83-85 | the rotation becomes degrees mod 360 (so below 360) and nothing else in the state changes |

## Left out

- `process_pixels`, the multithreaded conversion (`bitmap.c:201-203`), is not part of this model. Its source, `pixel_threading.h`, is not available, and its point is concurrency. `DrawPixelBuffer` models the branch taken when `MULTITHREADING_ENABLED` is clear. So the equivalence of the sequential and parallel conversions is not stated.
- SDL calls are not modelled: `SDL_CreateTexture`/`SDL_DestroyTexture` (`bitmap.c:162-166`, `:185-186`), `SDL_LockTexture` (a boolean input), `SDL_UnlockTexture`, `SDL_AllocFormat`/`SDL_FreeFormat`, and `SDL_MapRGBA` (an arbitrary `pack` function). The texture's size, the `ERROR_EXIT` when texture creation fails, and the format leak on the lock-failure path are therefore outside the model. In particular, when the render size is smaller than the bitmap, the first `initialize_bitmap` computes a scale factor of 0 and asks `SDL_CreateTexture` (`bitmap.c:162`) for a texture of width or height 0. SDL refuses this and the code exits at `bitmap.c:164-166`. `Bitmap.Framebuffer.Initialize` does not model that exit: it ends initialised with the 0 factor.
- The `ERROR_EXIT` paths for a failed `calloc` (`bitmap.c:150-160`) are not modelled: allocation always succeeds.
- `Bitmap.Framebuffer.Initialize` requires a positive resulting width and height. The C code divides by them at `bitmap.c:147-148`, and a zero divisor is undefined behaviour there rather than a handled case.
- `Bitmap.Framebuffer.DrawPixelBuffer` requires, on lock success, a pitch that is a positive multiple of 4 and locked memory large enough for `height * sy` rows of `width * sx` words. SDL guarantees this for the texture it created, and the C code relies on it.
- `rotate_bitmap_rad` (`bitmap.c:87-89`) and the `f32` transform update of `bitmap_scale` (`bitmap.c:107-111`) are floating point. Only the guard of `bitmap_scale` is modelled, by `ScaleGuard`.
- `set_background_clear`, `set_stroke_fill`, `set_shape_fill`, `set_bitmap_tint` and `bitmap_shift` (`bitmap.c:13-40`, `:91-94`) are not modelled. They are a wrapper over SDL and plain field setters, and no modelled operation reads what they write.
- Integer widths are not modelled: integers are unbounded. Possible overflow of `i32`/`u32` products, such as `(i * bitmap_scale_y + y) * pitch` or `width * bitmap_scale_x`, is not modelled. Division and `% 360` act only on non-negative values, where Dafny's operators agree with C's.
- `pixel_buffer` is an array of separately allocated rows; the model uses one two-dimensional array with the same indexing.
- `engine/render/render.c`, `engine/render/render.h` and `engine/input/input.h` are not modelled. They are a render-loop driver, SDL bootstrap and declarations.
