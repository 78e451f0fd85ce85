/*
 * The sequential conversion of draw_pixel_buffer (bitmap.c:205-222): the
 * logical grid expanded into a locked texture by integer replication, each
 * cell becoming an sx x sy block of packed words. The texture memory is a flat
 * array of 32-bit words, `stride` (pitch / 4) words per row.
 */
module Replication {
  import opened PixelGrid

  /** Word r * stride + c lies in row r and column c when c < stride. */
  lemma RowCol(r: nat, c: nat, stride: nat)
    requires c < stride
    ensures (r * stride + c) / stride == r && (r * stride + c) % stride == c
  {
    var k := r * stride + c;
    var q, m := k / stride, k % stride;
    assert k == q * stride + m;
    assert (q + 1) * stride == q * stride + stride;
    assert (r + 1) * stride == r * stride + stride;
    if q < r {
      MulLe(q + 1, r, stride);
    } else if q > r {
      MulLe(r + 1, q, stride);
    }
  }

  /** A row below n * s lies in a block row below n. */
  lemma DivBelow(a: nat, s: nat, n: nat)
    requires a < n * s
    ensures s > 0 && a / s < n
  {
    if s > 0 && a / s >= n {
      MulLe(n, a / s, s);
    }
  }

  /** The rows i * s .. i * s + s - 1 form block row i. */
  lemma DivInBlock(a: nat, s: nat, i: nat)
    requires i * s <= a < i * s + s
    ensures a / s == i
  {
    RowCol(i, a - i * s, s);
  }

  /** The logical cell replicated at destination row `row`, column `col`. */
  function BlockColor(g: seq<seq<Color>>, w: nat, h: nat, sx: nat, sy: nat, row: nat, col: nat): Color
    requires IsGrid(g, w, h) && row < h * sy && col < w * sx
  {
    DivBelow(row, sy, h);
    DivBelow(col, sx, w);
    g[row / sy][col / sx]
  }

  /**
   * The destination after the conversion: a word in row k / stride below
   * h * sy and column k % stride below w * sx holds the packed colour of
   * its logical cell; every other word keeps its value from `before`.
   */
  function Expanded(g: seq<seq<Color>>, w: nat, h: nat, sx: nat, sy: nat, stride: nat,
                    pack: Color -> u32, before: seq<u32>): (r: seq<u32>)
    requires IsGrid(g, w, h) && stride > 0
    ensures |r| == |before|
  {
    seq(|before|, k requires 0 <= k < |before| =>
      ExpandedWord(g, w, h, sx, sy, pack, k / stride, k % stride, before[k]))
  }

  /** The word at destination row `row`, column `col` after the conversion, `previous` before it. */
  function ExpandedWord(g: seq<seq<Color>>, w: nat, h: nat, sx: nat, sy: nat,
                        pack: Color -> u32, row: nat, col: nat, previous: u32): u32
    requires IsGrid(g, w, h)
  {
    if row < h * sy && col < w * sx then pack(BlockColor(g, w, h, sx, sy, row, col)) else previous
  }

  /**
   * Kronecker replication: word dx of row dy of the block of cell (i, j)
   * holds the packed colour of that cell.
   */
  lemma ExpandedBlock(g: seq<seq<Color>>, w: nat, h: nat, sx: nat, sy: nat, stride: nat,
                      pack: Color -> u32, before: seq<u32>, i: nat, j: nat, dy: nat, dx: nat)
    requires IsGrid(g, w, h) && stride > 0 && w * sx <= stride && h * sy * stride <= |before|
    requires i < h && j < w && dy < sy && dx < sx
    ensures (i * sy + dy) * stride + j * sx + dx < |before|
    ensures Expanded(g, w, h, sx, sy, stride, pack, before)[(i * sy + dy) * stride + j * sx + dx] == pack(g[i][j])
  {
    var row, col := i * sy + dy, j * sx + dx;
    MulLe(i + 1, h, sy);
    MulLe(j + 1, w, sx);
    assert (i + 1) * sy == i * sy + sy && (j + 1) * sx == j * sx + sx;
    RowCol(row, col, stride);
    MulLe(row + 1, h * sy, stride);
    assert (row + 1) * stride == row * stride + stride;
    RowCol(i, dy, sy);
    RowCol(j, dx, sx);
  }

  /**
   * Words outside every block keep their value: the padding of each row at or
   * beyond column w * sx, and every row at or beyond h * sy.
   */
  lemma ExpandedOutsideBlocks(g: seq<seq<Color>>, w: nat, h: nat, sx: nat, sy: nat, stride: nat,
                              pack: Color -> u32, before: seq<u32>, row: nat, col: nat)
    requires IsGrid(g, w, h) && col < stride && row * stride + col < |before|
    requires row >= h * sy || col >= w * sx
    ensures Expanded(g, w, h, sx, sy, stride, pack, before)[row * stride + col] == before[row * stride + col]
  {
    RowCol(row, col, stride);
  }

  /**
   * The words of the destination are determined by the grid alone: converting
   * the same grid again leaves the destination as it is.
   */
  lemma ExpandedIdempotent(g: seq<seq<Color>>, w: nat, h: nat, sx: nat, sy: nat, stride: nat,
                           pack: Color -> u32, before: seq<u32>)
    requires IsGrid(g, w, h) && stride > 0
    ensures var once := Expanded(g, w, h, sx, sy, stride, pack, before);
      Expanded(g, w, h, sx, sy, stride, pack, once) == once
  {
  }

  /**
   * A grid of one colour whose blocks tile the destination exactly (no row
   * padding, no rows beyond h * sy) turns every destination word into that
   * colour's packed word.
   */
  lemma ExpandedUniform(g: seq<seq<Color>>, w: nat, h: nat, sx: nat, sy: nat, stride: nat,
                        pack: Color -> u32, before: seq<u32>, c: Color)
    requires IsGrid(g, w, h) && stride > 0 && w * sx == stride && |before| == h * sy * stride
    requires forall i, j :: 0 <= i < h && 0 <= j < w ==> g[i][j] == c
    ensures forall k :: 0 <= k < |before| ==> Expanded(g, w, h, sx, sy, stride, pack, before)[k] == pack(c)
  {
    forall k | 0 <= k < |before|
      ensures Expanded(g, w, h, sx, sy, stride, pack, before)[k] == pack(c)
    {
      DivBelow(k, stride, h * sy);
      DivBelow(k / stride, sy, h);
      DivBelow(k % stride, sx, w);
    }
  }

  /** Destination row `row`, column `col` lies in the rectangle of sy rows, sx columns at (r0, c0). */
  predicate InRect(row: nat, col: nat, r0: nat, c0: nat, sx: nat, sy: nat) {
    r0 <= row < r0 + sy && c0 <= col < c0 + sx
  }

  /** The word of destination row `row`, column `col`. */
  function Index(row: nat, col: nat, stride: nat): nat {
    row * stride + col
  }

  /** Row r of the destination is the stretch of words from r * stride up to (r + 1) * stride. */
  lemma InRow(row: nat, col: nat, r: nat, stride: nat)
    requires col < stride
    ensures r * stride <= Index(row, col, stride) < r * stride + stride <==> row == r
  {
    assert (r + 1) * stride == r * stride + stride;
    assert (row + 1) * stride == row * stride + stride;
    if row < r {
      MulLe(row + 1, r, stride);
    } else if row > r {
      MulLe(r + 1, row, stride);
    }
  }

  /**
   * `after` is `before` with value `v` in the rectangle of sy rows and sx
   * columns at destination row r0, column c0, and nothing else changed.
   */
  ghost predicate BlockWritten(after: seq<u32>, before: seq<u32>, stride: nat, r0: nat, c0: nat, sx: nat, sy: nat, v: u32) {
    |after| == |before| &&
    forall row: nat, col: nat :: col < stride && Index(row, col, stride) < |after| ==>
      after[Index(row, col, stride)] == if InRect(row, col, r0, c0, sx, sy) then v else before[Index(row, col, stride)]
  }

  /**
   * The innermost loop of the conversion (bitmap.c:216-218): words c0 ..
   * c0 + sx - 1 of the row that starts at word rowStart receive `v`.
   */
  method WriteRowSpan(dest: array<u32>, rowStart: nat, c0: nat, sx: nat, v: u32)
    requires rowStart + c0 + sx <= dest.Length
    modifies dest
    ensures forall k :: 0 <= k < dest.Length ==>
      dest[k] == if rowStart + c0 <= k < rowStart + c0 + sx then v else old(dest[k])
  {
    var x := 0;
    while x < sx
      invariant 0 <= x <= sx
      invariant forall k :: 0 <= k < dest.Length ==>
        dest[k] == if rowStart + c0 <= k < rowStart + c0 + x then v else old(dest[k])
    {
      dest[rowStart + c0 + x] := v;
      x := x + 1;
    }
  }

  /**
   * The block write of one logical pixel (bitmap.c:214-219): each of the sy
   * rows from r0 on, addressed through the stride, gets `v` in its sx words
   * from column c0 on.
   */
  method ReplicateBlock(dest: array<u32>, stride: nat, r0: nat, c0: nat, sx: nat, sy: nat, v: u32)
    requires stride > 0 && c0 + sx <= stride && (r0 + sy) * stride <= dest.Length
    modifies dest
    ensures BlockWritten(dest[..], old(dest[..]), stride, r0, c0, sx, sy, v)
  {
    var y := 0;
    while y < sy
      invariant 0 <= y <= sy
      invariant forall row: nat, col: nat :: col < stride && Index(row, col, stride) < dest.Length ==>
        dest[Index(row, col, stride)] ==
          if InRect(row, col, r0, c0, sx, y) then v else old(dest[Index(row, col, stride)])
    {
      var rowStart := (r0 + y) * stride;
      MulLe(r0 + y + 1, r0 + sy, stride);
      assert (r0 + y + 1) * stride == rowStart + stride;
      ghost var rowBefore := dest[..];
      WriteRowSpan(dest, rowStart, c0, sx, v);
      ghost var next := y + 1;
      forall row: nat, col: nat | col < stride && Index(row, col, stride) < dest.Length
        ensures dest[Index(row, col, stride)] ==
          if InRect(row, col, r0, c0, sx, next) then v else old(dest[Index(row, col, stride)])
      {
        InRow(row, col, r0 + y, stride);
        assert dest[Index(row, col, stride)] ==
          if rowStart + c0 <= Index(row, col, stride) < rowStart + c0 + sx then v else rowBefore[Index(row, col, stride)];
      }
      y := y + 1;
    }
    assert BlockWritten(dest[..], old(dest[..]), stride, r0, c0, sx, sy, v);
  }

  /**
   * The destination words the conversion has written once the cells before
   * (i, j) in row-major order are done.
   */
  predicate Done(row: nat, col: nat, w: nat, h: nat, sx: nat, sy: nat, i: nat, j: nat) {
    row < h * sy && col < w * sx && (row < i * sy || (row < i * sy + sy && col < j * sx))
  }

  /** Doing cell (i, j) adds exactly its block, which lies in block row i and block column j. */
  lemma DoneCellStep(row: nat, col: nat, w: nat, h: nat, sx: nat, sy: nat, i: nat, j: nat)
    requires i < h && j < w
    ensures Done(row, col, w, h, sx, sy, i, j + 1) <==>
      Done(row, col, w, h, sx, sy, i, j) || InRect(row, col, i * sy, j * sx, sx, sy)
    ensures InRect(row, col, i * sy, j * sx, sx, sy) ==>
      !Done(row, col, w, h, sx, sy, i, j) && row / sy == i && col / sx == j
  {
    MulLe(i + 1, h, sy);
    MulLe(j + 1, w, sx);
    assert (i + 1) * sy == i * sy + sy && (j + 1) * sx == j * sx + sx;
    if InRect(row, col, i * sy, j * sx, sx, sy) {
      DivInBlock(row, sy, i);
      DivInBlock(col, sx, j);
    }
  }

  /** Finishing row i of cells is starting row i + 1. */
  lemma DoneRowStep(row: nat, col: nat, w: nat, h: nat, sx: nat, sy: nat, i: nat)
    ensures Done(row, col, w, h, sx, sy, i, w) <==> Done(row, col, w, h, sx, sy, i + 1, 0)
  {
    assert (i + 1) * sy == i * sy + sy;
  }

  /** The word at row `row`, column `col` is converted when Done, and untouched otherwise. */
  ghost predicate Converted(row: nat, col: nat, w: nat, h: nat, sx: nat, sy: nat, i: nat, j: nat, stride: nat,
                            dest: seq<u32>, before: seq<u32>, g: seq<seq<Color>>, pack: Color -> u32)
    requires IsGrid(g, w, h) && |dest| == |before|
  {
    Index(row, col, stride) < |dest| ==>
      dest[Index(row, col, stride)] ==
        if Done(row, col, w, h, sx, sy, i, j) then pack(BlockColor(g, w, h, sx, sy, row, col))
        else before[Index(row, col, stride)]
  }

  /** The conversion has done the cells before (i, j) in row-major order, and nothing else. */
  ghost predicate ConvertedUpTo(g: seq<seq<Color>>, w: nat, h: nat, sx: nat, sy: nat, stride: nat, pack: Color -> u32,
                                before: seq<u32>, dest: seq<u32>, i: nat, j: nat)
    requires IsGrid(g, w, h)
  {
    |dest| == |before| &&
    forall row: nat, col: nat :: col < stride ==> Converted(row, col, w, h, sx, sy, i, j, stride, dest, before, g, pack)
  }

  /** Writing the block of cell (i, j) extends the converted region from (i, j) to (i, j + 1). */
  lemma CellStep(g: seq<seq<Color>>, w: nat, h: nat, sx: nat, sy: nat, stride: nat, pack: Color -> u32,
                 before: seq<u32>, mid: seq<u32>, after: seq<u32>, i: nat, j: nat)
    requires IsGrid(g, w, h) && i < h && j < w
    requires ConvertedUpTo(g, w, h, sx, sy, stride, pack, before, mid, i, j)
    requires BlockWritten(after, mid, stride, i * sy, j * sx, sx, sy, pack(g[i][j]))
    ensures ConvertedUpTo(g, w, h, sx, sy, stride, pack, before, after, i, j + 1)
  {
    ghost var next := j + 1;
    forall row: nat, col: nat | col < stride
      ensures Converted(row, col, w, h, sx, sy, i, next, stride, after, before, g, pack)
    {
      DoneCellStep(row, col, w, h, sx, sy, i, j);
      assert Converted(row, col, w, h, sx, sy, i, j, stride, mid, before, g, pack);
      if Index(row, col, stride) < |after| {
        assert after[Index(row, col, stride)] ==
          if InRect(row, col, i * sy, j * sx, sx, sy) then pack(g[i][j]) else mid[Index(row, col, stride)];
      }
    }
  }

  /** The region converted after the last cell of row i is the region before the first cell of row i + 1. */
  lemma RowStep(g: seq<seq<Color>>, w: nat, h: nat, sx: nat, sy: nat, stride: nat, pack: Color -> u32,
                before: seq<u32>, dest: seq<u32>, i: nat)
    requires IsGrid(g, w, h)
    requires ConvertedUpTo(g, w, h, sx, sy, stride, pack, before, dest, i, w)
    ensures ConvertedUpTo(g, w, h, sx, sy, stride, pack, before, dest, i + 1, 0)
  {
    ghost var next := i + 1;
    forall row: nat, col: nat | col < stride
      ensures Converted(row, col, w, h, sx, sy, next, 0, stride, dest, before, g, pack)
    {
      DoneRowStep(row, col, w, h, sx, sy, i);
      assert Converted(row, col, w, h, sx, sy, i, w, stride, dest, before, g, pack);
    }
  }

  /** Word k after the whole conversion is word k of Expanded. */
  lemma ConvertedWord(g: seq<seq<Color>>, w: nat, h: nat, sx: nat, sy: nat, stride: nat, pack: Color -> u32,
                      before: seq<u32>, dest: seq<u32>, k: nat)
    requires IsGrid(g, w, h) && stride > 0 && k < |dest|
    requires ConvertedUpTo(g, w, h, sx, sy, stride, pack, before, dest, h, 0)
    ensures dest[k] == ExpandedWord(g, w, h, sx, sy, pack, k / stride, k % stride, before[k])
  {
    var row, col := k / stride, k % stride;
    assert k == Index(row, col, stride);
    assert Converted(row, col, w, h, sx, sy, h, 0, stride, dest, before, g, pack);
  }

  /** Once every row of cells is converted, the destination is Expanded of the grid. */
  lemma AllConverted(g: seq<seq<Color>>, w: nat, h: nat, sx: nat, sy: nat, stride: nat, pack: Color -> u32,
                     before: seq<u32>, dest: seq<u32>)
    requires IsGrid(g, w, h) && stride > 0
    requires ConvertedUpTo(g, w, h, sx, sy, stride, pack, before, dest, h, 0)
    ensures dest == Expanded(g, w, h, sx, sy, stride, pack, before)
  {
    forall k | 0 <= k < |dest|
      ensures dest[k] == Expanded(g, w, h, sx, sy, stride, pack, before)[k]
    {
      ConvertedWord(g, w, h, sx, sy, stride, pack, before, dest, k);
    }
  }

  /**
   * The sequential branch of draw_pixel_buffer: each cell of `src` is packed
   * once and replicated into its block; the result is Expanded of the grid.
   */
  method ConvertSequential(src: array2<Color>, dest: array<u32>, stride: nat, sx: nat, sy: nat, pack: Color -> u32)
    requires stride > 0 && src.Length1 * sx <= stride && src.Length0 * sy * stride <= dest.Length
    modifies dest
    ensures dest[..] == Expanded(GridOf(src), src.Length1, src.Length0, sx, sy, stride, pack, old(dest[..]))
  {
    ghost var g := GridOf(src);
    ghost var before := dest[..];
    var w, h := src.Length1, src.Length0;
    var i := 0;
    while i < h
      invariant 0 <= i <= h
      invariant ConvertedUpTo(g, w, h, sx, sy, stride, pack, before, dest[..], i, 0)
    {
      MulLe(i + 1, h, sy);
      assert (i + 1) * sy == i * sy + sy;
      MulLe(i * sy + sy, h * sy, stride);
      var j := 0;
      while j < w
        invariant 0 <= j <= w
        invariant ConvertedUpTo(g, w, h, sx, sy, stride, pack, before, dest[..], i, j)
      {
        MulLe(j + 1, w, sx);
        assert (j + 1) * sx == j * sx + sx;
        var color := pack(src[i, j]);
        ghost var mid := dest[..];
        ReplicateBlock(dest, stride, i * sy, j * sx, sx, sy, color);
        CellStep(g, w, h, sx, sy, stride, pack, before, mid, dest[..], i, j);
        j := j + 1;
      }
      RowStep(g, w, h, sx, sy, stride, pack, before, dest[..], i);
      i := i + 1;
    }
    AllConverted(g, w, h, sx, sy, stride, pack, before, dest[..]);
  }
}
