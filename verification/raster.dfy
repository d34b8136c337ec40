/** Shared data model of the mask pipeline: 8-bit pixels, integer points,
    single-channel rasters (as arrays that are updated in place and as
    values), and 4-channel BGRA pixels. */
module Raster {

  /** An 8-bit unsigned pixel value (OpenCV's `uchar`). */
  newtype byte = x: int | 0 <= x < 256

  /** The value the flood fill treats as a wall and writes as "filled". */
  const WHITE: byte := 255

  /** An integer pixel coordinate, `x` the column and `y` the row. */
  datatype Point = Point(x: int, y: int)

  /** A single-channel raster as a value: a sequence of rows. */
  type Grid = seq<seq<byte>>

  /** A BGRA pixel (OpenCV's `Vec4b`). */
  datatype Bgra = Bgra(b: byte, g: byte, r: byte, a: byte)

  const OPAQUE_WHITE: Bgra := Bgra(255, 255, 255, 255)

  /** `g` is a `rows` x `cols` rectangle. */
  predicate IsGrid(g: Grid, rows: int, cols: int)
  {
    |g| == rows && forall y :: 0 <= y < |g| ==> |g[y]| == cols
  }

  /** `p` addresses a pixel of `g`. */
  predicate InGrid(g: Grid, p: Point)
  {
    0 <= p.y < |g| && 0 <= p.x < |g[p.y]|
  }

  /** `p` addresses a pixel of a `rows` x `cols` raster. */
  predicate InSize(p: Point, rows: int, cols: int)
  {
    0 <= p.y < rows && 0 <= p.x < cols
  }

  /** `p` addresses a pixel of the array `a` (`a[p.y, p.x]`). */
  predicate InArray(a: array2<byte>, p: Point)
  {
    0 <= p.y < a.Length0 && 0 <= p.x < a.Length1
  }

  /** The current contents of `a` as a value. */
  function Snapshot(a: array2<byte>): (g: Grid)
    reads a
    ensures IsGrid(g, a.Length0, a.Length1)
    ensures forall y, x :: 0 <= y < a.Length0 && 0 <= x < a.Length1 ==> g[y][x] == a[y, x]
  {
    seq(a.Length0, y requires 0 <= y < a.Length0 reads a =>
      seq(a.Length1, x requires 0 <= x < a.Length1 reads a => a[y, x]))
  }

  /** Two grids of the same shape with the same pixels are equal. */
  lemma {:induction false} GridExtensionality(g: Grid, h: Grid, rows: nat, cols: nat)
    requires IsGrid(g, rows, cols) && IsGrid(h, rows, cols)
    requires forall y, x :: 0 <= y < rows && 0 <= x < cols ==> g[y][x] == h[y][x]
    ensures g == h
  {
    forall y | 0 <= y < rows
      ensures g[y] == h[y]
    {
      assert forall x :: 0 <= x < cols ==> g[y][x] == h[y][x];
    }
  }
}
