/** The post-fill steps of `run_image_tool` in lib.cpp: the fill from the
    resolved center on a clone of the edge raster, the seed mark, the exit
    when the filled raster has no contour, the choice of the largest
    contour, and the compositing loop over the BGRA output.

    findContours and contourArea are parameters; the outline mask, its
    inverse and the blurred image that the compositing loop reads are
    given as arrays. */
module ImageTool {
  import opened Raster
  import opened FloodFill
  import opened KeyPoints
  import opened ResolveMask

  /** The value written at the seed after the fill. */
  const SEED_MARK: byte := 200

  /** The raster `c4` after the fill from `seed` over the edge raster `g`
      and the seed mark: 200 at the seed, 255 on the rest of the seed's
      component, 0 elsewhere. */
  ghost function MarkedFill(g: Grid, seed: Point, rows: nat, cols: nat): (m: Grid)
    ensures IsGrid(m, rows, cols)
  {
    seq(rows, y requires 0 <= y < rows =>
      seq(cols, x requires 0 <= x < cols =>
        if Point(x, y) == seed then SEED_MARK
        else if InComponent(g, seed, Point(x, y)) then WHITE
        else 0))
  }

  /** `canny.clone()`. */
  method Clone(a: array2<byte>) returns (c: array2<byte>)
    ensures fresh(c)
    ensures c.Length0 == a.Length0 && c.Length1 == a.Length1
    ensures forall y, x :: 0 <= y < a.Length0 && 0 <= x < a.Length1 ==> c[y, x] == a[y, x]
  {
    c := new byte[a.Length0, a.Length1]((y, x) reads a =>
      if 0 <= y < a.Length0 && 0 <= x < a.Length1 then a[y, x] else 0);
  }

  /** The fill as lib.cpp calls it: on a clone `c2` of `canny`, into a zero
      raster `c4`, from the center (cx, cy), then the seed mark. The center
      is used as it comes, so it has to address a pixel of `canny`. */
  method FillFromCenter(canny: array2<byte>, cx: int, cy: int) returns (c2: array2<byte>, c4: array2<byte>)
    requires InArray(canny, Point(cx, cy))
    ensures fresh(c2) && fresh(c4)
    ensures Snapshot(c4) == MarkedFill(Snapshot(canny), Point(cx, cy), canny.Length0, canny.Length1)
    ensures c2.Length0 == canny.Length0 && c2.Length1 == canny.Length1
    ensures forall y, x :: 0 <= y < canny.Length0 && 0 <= x < canny.Length1 ==>
      c2[y, x] == if InComponent(Snapshot(canny), Point(cx, cy), Point(x, y)) then WHITE else canny[y, x]
  {
    ghost var g := Snapshot(canny);
    c2 := Clone(canny);
    GridExtensionality(Snapshot(c2), g, canny.Length0, canny.Length1);
    c4 := new byte[c2.Length0, c2.Length1]((y, x) => 0);
    c4 := FloodFillDfs(c2, c4, cx, cy);
    c4[cy, cx] := SEED_MARK;
    GridExtensionality(Snapshot(c4), MarkedFill(g, Point(cx, cy), canny.Length0, canny.Length1),
      canny.Length0, canny.Length1);
  }

  /** `k` is where std::max_element stops with the comparator
      `area(a) < area(b)`: a contour of maximal area, the first one when
      several tie. */
  predicate IsFirstLargest(cs: seq<seq<Point>>, area: seq<Point> -> real, k: int)
  {
    0 <= k < |cs| &&
    (forall j :: 0 <= j < |cs| ==> area(cs[j]) <= area(cs[k])) &&
    (forall j :: 0 <= j < k ==> area(cs[j]) < area(cs[k]))
  }

  /** At most one index is the first largest. */
  lemma FirstLargestUnique(cs: seq<seq<Point>>, area: seq<Point> -> real, k1: int, k2: int)
    requires IsFirstLargest(cs, area, k1) && IsFirstLargest(cs, area, k2)
    ensures k1 == k2
  {
    assert area(cs[k2]) <= area(cs[k1]) && area(cs[k1]) <= area(cs[k2]);
  }

  /** std::max_element: keep the current best and replace it only by a
      strictly larger one. */
  method BigContour(cs: seq<seq<Point>>, area: seq<Point> -> real) returns (k: int)
    requires cs != []
    ensures IsFirstLargest(cs, area, k)
  {
    k := 0;
    var i := 1;
    while i < |cs|
      invariant 1 <= i <= |cs|
      invariant 0 <= k < i
      invariant forall j :: 0 <= j < i ==> area(cs[j]) <= area(cs[k])
      invariant forall j :: 0 <= j < k ==> area(cs[j]) < area(cs[k])
    {
      if area(cs[k]) < area(cs[i]) {
        k := i;
      }
      i := i + 1;
    }
  }

  /** The status `run_image_tool` ends with and the contour it draws. */
  datatype Outcome = Failed | Selected(big: seq<Point>)

  /** run_image_tool from the fill to the choice of the contour, with the
      center checked before the fill: a center outside the raster (the
      sentinel (-1, -1)) fails like an empty contour list does. */
  method RunImageTool(canny: array2<byte>, mid: Point,
                      findContours: Grid -> seq<seq<Point>>, area: seq<Point> -> real)
    returns (outcome: Outcome)
    ensures !InArray(canny, mid) ==> outcome == Failed
    ensures InArray(canny, mid) ==>
      var cs := findContours(MarkedFill(Snapshot(canny), mid, canny.Length0, canny.Length1));
      (outcome == Failed <==> cs == []) &&
      (outcome.Selected? ==> exists k :: IsFirstLargest(cs, area, k) && outcome.big == cs[k])
  {
    if !InArray(canny, mid) {
      return Failed;
    }
    var c2, c4 := FillFromCenter(canny, mid.x, mid.y);
    var contours := findContours(Snapshot(c4));
    if contours == [] {
      return Failed;
    }
    var k := BigContour(contours, area);
    return Selected(contours[k]);
  }

  /** The lib.cpp caller passes resolveMask's center on unchecked. When no
      sanity contour is accepted alone and no key point survives, that
      center is the sentinel, which addresses no pixel of any raster: the
      fill's seed precondition fails. A blank image (no sanity contour, no
      edge contour) is such an input. */
  lemma SentinelCenterMissesRaster(cands: seq<Candidate>, rows: int, cols: int,
                                   edgeContours: seq<seq<Point>>, canny: array2<byte>)
    requires !ExactlyOneAccepted(cands, rows, cols) && Simplify(edgeContours) == []
    ensures Resolve(cands, rows, cols, edgeContours).center == SENTINEL
    ensures !InArray(canny, Resolve(cands, rows, cols, edgeContours).center)
  {
    PathChoice(cands, rows, cols, edgeContours);
  }

  /** The blank-image instance of the sentinel. */
  lemma BlankImageGivesSentinel(rows: int, cols: int, canny: array2<byte>)
    ensures Resolve([], rows, cols, []) == Resolved(DirtyEdges, SENTINEL)
    ensures !InArray(canny, Resolve([], rows, cols, []).center)
  {
  }

  // ---------------------------------------------------------------------
  // Compositing.

  const TRANSPARENT_BLACK: Bgra := Bgra(0, 0, 0, 0)

  /** One output pixel: the inverted mask where the outline mask is exactly
      opaque white, the blurred image everywhere else. */
  function CompositePixel(mask: Bgra, imask: Bgra, blurred: Bgra): Bgra
  {
    if mask == OPAQUE_WHITE then imask else blurred
  }

  /** `cv::bitwise_not` on one BGRA pixel. */
  function Not(p: Bgra): (q: Bgra)
    ensures q == TRANSPARENT_BLACK <==> p == OPAQUE_WHITE
  {
    Bgra(255 - p.b, 255 - p.g, 255 - p.r, 255 - p.a)
  }

  /** With `imask` the inverse of `mask`, the outline becomes transparent
      black and every other pixel is the blurred one. */
  lemma OutlineBecomesTransparent(mask: Bgra, blurred: Bgra)
    ensures CompositePixel(mask, Not(mask), blurred) ==
      if mask == OPAQUE_WHITE then TRANSPARENT_BLACK else blurred
  {
  }

  /** The compositing loop: every pixel of a fresh zero output is written
      once, from `imask` or from `blurred` according to `mask`. */
  method Composite(mask: array2<Bgra>, imask: array2<Bgra>, blurred: array2<Bgra>)
    returns (output: array2<Bgra>)
    requires imask.Length0 == mask.Length0 && imask.Length1 == mask.Length1
    requires blurred.Length0 == mask.Length0 && blurred.Length1 == mask.Length1
    ensures fresh(output)
    ensures output.Length0 == mask.Length0 && output.Length1 == mask.Length1
    ensures forall y, x :: 0 <= y < mask.Length0 && 0 <= x < mask.Length1 ==>
      output[y, x] == CompositePixel(mask[y, x], imask[y, x], blurred[y, x])
  {
    output := new Bgra[mask.Length0, mask.Length1]((y, x) => TRANSPARENT_BLACK);
    var y := 0;
    while y < output.Length0
      invariant 0 <= y <= output.Length0
      invariant forall yy, x :: 0 <= yy < y && 0 <= x < output.Length1 ==>
        output[yy, x] == CompositePixel(mask[yy, x], imask[yy, x], blurred[yy, x])
    {
      var x := 0;
      while x < output.Length1
        invariant 0 <= x <= output.Length1
        invariant forall yy, xx :: 0 <= yy < y && 0 <= xx < output.Length1 ==>
          output[yy, xx] == CompositePixel(mask[yy, xx], imask[yy, xx], blurred[yy, xx])
        invariant forall xx :: 0 <= xx < x ==>
          output[y, xx] == CompositePixel(mask[y, xx], imask[y, xx], blurred[y, xx])
      {
        if mask[y, x] == OPAQUE_WHITE {
          output[y, x] := imask[y, x];
        } else {
          output[y, x] := blurred[y, x];
        }
        x := x + 1;
      }
      y := y + 1;
    }
  }
}
