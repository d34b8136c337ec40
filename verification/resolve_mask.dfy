/** The decision logic of `resolveMask` in resolve_mask.cpp: the hole-fill
    combine of the morphology masks, the contour sanity filter, the choice
    between the auto path and the hull path, and the center of the
    region to fill (or the sentinel (-1, -1)).

    The OpenCV calls that produce the inputs (findContours, contourArea,
    boundingRect, Canny, morphologyEx) are not modelled: their results are
    parameters, and the edge rasters are named by the path that made them. */
module ResolveMask {
  import opened Raster
  import opened KeyPoints

  // ---------------------------------------------------------------------
  // Combine: the morphology mask OR the hole-filled mask, rethresholded.

  /** C++ `a | b` on two 8-bit pixels. */
  function Or(a: byte, b: byte): byte
  {
    ((a as bv8) | (b as bv8)) as byte
  }

  /** `cv::threshold(src, dst, 10, 255, THRESH_BINARY)` on one pixel. */
  function Threshold(v: byte): (r: byte)
    ensures r == 0 || r == 255
    ensures r == 255 <==> v > 10
  {
    if v > 10 then 255 else 0
  }

  /** A pixel of fixDirtyContours' result: the raster starts as all ones and
      every hole contour (a contour with a parent) is filled with 255. */
  function FixedPixel(hole: bool): byte
  {
    if hole then 255 else 1
  }

  /** One pixel of the combined mask. A pixel ends up set exactly when it
      lies in a filled hole or its morphology value is at least 10 (10 | 1
      is 11, above the threshold); untouched background 0 becomes 0 and the
      clean foreground value 253 becomes 255. */
  lemma CombinePixel(m: byte, hole: bool)
    ensures Threshold(Or(m, FixedPixel(hole))) == 255 <==> hole || m >= 10
    ensures !hole && m == 0 ==> Threshold(Or(m, FixedPixel(hole))) == 0
    ensures m == 253 ==> Threshold(Or(m, FixedPixel(hole))) == 255
  {
    var b := m as bv8;
    if hole {
      assert b | 255 == 255;
    } else {
      assert (b | 1) > 10 <==> b >= 10;
    }
  }

  /** fixDirtyContours: all ones, 255 where `holes` is set. */
  function FixedMask(holes: seq<seq<bool>>): (f: Grid)
    ensures |f| == |holes| && forall y :: 0 <= y < |f| ==> |f[y]| == |holes[y]|
    ensures forall y, x :: 0 <= y < |holes| && 0 <= x < |holes[y]| ==>
      f[y][x] == FixedPixel(holes[y][x])
  {
    seq(|holes|, y requires 0 <= y < |holes| =>
      seq(|holes[y]|, x requires 0 <= x < |holes[y]| => FixedPixel(holes[y][x])))
  }

  /** `morph | fixed` followed by the >10 -> 255 threshold, pixel by pixel. */
  function CombineMasks(morph: Grid, fixed: Grid): (c: Grid)
    requires |morph| == |fixed| && forall y :: 0 <= y < |morph| ==> |morph[y]| == |fixed[y]|
    ensures |c| == |morph| && forall y :: 0 <= y < |c| ==> |c[y]| == |morph[y]|
    ensures forall y, x :: 0 <= y < |c| && 0 <= x < |c[y]| ==> c[y][x] == 0 || c[y][x] == 255
  {
    seq(|morph|, y requires 0 <= y < |morph| =>
      seq(|morph[y]|, x requires 0 <= x < |morph[y]| => Threshold(Or(morph[y][x], fixed[y][x]))))
  }

  /** The combined mask is binary, and set exactly on the filled holes and
      the pixels whose morphology value is at least 10. */
  lemma CombinedMask(morph: Grid, holes: seq<seq<bool>>)
    requires |morph| == |holes| && forall y :: 0 <= y < |morph| ==> |morph[y]| == |holes[y]|
    ensures var c := CombineMasks(morph, FixedMask(holes));
      forall y, x :: 0 <= y < |morph| && 0 <= x < |morph[y]| ==>
        (c[y][x] == 0 || c[y][x] == 255) && (c[y][x] == 255 <==> holes[y][x] || morph[y][x] >= 10)
  {
    var c := CombineMasks(morph, FixedMask(holes));
    forall y, x | 0 <= y < |morph| && 0 <= x < |morph[y]|
      ensures c[y][x] == 255 <==> holes[y][x] || morph[y][x] >= 10
    {
      CombinePixel(morph[y][x], holes[y][x]);
    }
  }

  // ---------------------------------------------------------------------
  // Sanity filter.

  const CLEAN_CUT_THRESHOLD: real := 1.0

  /** A `cv::Rect`: top-left corner and non-negative size. */
  datatype Rect = Rect(x: int, y: int, width: nat, height: nat)

  /** A contour of the clean mask, with its contourArea and boundingRect. */
  datatype Candidate = Candidate(points: seq<Point>, area: real, box: Rect)

  /** The contour survives the sanity filter: area above the threshold and
      a box neither as tall nor as wide as the raster. */
  predicate Accepted(c: Candidate, rows: int, cols: int)
  {
    c.area > CLEAN_CUT_THRESHOLD && !(c.box.height - rows == 0 || c.box.width - cols == 0)
  }

  /** The accepted contours, in their original order. */
  function CleanOf(cands: seq<Candidate>, rows: int, cols: int): (clean: seq<Candidate>)
    ensures |clean| <= |cands|
    decreases |cands|
  {
    if cands == [] then []
    else
      var init := CleanOf(cands[..|cands| - 1], rows, cols);
      var c := cands[|cands| - 1];
      if Accepted(c, rows, cols) then init + [c] else init
  }

  /** A contour is kept iff it is one of the candidates and passes the
      filter. */
  lemma {:induction false} CleanOfMembers(cands: seq<Candidate>, rows: int, cols: int)
    ensures forall c :: c in CleanOf(cands, rows, cols) <==> c in cands && Accepted(c, rows, cols)
    decreases |cands|
  {
    if cands != [] {
      var init := cands[..|cands| - 1];
      CleanOfMembers(init, rows, cols);
      assert cands == init + [cands[|cands| - 1]];
    }
  }

  /** Exactly one candidate index passes the filter. */
  predicate ExactlyOneAccepted(cands: seq<Candidate>, rows: int, cols: int)
  {
    exists i :: 0 <= i < |cands| && Accepted(cands[i], rows, cols) &&
      forall j :: 0 <= j < |cands| && j != i ==> !Accepted(cands[j], rows, cols)
  }

  lemma {:induction false} NoneAccepted(cands: seq<Candidate>, rows: int, cols: int)
    requires forall j :: 0 <= j < |cands| ==> !Accepted(cands[j], rows, cols)
    ensures CleanOf(cands, rows, cols) == []
    decreases |cands|
  {
    if cands != [] {
      var init := cands[..|cands| - 1];
      assert forall j :: 0 <= j < |init| ==> init[j] == cands[j];
      NoneAccepted(init, rows, cols);
    }
  }

  lemma {:induction false} OneAcceptedKeepsOne(cands: seq<Candidate>, rows: int, cols: int)
    requires ExactlyOneAccepted(cands, rows, cols)
    ensures |CleanOf(cands, rows, cols)| == 1
    decreases |cands|
  {
    var init, c := cands[..|cands| - 1], cands[|cands| - 1];
    var n := |cands| - 1;
    var i :| 0 <= i < |cands| && Accepted(cands[i], rows, cols) &&
      forall j :: 0 <= j < |cands| && j != i ==> !Accepted(cands[j], rows, cols);
    if i == n {
      assert forall j :: 0 <= j < |init| ==> init[j] == cands[j];
      NoneAccepted(init, rows, cols);
    } else {
      assert !Accepted(c, rows, cols);
      assert init[i] == cands[i];
      assert forall j :: 0 <= j < |init| && j != i ==> !Accepted(init[j], rows, cols) by {
        forall j | 0 <= j < |init| && j != i
          ensures !Accepted(init[j], rows, cols)
        {
          assert init[j] == cands[j];
        }
      }
      OneAcceptedKeepsOne(init, rows, cols);
    }
  }

  lemma {:induction false} KeptOneIsOneAccepted(cands: seq<Candidate>, rows: int, cols: int)
    requires |CleanOf(cands, rows, cols)| == 1
    ensures ExactlyOneAccepted(cands, rows, cols)
    decreases |cands|
  {
    var init, c := cands[..|cands| - 1], cands[|cands| - 1];
    var n := |cands| - 1;
    if Accepted(c, rows, cols) {
      CleanOfMembers(init, rows, cols);
      assert forall j :: 0 <= j < |cands| && j != n ==> !Accepted(cands[j], rows, cols) by {
        forall j | 0 <= j < |cands| && j != n
          ensures !Accepted(cands[j], rows, cols)
        {
          assert cands[j] == init[j];
          assert cands[j] in init;
        }
      }
    } else {
      KeptOneIsOneAccepted(init, rows, cols);
      var i :| 0 <= i < |init| && Accepted(init[i], rows, cols) &&
        forall j :: 0 <= j < |init| && j != i ==> !Accepted(init[j], rows, cols);
      assert cands[i] == init[i];
      assert forall j :: 0 <= j < |cands| && j != i ==> !Accepted(cands[j], rows, cols) by {
        forall j | 0 <= j < |cands| && j != i
          ensures !Accepted(cands[j], rows, cols)
        {
          if j < n {
            assert cands[j] == init[j];
          }
        }
      }
    }
  }

  /** The filter keeps exactly one contour iff exactly one candidate is
      accepted. */
  lemma OneCleanIff(cands: seq<Candidate>, rows: int, cols: int)
    ensures |CleanOf(cands, rows, cols)| == 1 <==> ExactlyOneAccepted(cands, rows, cols)
  {
    if ExactlyOneAccepted(cands, rows, cols) {
      OneAcceptedKeepsOne(cands, rows, cols);
    }
    if |CleanOf(cands, rows, cols)| == 1 {
      KeptOneIsOneAccepted(cands, rows, cols);
    }
  }

  // ---------------------------------------------------------------------
  // Boxes and centers.

  /** The center used on both paths: `(x + width / 2, y + height / 2)`,
      with C++ integer division (sizes are never negative, so truncation
      and Dafny's division agree). */
  function Center(b: Rect): (c: Point)
    ensures 2 * (c.x - b.x) <= b.width <= 2 * (c.x - b.x) + 1
    ensures 2 * (c.y - b.y) <= b.height <= 2 * (c.y - b.y) + 1
    ensures b.width > 0 && b.height > 0 ==>
      b.x <= c.x < b.x + b.width && b.y <= c.y < b.y + b.height
  {
    Point(b.x + b.width / 2, b.y + b.height / 2)
  }

  function MinOf(xs: seq<int>): (m: int)
    requires xs != []
    ensures m in xs && forall v :: v in xs ==> m <= v
    decreases |xs|
  {
    if |xs| == 1 then xs[0]
    else
      var rest := MinOf(xs[1..]);
      assert forall v :: v in xs ==> v == xs[0] || v in xs[1..];
      if xs[0] <= rest then xs[0] else rest
  }

  function MaxOf(xs: seq<int>): (m: int)
    requires xs != []
    ensures m in xs && forall v :: v in xs ==> v <= m
    decreases |xs|
  {
    if |xs| == 1 then xs[0]
    else
      var rest := MaxOf(xs[1..]);
      assert forall v :: v in xs ==> v == xs[0] || v in xs[1..];
      if rest <= xs[0] then xs[0] else rest
  }

  function Xs(pts: seq<Point>): (xs: seq<int>)
    ensures |xs| == |pts| && forall i :: 0 <= i < |pts| ==> xs[i] == pts[i].x
  {
    seq(|pts|, i requires 0 <= i < |pts| => pts[i].x)
  }

  function Ys(pts: seq<Point>): (ys: seq<int>)
    ensures |ys| == |pts| && forall i :: 0 <= i < |pts| ==> ys[i] == pts[i].y
  {
    seq(|pts|, i requires 0 <= i < |pts| => pts[i].y)
  }

  /** boundingRect(convexHull(pts)): the smallest pixel box holding every
      point (the hull has the same extreme points as `pts`). */
  function HullBox(pts: seq<Point>): (b: Rect)
    requires pts != []
    ensures forall p :: p in pts ==> b.x <= p.x < b.x + b.width && b.y <= p.y < b.y + b.height
    ensures exists p :: p in pts && p.x == b.x
    ensures exists p :: p in pts && p.x == b.x + b.width - 1
    ensures exists p :: p in pts && p.y == b.y
    ensures exists p :: p in pts && p.y == b.y + b.height - 1
  {
    var xs, ys := Xs(pts), Ys(pts);
    var x0, x1, y0, y1 := MinOf(xs), MaxOf(xs), MinOf(ys), MaxOf(ys);
    assert forall p :: p in pts ==> p.x in xs && p.y in ys by {
      forall p | p in pts ensures p.x in xs && p.y in ys {
        var i :| 0 <= i < |pts| && pts[i] == p;
        assert xs[i] == p.x && ys[i] == p.y;
      }
    }
    var i0 :| 0 <= i0 < |xs| && xs[i0] == x0;
    var i1 :| 0 <= i1 < |xs| && xs[i1] == x1;
    var j0 :| 0 <= j0 < |ys| && ys[j0] == y0;
    var j1 :| 0 <= j1 < |ys| && ys[j1] == y1;
    assert pts[i0] in pts && pts[i1] in pts && pts[j0] in pts && pts[j1] in pts;
    Rect(x0, y0, x1 - x0 + 1, y1 - y0 + 1)
  }

  // ---------------------------------------------------------------------
  // The resolve decision.

  /** The edge raster returned, named by how it was made. */
  datatype Edges =
    | ClosedCleanEdges                        // Canny of the clean mask, closed 7x7, 2x2, dilated 3x3
    | DirtyEdges                              // the clone of the dirty mask's Canny edges
    | HullClosedDirtyEdges(hull: seq<Point>)  // DirtyEdges with the hull of `hull` drawn, closed 6x6

  datatype Resolved = Resolved(edges: Edges, center: Point)

  const SENTINEL := Point(-1, -1)

  /** The result of resolveMask for the sanity contours `cands` of a
      `rows` x `cols` clean mask and the contours `edgeContours` found in the
      clean Canny edges. */
  function Resolve(cands: seq<Candidate>, rows: int, cols: int, edgeContours: seq<seq<Point>>): Resolved
  {
    var clean := CleanOf(cands, rows, cols);
    if |clean| == 1 then
      Resolved(ClosedCleanEdges, Center(clean[0].box))
    else
      var simplified := Simplify(edgeContours);
      if simplified == [] then Resolved(DirtyEdges, SENTINEL)
      else Resolved(HullClosedDirtyEdges(simplified), Center(HullBox(simplified)))
  }

  /** resolveMask from the sanity loop on: the loop appends the accepted
      contours to `cleanContours`, then the path is chosen. */
  method ResolveMask(cands: seq<Candidate>, rows: int, cols: int, edgeContours: seq<seq<Point>>)
    returns (r: Resolved)
    ensures r == Resolve(cands, rows, cols, edgeContours)
  {
    var cleanContours: seq<Candidate> := [];
    var i := 0;
    while i < |cands|
      invariant 0 <= i <= |cands|
      invariant cleanContours == CleanOf(cands[..i], rows, cols)
    {
      var cnt := cands[i];
      var invalid := cnt.box.height - rows == 0 || cnt.box.width - cols == 0;
      if cnt.area > CLEAN_CUT_THRESHOLD && !invalid {
        cleanContours := cleanContours + [cnt];
      }
      assert cands[..i + 1][..i] == cands[..i];
      i := i + 1;
    }
    assert cands[..i] == cands;
    if |cleanContours| == 1 {
      var bbox := cleanContours[0].box;
      return Resolved(ClosedCleanEdges, Center(bbox));
    }
    var simplified := ExtractKeyContourPoints(edgeContours);
    if simplified == [] {
      return Resolved(DirtyEdges, SENTINEL);
    }
    var bbox := HullBox(simplified);
    return Resolved(HullClosedDirtyEdges(simplified), Center(bbox));
  }

  /** The auto path is taken iff exactly one sanity contour is accepted;
      the sentinel is returned, with the dirty edges, iff it is not and no
      key point survives. */
  lemma PathChoice(cands: seq<Candidate>, rows: int, cols: int, edgeContours: seq<seq<Point>>)
    ensures Resolve(cands, rows, cols, edgeContours).edges == ClosedCleanEdges <==>
      ExactlyOneAccepted(cands, rows, cols)
    ensures Resolve(cands, rows, cols, edgeContours) == Resolved(DirtyEdges, SENTINEL) <==>
      !ExactlyOneAccepted(cands, rows, cols) && Simplify(edgeContours) == []
  {
    OneCleanIff(cands, rows, cols);
  }

  /** A box of at least one pixel lying inside the raster. */
  predicate BoxInRaster(b: Rect, rows: int, cols: int)
  {
    0 <= b.x && 0 < b.width && b.x + b.width <= cols &&
    0 <= b.y && 0 < b.height && b.y + b.height <= rows
  }

  /** When every sanity box and every edge point lies inside the raster,
      the center lies inside the raster on both real paths, and it lies
      outside exactly when the sentinel path is taken. */
  lemma CenterInRaster(cands: seq<Candidate>, rows: int, cols: int, edgeContours: seq<seq<Point>>)
    requires forall c :: c in cands ==> BoxInRaster(c.box, rows, cols)
    requires forall cnt, p :: cnt in edgeContours && p in cnt ==> InSize(p, rows, cols)
    ensures var r := Resolve(cands, rows, cols, edgeContours);
      r.edges != DirtyEdges <==> InSize(r.center, rows, cols)
  {
    var clean := CleanOf(cands, rows, cols);
    CleanOfMembers(cands, rows, cols);
    if |clean| == 1 {
      assert clean[0] in cands;
    } else {
      var simplified := Simplify(edgeContours);
      if simplified != [] {
        KeyPointsArePairStarts(edgeContours);
        assert forall k :: k in simplified ==> InSize(k, rows, cols) by {
          forall k | k in simplified
            ensures InSize(k, rows, cols)
          {
            var j, i :| 0 <= j < |edgeContours| && 0 <= i && i + 1 < |edgeContours[j]| && edgeContours[j][i] == k;
            assert edgeContours[j] in edgeContours && k in edgeContours[j];
          }
        }
        var b := HullBox(simplified);
        assert BoxInRaster(b, rows, cols);
      }
    }
  }
}
