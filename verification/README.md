# Product mask tool: fill, key-point and mask-resolution logic

This project models the sequential logic inside an OpenCV-based tool. The
tool cuts a product out of a photo. `resolveMask` turns the photo into an
edge raster and a center point. `floodFillDFS` fills the region around that
center. `run_image_tool` then picks the largest contour of the filled region
and composites the final BGRA image.

The model is split into these modules:

- `Raster` holds the shared data model. It has 8-bit pixels (`byte`),
  integer points, single-channel rasters as `array2<byte>` (updated in place)
  or as `seq<seq<byte>>` values, and BGRA pixels.
- `FloodFill` models `floodFillDFS`. It is an explicit-stack 4-neighbour fill
  that updates `img` and `res` in place. The method is proved against a
  reachability definition of the seed's component in the original `img`:
  - every pixel of that component becomes 255 in both rasters;
  - every other pixel keeps its value;
  - the returned raster is `res` itself.

  The loop terminates because each mark removes one non-255 pixel of `img`,
  and a skipped pop shortens the stack.
- `KeyPoints` models `extractKeyContourPoints`. The nested loops update
  `keyPoints` and the run buffer `tmp`. They are proved equal to a walk over
  consecutive point pairs, and the walk's properties are proved as lemmas:
  - key points are pair starts, kept in order;
  - the run buffer stays below six points;
  - the run carries across contour boundaries;
  - the straightness test accepts collinear runs.
- `ResolveMask` models the decision logic of `resolveMask`:
  - the OR + threshold combine of the morphology mask with the hole-filled
    mask;
  - the sanity filter, and the choice of the auto path iff exactly one
    contour survives;
  - the center formula, and the sentinel (-1, -1).
- `ImageTool` models the steps of `run_image_tool` after `resolveMask`:
  - the fill on a clone of the edge raster, followed by the seed mark 200;
  - the exit when the filled raster has no contour;
  - the `std::max_element` choice of the largest contour (first maximum on
    ties);
  - the per-pixel compositing loop.

OpenCV's results are parameters of the model. These are contour lists,
contour areas, bounding boxes, and the outline, inverse and blurred rasters.
Distances are compared as squared integers, which is exact: `d >= 5` iff
`d² >= 25`, `d <= 2` iff `d² <= 4`, and `d > 5` iff `d² > 25`. Slopes are
exact reals.

## Model

| member | source | states |
|---|---|---|
| `FloodFill.FloodFillDfs` | vendor/custom-opencv-lib/flood_fill.cpp:8-44 | The seed must address a pixel of `img`. Afterwards `img` and `res` are 255 exactly on the 4-connected component of non-255 pixels of the original `img` that contains the seed, and every other pixel keeps its original value. A wall pixel is never written in `res`. A 255 seed has an empty component, so nothing changes. The result is `res` itself, even when `img` and `res` are the same raster. |
| `FloodFill.Visit` | vendor/custom-opencv-lib/flood_fill.cpp:21-33 | One pop of the top point. A popped point outside the raster, or one already 255 in `img`, is dropped and nothing else changes. Any other popped point is marked 255 in `img` and `res`, and its right, left, lower and upper neighbours replace it on the stack, in that order. The fill invariant is kept: marked pixels are in the component, and every open neighbour of a marked pixel is marked or on the stack. Either the count of non-255 pixels falls or it stays and the stack shrinks. |
| `FloodFill.MarkAndPush` | vendor/custom-opencv-lib/flood_fill.cpp:34-40 | Marking an open pixel writes 255 into `img` and `res`, adds it to the marked set, pushes its right, left, lower and upper neighbours in that order, and keeps the fill invariant. The count of non-255 pixels of `img` falls by one, so each pixel is marked at most once. |
| `FloodFill.FillStateSkip` | vendor/custom-opencv-lib/flood_fill.cpp:28-32 | Dropping a popped point that is a wall, off the raster or already marked keeps the fill invariant. |
| `FloodFill.FillStateMark` | vendor/custom-opencv-lib/flood_fill.cpp:31-40 | A popped open, unmarked point is in the seed's component. Marking it and pushing its four neighbours keeps the fill invariant. |
| `FloodFill.ReachesStep` | vendor/custom-opencv-lib/flood_fill.cpp:37-40 | A 4-neighbour of a pixel in the component is reachable from the seed. |
| `FloodFill.ClosedSetHoldsComponent` | vendor/custom-opencv-lib/flood_fill.cpp:21-41 | A set that holds the seed and every open neighbour of its members holds the whole component. This is why an empty stack means the fill is complete. |
| `FloodFill.WallSeedHasNoComponent` | vendor/custom-opencv-lib/flood_fill.cpp:15-16 | A 255 seed has no component, so the early return changes nothing. |
| `KeyPoints.Step` | vendor/custom-opencv-lib/resolve_mask.cpp:93-137 | One pair records only `p1`, and at most once. A long pair (d² >= 25) or a jitter pair (4 < d² < 25) records `p1` and leaves the run alone. With an empty buffer there is no reset. A break (d2² > 25) clears the buffer, including `p1`, and records nothing. A run that reaches six points is cleared and records `p1` iff it is straight. A buffer below six points stays below six. |
| `KeyPoints.CloseRunStep` | vendor/custom-opencv-lib/resolve_mask.cpp:103-109 | A close pair (d² <= 4) whose `p1` does not break the run extends the run by `p1` and records nothing, while the run stays below six points. |
| `KeyPoints.StraightRunStep` | vendor/custom-opencv-lib/resolve_mask.cpp:109-133 | A close pair that completes a straight run of six records `p1` once and clears the run. |
| `KeyPoints.WalkPairs` | vendor/custom-opencv-lib/resolve_mask.cpp:89-91 | Walking the pairs of a contour keeps the run buffer below six points. |
| `KeyPoints.WalkAll` | vendor/custom-opencv-lib/resolve_mask.cpp:86-88 | Walking all contours keeps the run buffer below six points. |
| `KeyPoints.ExtractKeyContourPoints` | vendor/custom-opencv-lib/resolve_mask.cpp:80-143 | The nested loops that push to and clear `keyPoints` and `tmp` return exactly the key points of the pairwise walk over all contours. |
| `KeyPoints.KeyPointsArePairStarts` | vendor/custom-opencv-lib/resolve_mask.cpp:88-102 | Every key point is some `cnt[i]` whose index is below the contour's last, so the last point of a contour is never recorded. There are at most as many key points as pairs (the sum over contours of length minus one), and they form a subsequence of the pair starts in traversal order. |
| `KeyPoints.WalkAllConcat` | vendor/custom-opencv-lib/resolve_mask.cpp:84-88 | Walking `a + b` equals walking `a` and then walking `b` from the resulting state, so the key points of a contour list are those of its parts walked in order. |
| `KeyPoints.CollinearRunIsStraight` | vendor/custom-opencv-lib/resolve_mask.cpp:110-126 | Buffer points 0, 2 and last pass the three-slope test when they lie on one vertical line (slope 999.0 each), or on one line with distinct columns. |
| `KeyPoints.HorizontalLineCollapses` | vendor/custom-opencv-lib/resolve_mask.cpp:103-133 | Seven points of any row, one pixel apart, form one straight run of six. The run records only the sixth point, the one that completes it. |
| `KeyPoints.SplitLineCollapses` | vendor/custom-opencv-lib/resolve_mask.cpp:85-87 | The run buffer `tmp`, declared outside the contour loop, carries from one contour into the next. Seven row points cut into two contours that share point 3 still form one straight run of six and record only point 5. A walk that cleared the run at each contour would record nothing. |
| `ResolveMask.CombinePixel` | vendor/custom-opencv-lib/resolve_mask.cpp:168-173 | OR-ing a morphology value with the hole-filled mask (1 outside holes, 255 inside) and thresholding at 10 gives 0 or 255. A combined pixel is 255 iff it lies in a filled hole or its morphology value is at least 10. Background 0 goes to 0, and the clean foreground value 253 goes to 255. |
| `ResolveMask.CombineMasks` | vendor/custom-opencv-lib/resolve_mask.cpp:168-169 | OR followed by the threshold keeps the raster's shape, and every pixel becomes 0 or 255. |
| `ResolveMask.CombinedMask` | vendor/custom-opencv-lib/resolve_mask.cpp:62-76 | The mask of `fixDirtyContours` (1, with hole contours filled 255), OR-ed into the morphology mask and thresholded, gives a binary mask. It is set exactly on the filled holes and on the pixels whose morphology value is at least 10. |
| `ResolveMask.CleanOfMembers` | vendor/custom-opencv-lib/resolve_mask.cpp:198-212 | A contour is kept iff it is a candidate with area above 1.0 whose box is neither as tall nor as wide as the raster. Either full dimension alone rejects it. |
| `ResolveMask.OneCleanIff` | vendor/custom-opencv-lib/resolve_mask.cpp:215 | The filter keeps exactly one contour iff exactly one candidate index is accepted. |
| `ResolveMask.OneAcceptedKeepsOne` | vendor/custom-opencv-lib/resolve_mask.cpp:200-212 | If exactly one candidate is accepted, the loop keeps one contour. |
| `ResolveMask.KeptOneIsOneAccepted` | vendor/custom-opencv-lib/resolve_mask.cpp:206-207 | If the loop keeps one contour, exactly one candidate is accepted. |
| `ResolveMask.NoneAccepted` | vendor/custom-opencv-lib/resolve_mask.cpp:204-206 | If no candidate is accepted, nothing is kept. |
| `ResolveMask.Center` | vendor/custom-opencv-lib/resolve_mask.cpp:223 | The center offset is the truncated half of the box size on each axis (2·dx <= width <= 2·dx + 1). For a non-empty box the center lies inside the box. |
| `ResolveMask.HullBox` | vendor/custom-opencv-lib/resolve_mask.cpp:259-263 | The hull's bounding box holds every key point, and each of its four edges touches some key point. |
| `ResolveMask.ResolveMask` | vendor/custom-opencv-lib/resolve_mask.cpp:195-281 | The sanity loop, the path choice, the key-point call and the center computation together return the result that `Resolve` defines. |
| `ResolveMask.PathChoice` | vendor/custom-opencv-lib/resolve_mask.cpp:215-256 | The auto path is taken iff exactly one candidate is accepted. The result is the dirty edges with center (-1, -1) iff that fails and no key point survives. |
| `ResolveMask.CenterInRaster` | vendor/custom-opencv-lib/resolve_mask.cpp:222-264 | Suppose the sanity boxes and the edge points lie inside the raster. Then the center lies inside the raster on the auto and hull paths, and outside it exactly on the sentinel path. |
| `ImageTool.Clone` | vendor/custom-opencv-lib/lib.cpp:39 | The clone is a new raster with the same size and pixels. |
| `ImageTool.FillFromCenter` | vendor/custom-opencv-lib/lib.cpp:39-47 | The fill uses the center as it comes, which requires the center to address a pixel. `c4` ends up 200 at the seed, 255 on the rest of the seed's component of `canny` and 0 elsewhere. The clone `c2` is filled, and `canny` is not modified. |
| `ImageTool.BigContour` | vendor/custom-opencv-lib/lib.cpp:58-61 | The linear scan returns a contour of maximal area. On ties it returns the first one, because only a strictly larger area replaces the current best. |
| `ImageTool.FirstLargestUnique` | vendor/custom-opencv-lib/lib.cpp:60 | At most one index is the first largest, so the choice is determined. |
| `ImageTool.RunImageTool` | vendor/custom-opencv-lib/lib.cpp:31-63 | (corrected; see ## Findings) A center outside the raster fails before the fill. Otherwise the run fails iff the filled, marked raster has no contour. Success selects the first largest of its contours. |
| `ImageTool.SentinelCenterMissesRaster` | vendor/custom-opencv-lib/lib.cpp:43-46 | When no sanity contour is accepted alone and no key point survives, the center is (-1, -1). That center addresses no pixel of any raster. |
| `ImageTool.BlankImageGivesSentinel` | vendor/custom-opencv-lib/resolve_mask.cpp:248-256 | With no sanity contour and no edge contour, the result is the dirty edges with center (-1, -1), outside every raster. |
| `ImageTool.Not` | vendor/custom-opencv-lib/lib.cpp:72 | The inverse of a BGRA pixel is transparent black iff the pixel is opaque white. |
| `ImageTool.OutlineBecomesTransparent` | vendor/custom-opencv-lib/lib.cpp:68-91 | Where `imask` is the inverse of `mask`, outline pixels come out transparent black and every other pixel comes out blurred. |
| `ImageTool.Composite` | vendor/custom-opencv-lib/lib.cpp:81-91 | Every output pixel is written. It is `imask` where `mask` is exactly (255, 255, 255, 255) and `blurred` everywhere else. |

## Left out

- `adjustGamma` (the `pow` lookup table), the aspect-ratio resize, the
  120-pixel border and the RGB/BGR conversions are not modelled. They are
  floating-point or OpenCV image operations outside the decision logic.
- `applyMorphology`, `Canny`, `morphologyEx`, `findContours`,
  `drawContours`, `contourArea`, `boundingRect`, `GaussianBlur`,
  `bitwise_not` and `copyTo` are not modelled. Their results are inputs:
  - contour lists;
  - `Candidate` records holding a contour's area and box;
  - a `findContours` function on the filled raster;
  - an `area` function;
  - the `mask`, `imask` and `blurred` arrays.

  The edge raster that `resolveMask` returns is named by the path that made
  it (`Edges`), not computed.
- `ResolveMask.HullBox` computes `boundingRect(convexHull(points))` as the
  smallest box of the points themselves. `convexHull` is not modelled. The
  hull shares its extreme points with the point set, so the box is the same.
- `KeyPoints.IsStraight` compares slopes as exact reals. IEEE rounding of
  the double divisions and of `cv::norm` is not modelled. A run whose scores
  lie within rounding distance of 0.7 may be classified differently.
- `Rect` sizes are non-negative, as `boundingRect` returns them. So C++
  truncating division and Dafny's division agree in `ResolveMask.Center`.
- `ImageTool.RunImageTool` stops at the contour choice. Drawing the
  contour, the outline mask, the inverse and the blur sit between that
  choice and `ImageTool.Composite`, and they are not modelled. The exit
  before the output is written is shown by `RunImageTool` returning
  `Failed` with no output.
- `ImageTool.RunImageTool` does not model the missing-input exit (lines
  12-15 of lib.cpp), because reading the file is I/O.
- Debug canvases, `imwrite`, console output and the unused random
  generator are not modelled. They do not affect results.
- `src/lib.rs` and `src/tests.rs` are not part of this model. They hold the
  download, temporary-file and foreign-call plumbing and a network test.
- The `ResolveOptions` declared in resolve_mask.hpp, which differs from the
  one in resolve_mask.cpp, is not part of this model.

## Findings

| source | as written | input that shows it | evidently intended | confidence | as-written member | corrected member |
|---|---|---|---|---|---|---|
| vendor/custom-opencv-lib/lib.cpp:43-47 | The center returned by `resolveMask` is passed to `floodFillDFS` as the seed. It is then written with `c4.at(cy, cx) = 200` without a check. `floodFillDFS` reads `img.at(startY, startX)` unchecked, so the sentinel (-1, -1) reads outside the raster, and the seed mark then writes outside it. | A blank image, or any image where no sanity contour is accepted alone and no key point survives: `resolveMask` returns center (-1, -1) (`ImageTool.BlankImageGivesSentinel`, `ImageTool.SentinelCenterMissesRaster`). | Treat a center outside the raster as a failure, as the empty-contour case already is. | high; not executed | `ImageTool.FillFromCenter` | `ImageTool.RunImageTool` |
