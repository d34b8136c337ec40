/** The explicit-stack, 4-connected flood fill of flood_fill.cpp.

    Pixels equal to 255 are walls. The fill marks each pixel it visits by
    overwriting it with 255 in the traversal raster `img`, and records it
    with 255 in the output raster `res`. */
module FloodFill {
  import opened Raster

  /** `p` is a non-wall pixel of `g`. */
  predicate Open(g: Grid, p: Point)
  {
    InGrid(g, p) && g[p.y][p.x] != WHITE
  }

  /** `q` is one of the four axis neighbours of `p`. */
  predicate Adjacent(p: Point, q: Point)
  {
    q == Point(p.x + 1, p.y) || q == Point(p.x - 1, p.y) ||
    q == Point(p.x, p.y + 1) || q == Point(p.x, p.y - 1)
  }

  /** A walk that steps between 4-neighbours and passes only through open
      pixels; its last pixel may be anything (a pushed neighbour). */
  ghost predicate IsWalk(g: Grid, w: seq<Point>)
    decreases |w|
  {
    |w| > 0 &&
    (|w| == 1 || (Open(g, w[0]) && Adjacent(w[0], w[1]) && IsWalk(g, w[1..])))
  }

  ghost predicate Reaches(g: Grid, s: Point, t: Point)
  {
    exists w :: IsWalk(g, w) && w[0] == s && w[|w| - 1] == t
  }

  /** `t` lies in the 4-connected component of open pixels that contains
      the seed `s` (empty when `s` is a wall). */
  ghost predicate InComponent(g: Grid, s: Point, t: Point)
  {
    Open(g, t) && Reaches(g, s, t)
  }

  lemma ReachesItself(g: Grid, s: Point)
    ensures Reaches(g, s, s)
  {
    assert IsWalk(g, [s]);
  }

  /** A walk whose last pixel is open extends by one step to a neighbour. */
  lemma {:induction false} WalkExtends(g: Grid, w: seq<Point>, q: Point)
    requires IsWalk(g, w) && Open(g, w[|w| - 1]) && Adjacent(w[|w| - 1], q)
    ensures IsWalk(g, w + [q]) && (w + [q])[0] == w[0]
    decreases |w|
  {
    if |w| > 1 {
      WalkExtends(g, w[1..], q);
      assert (w + [q])[1..] == w[1..] + [q];
    }
  }

  lemma {:induction false} ReachesStep(g: Grid, s: Point, p: Point, q: Point)
    requires InComponent(g, s, p) && Adjacent(p, q)
    ensures Reaches(g, s, q)
  {
    var w :| IsWalk(g, w) && w[0] == s && w[|w| - 1] == p;
    WalkExtends(g, w, q);
    assert (w + [q])[|w|] == q;
  }

  /** A wall seed has an empty component. */
  lemma {:induction false} WallSeedHasNoComponent(g: Grid, s: Point, t: Point)
    requires !Open(g, s)
    ensures !InComponent(g, s, t)
  {
  }

  /** A set that holds the start of a walk ending on an open pixel and is
      closed under stepping to open neighbours holds every pixel of it. */
  lemma {:induction false} ClosedSetHoldsWalk(g: Grid, m: set<Point>, w: seq<Point>)
    requires IsWalk(g, w) && w[0] in m && Open(g, w[|w| - 1])
    requires forall c, n :: c in m && Adjacent(c, n) && Open(g, n) ==> n in m
    ensures w[|w| - 1] in m
    decreases |w|
  {
    if |w| > 1 {
      var v := w[1..];
      assert Open(g, v[0]) by {
        if |v| > 1 {
          assert IsWalk(g, v);
        }
      }
      ClosedSetHoldsWalk(g, m, v);
    }
  }

  /** A set that holds the seed and is closed under stepping to open
      neighbours holds the whole component of the seed. */
  lemma {:induction false} ClosedSetHoldsComponent(g: Grid, s: Point, m: set<Point>, t: Point)
    requires s in m
    requires forall c, n :: c in m && Adjacent(c, n) && Open(g, n) ==> n in m
    requires InComponent(g, s, t)
    ensures t in m
  {
    var w :| IsWalk(g, w) && w[0] == s && w[|w| - 1] == t;
    ClosedSetHoldsWalk(g, m, w);
  }

  /** Every pixel on the stack is reached from the seed by a walk. */
  ghost predicate AllReach(g: Grid, s: Point, stack: seq<Point>)
    decreases |stack|
  {
    stack == [] || (AllReach(g, s, stack[..|stack| - 1]) && Reaches(g, s, stack[|stack| - 1]))
  }

  lemma AllReachPush(g: Grid, s: Point, stack: seq<Point>, q: Point)
    requires AllReach(g, s, stack) && Reaches(g, s, q)
    ensures AllReach(g, s, stack + [q])
  {
    assert (stack + [q])[..|stack|] == stack;
  }

  /** Every open neighbour of a marked pixel is marked or still on the
      stack (stack entries are `rest + [p]` after `p` is popped). */
  ghost predicate Frontier(g: Grid, marked: set<Point>, stack: seq<Point>)
  {
    forall c, n {:trigger Adjacent(c, n)} :: c in marked && Adjacent(c, n) && Open(g, n) ==> n in marked || n in stack
  }

  /** Popping a pixel that is a wall, outside the raster or already marked
      keeps the frontier property. */
  lemma FrontierPopSkip(g: Grid, marked: set<Point>, rest: seq<Point>, p: Point)
    requires Frontier(g, marked, rest + [p])
    requires !Open(g, p) || p in marked
    ensures Frontier(g, marked, rest)
  {
  }

  /** Marking a popped pixel and pushing its four neighbours keeps the
      frontier property. */
  lemma FrontierPopMark(g: Grid, marked: set<Point>, rest: seq<Point>, p: Point)
    requires Frontier(g, marked, rest + [p])
    ensures Frontier(g, marked + {p},
      rest + [Point(p.x + 1, p.y), Point(p.x - 1, p.y), Point(p.x, p.y + 1), Point(p.x, p.y - 1)])
  {
  }

  /** The bookkeeping that the fill loop keeps: `marked` holds only pixels
      of the seed's component; every stack entry is reached from the seed;
      open neighbours of marked pixels are marked or still on the stack;
      `todo` is the set of open pixels not yet marked; and the seed is
      marked once the first pop is done. */
  ghost predicate FillState(g: Grid, seed: Point, marked: set<Point>, todo: set<Point>, stack: seq<Point>)
  {
    (forall c {:trigger InComponent(g, seed, c)} :: c in marked ==> InComponent(g, seed, c)) &&
    AllReach(g, seed, stack) &&
    Frontier(g, marked, stack) &&
    (forall c {:trigger c in todo} :: c in todo <==> Open(g, c) && c !in marked) &&
    (seed in marked || (marked == {} && stack == [seed]))
  }

  /** Popping a pixel that is outside the raster, a wall or already marked
      changes nothing but the stack. */
  lemma FillStateSkip(g: Grid, seed: Point, marked: set<Point>, todo: set<Point>, rest: seq<Point>, p: Point)
    requires Open(g, seed)
    requires FillState(g, seed, marked, todo, rest + [p])
    requires !Open(g, p) || p in marked
    ensures FillState(g, seed, marked, todo, rest)
  {
    assert (rest + [p])[..|rest|] == rest;
    FrontierPopSkip(g, marked, rest, p);
  }

  /** Popping an open, unmarked pixel, marking it and pushing its four
      neighbours keeps the bookkeeping, and `todo` shrinks. */
  lemma FillStateMark(g: Grid, seed: Point, marked: set<Point>, todo: set<Point>, rest: seq<Point>, p: Point)
    requires FillState(g, seed, marked, todo, rest + [p])
    requires Open(g, p) && p !in marked
    ensures p in todo
    ensures FillState(g, seed, marked + {p}, todo - {p},
      rest + [Point(p.x + 1, p.y)] + [Point(p.x - 1, p.y)] + [Point(p.x, p.y + 1)] + [Point(p.x, p.y - 1)])
  {
    assert (rest + [p])[..|rest|] == rest;
    assert InComponent(g, seed, p);
    FrontierPopMark(g, marked, rest, p);
    assert rest + [Point(p.x + 1, p.y), Point(p.x - 1, p.y), Point(p.x, p.y + 1), Point(p.x, p.y - 1)]
      == rest + [Point(p.x + 1, p.y)] + [Point(p.x - 1, p.y)] + [Point(p.x, p.y + 1)] + [Point(p.x, p.y - 1)];
    var q1, q2, q3, q4 := Point(p.x + 1, p.y), Point(p.x - 1, p.y), Point(p.x, p.y + 1), Point(p.x, p.y - 1);
    ReachesStep(g, seed, p, q1);
    AllReachPush(g, seed, rest, q1);
    ReachesStep(g, seed, p, q2);
    AllReachPush(g, seed, rest + [q1], q2);
    ReachesStep(g, seed, p, q3);
    AllReachPush(g, seed, rest + [q1] + [q2], q3);
    ReachesStep(g, seed, p, q4);
    AllReachPush(g, seed, rest + [q1] + [q2] + [q3], q4);
  }

  /** `img` holds the original image `g` with every pixel of `marked` set
      to 255. */
  ghost predicate ImgPainted(img: array2<byte>, g: Grid, marked: set<Point>)
    reads img
  {
    IsGrid(g, img.Length0, img.Length1) &&
    forall y, x {:trigger img[y, x]} :: 0 <= y < img.Length0 && 0 <= x < img.Length1 ==>
      img[y, x] == if Point(x, y) in marked then WHITE else g[y][x]
  }

  /** `res` holds its original contents `r0` with every pixel of `marked`
      set to 255. */
  ghost predicate ResPainted(res: array2<byte>, r0: Grid, marked: set<Point>)
    reads res
  {
    IsGrid(r0, res.Length0, res.Length1) &&
    forall y, x {:trigger res[y, x]} :: 0 <= y < res.Length0 && 0 <= x < res.Length1 ==>
      res[y, x] == if Point(x, y) in marked then WHITE else r0[y][x]
  }

  /** One pass of the loop body: pop the top of the stack; skip it when it
      lies outside the raster or is already 255 in `img`; otherwise mark it
      255 in `img` and `res` and push its right, left, lower and upper
      neighbours, in that order. Either `todo` shrinks, or it stays and the
      stack shrinks. */
  method Visit(img: array2<byte>, res: array2<byte>, stack: seq<Point>,
               ghost g: Grid, ghost r0: Grid, ghost seed: Point, ghost marked: set<Point>, ghost todo: set<Point>)
    returns (stack': seq<Point>, ghost marked': set<Point>, ghost todo': set<Point>)
    requires stack != []
    requires img.Length0 <= res.Length0 && img.Length1 <= res.Length1
    requires Open(g, seed)
    requires ImgPainted(img, g, marked) && ResPainted(res, r0, marked)
    requires FillState(g, seed, marked, todo, stack)
    modifies img, res
    ensures ImgPainted(img, g, marked') && ResPainted(res, r0, marked')
    ensures FillState(g, seed, marked', todo', stack')
    ensures |todo'| < |todo| || (todo' == todo && |stack'| < |stack|)
    ensures var p := stack[|stack| - 1];
      if InArray(img, p) && old(img[p.y, p.x]) != WHITE then
        marked' == marked + {p} && todo' == todo - {p} &&
        stack' == stack[..|stack| - 1] + [Point(p.x + 1, p.y), Point(p.x - 1, p.y), Point(p.x, p.y + 1), Point(p.x, p.y - 1)] &&
        img[p.y, p.x] == WHITE && res[p.y, p.x] == WHITE
      else
        stack' == stack[..|stack| - 1] && marked' == marked && todo' == todo
  {
    var p := stack[|stack| - 1];
    stack' := stack[..|stack| - 1];
    assert stack == stack' + [p];
    var x, y := p.x, p.y;
    assert p == Point(x, y);
    marked', todo' := marked, todo;

    if x < 0 || x >= img.Length1 || y < 0 || y >= img.Length0 {
      FillStateSkip(g, seed, marked, todo, stack', p);
      return;
    }
    if img[y, x] == WHITE {
      FillStateSkip(g, seed, marked, todo, stack', p);
      return;
    }

    stack', marked', todo' := MarkAndPush(img, res, stack', p, g, r0, seed, marked, todo);
  }

  /** The marking half of the loop body, for a popped pixel `p` that is
      inside the raster and not yet 255 in `img`: set it to 255 in `img` and
      `res`, then push its right, left, lower and upper neighbours. */
  method MarkAndPush(img: array2<byte>, res: array2<byte>, rest: seq<Point>, p: Point,
                     ghost g: Grid, ghost r0: Grid, ghost seed: Point, ghost marked: set<Point>, ghost todo: set<Point>)
    returns (stack': seq<Point>, ghost marked': set<Point>, ghost todo': set<Point>)
    requires img.Length0 <= res.Length0 && img.Length1 <= res.Length1
    requires InArray(img, p) && img[p.y, p.x] != WHITE
    requires ImgPainted(img, g, marked) && ResPainted(res, r0, marked)
    requires FillState(g, seed, marked, todo, rest + [p])
    modifies img, res
    ensures ImgPainted(img, g, marked') && ResPainted(res, r0, marked')
    ensures FillState(g, seed, marked', todo', stack')
    ensures |todo'| < |todo|
    ensures marked' == marked + {p} && todo' == todo - {p} && |todo'| == |todo| - 1
    ensures stack' == rest + [Point(p.x + 1, p.y), Point(p.x - 1, p.y), Point(p.x, p.y + 1), Point(p.x, p.y - 1)]
    ensures img[p.y, p.x] == WHITE && res[p.y, p.x] == WHITE
  {
    var x, y := p.x, p.y;
    img[y, x] := WHITE;
    res[y, x] := WHITE;
    FillStateMark(g, seed, marked, todo, rest, p);
    marked' := marked + {p};
    todo' := todo - {p};

    stack' := rest + [Point(x + 1, y)];
    stack' := stack' + [Point(x - 1, y)];
    stack' := stack' + [Point(x, y + 1)];
    stack' := stack' + [Point(x, y - 1)];
  }

  /** floodFillDFS: fills, from the seed (startX, startY), the 4-connected
      component of non-wall pixels of the original `img`. Afterwards that
      component is 255 in both `img` and `res`, and every other pixel of
      both keeps its value. The returned raster is the caller's `res`. */
  method FloodFillDfs(img: array2<byte>, res: array2<byte>, startX: int, startY: int)
    returns (r: array2<byte>)
    requires InArray(img, Point(startX, startY))
    requires img.Length0 <= res.Length0 && img.Length1 <= res.Length1
    modifies img, res
    ensures r == res
    ensures forall y, x :: 0 <= y < img.Length0 && 0 <= x < img.Length1 ==>
      img[y, x] == if InComponent(old(Snapshot(img)), Point(startX, startY), Point(x, y))
                   then WHITE else old(img[y, x])
    ensures forall y, x :: 0 <= y < res.Length0 && 0 <= x < res.Length1 ==>
      res[y, x] == if InComponent(old(Snapshot(img)), Point(startX, startY), Point(x, y))
                   then WHITE else old(res[y, x])
    // a wall pixel of img is never written in res
    ensures forall y, x :: 0 <= y < img.Length0 && 0 <= x < img.Length1 && old(img[y, x]) == WHITE ==>
      res[y, x] == old(res[y, x])
  {
    var width := img.Length1;
    var height := img.Length0;
    ghost var g := Snapshot(img);
    ghost var r0 := Snapshot(res);
    ghost var seed := Point(startX, startY);

    if img[startY, startX] == WHITE {
      forall t | true ensures !InComponent(g, seed, t) {
        WallSeedHasNoComponent(g, seed, t);
      }
      return res;
    }

    // `marked` is the set of pixels filled so far; `todo` is the set of
    // non-255 pixels left in `img`, the measure that falls at every mark.
    ghost var marked: set<Point> := {};
    ghost var todo: set<Point> := set y, x | 0 <= y < height && 0 <= x < width && g[y][x] != WHITE :: Point(x, y);
    var stack := [Point(startX, startY)];
    ReachesItself(g, seed);
    assert AllReach(g, seed, stack) by {
      assert stack[..0] == [];
    }

    while stack != []
      invariant ImgPainted(img, g, marked) && ResPainted(res, r0, marked)
      invariant FillState(g, seed, marked, todo, stack)
      decreases |todo|, |stack|
    {
      stack, marked, todo := Visit(img, res, stack, g, r0, seed, marked, todo);
    }

    forall t | InComponent(g, seed, t) ensures t in marked {
      ClosedSetHoldsComponent(g, seed, marked, t);
    }
    return res;
  }
}
