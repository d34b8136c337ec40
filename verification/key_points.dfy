/** The key-point simplifier `extractKeyContourPoints` of resolve_mask.cpp.

    It walks every contour as consecutive point pairs (p1, p2) and carries
    two buffers across the whole walk: the recorded key points and a run
    buffer of closely spaced points. Distances are compared through their
    squares, which is exact for integer points: d >= 5 iff d^2 >= 25,
    d <= 2 iff d^2 <= 4, d > 5 iff d^2 > 25. Slopes are exact reals. */
module KeyPoints {
  import opened Raster

  /** A pair at least this far apart (squared) is a long segment. */
  const LONG_SQ: int := 25
  /** A pair at most this far apart (squared) belongs to a close run. */
  const CLOSE_SQ: int := 4
  /** A run breaks when the new point is further than this (squared) from
      the last buffered one. */
  const BREAK_SQ: int := 25
  /** A run is judged for straightness, and cleared, once it holds this many points. */
  const RUN_LENGTH: int := 6
  const STRAIGHT_THRESHOLD: real := 0.7
  /** The slope given to a vertical pair instead of dividing by zero. */
  const VERTICAL_SLOPE: real := 999.0

  function Sq(d: int): int
  {
    d * d
  }

  function SqDist(a: Point, b: Point): int
  {
    Sq(a.x - b.x) + Sq(a.y - b.y)
  }

  function Abs(r: real): real
  {
    if r < 0.0 then -r else r
  }

  function Slope(a: Point, b: Point): real
  {
    if b.x - a.x == 0 then VERTICAL_SLOPE else (b.y - a.y) as real / (b.x - a.x) as real
  }

  /** The three-slope straightness test on buffer points 0, 2 and last. */
  predicate IsStraight(run: seq<Point>)
    requires |run| >= 3
  {
    var s, m, e := run[0], run[2], run[|run| - 1];
    Abs(Abs(Slope(s, m)) - Abs(Slope(m, e))) < STRAIGHT_THRESHOLD &&
    Abs(Abs(Slope(s, m)) - Abs(Slope(s, e))) < STRAIGHT_THRESHOLD
  }

  /** The state carried by the walk: the key points so far (`keyPoints`)
      and the run buffer (`tmp`). */
  datatype Simplifier = Simplifier(keys: seq<Point>, run: seq<Point>)

  const START := Simplifier([], [])

  /** One pair (p1, p2) of the walk. */
  function Step(st: Simplifier, p1: Point, p2: Point): (r: Simplifier)
    // a pair records nothing but p1, and records it at most once
    ensures r.keys == st.keys || r.keys == st.keys + [p1]
    // a long pair, or a jitter pair (2 < d < 5), records p1 and leaves the run alone
    ensures SqDist(p1, p2) > CLOSE_SQ ==> r == Simplifier(st.keys + [p1], st.run)
    // the run buffer never reaches six points
    ensures |st.run| < RUN_LENGTH ==> |r.run| < RUN_LENGTH
    // with an empty buffer the break distance equals d1 <= 2: no reset
    ensures SqDist(p1, p2) <= CLOSE_SQ && st.run == [] ==> r == Simplifier(st.keys, [p1])
    // a break clears the buffer, p1 included, and records nothing
    ensures SqDist(p1, p2) <= CLOSE_SQ && st.run != [] && SqDist(st.run[|st.run| - 1], p1) > BREAK_SQ
      ==> r == Simplifier(st.keys, [])
    // a full run is cleared; it records p1 exactly when it is straight
    ensures SqDist(p1, p2) <= CLOSE_SQ && st.run != [] && SqDist(st.run[|st.run| - 1], p1) <= BREAK_SQ &&
            |st.run| + 1 >= RUN_LENGTH
      ==> r.run == [] && (r.keys == st.keys + [p1] <==> IsStraight(st.run + [p1]))
  {
    var pt := if st.run == [] then p2 else st.run[|st.run| - 1];
    var d1 := SqDist(p2, p1);
    var d2 := SqDist(pt, p1);
    if d1 >= LONG_SQ then
      Simplifier(st.keys + [p1], st.run)
    else if d1 <= CLOSE_SQ then
      var run := if d2 > BREAK_SQ then [] else st.run + [p1];
      if |run| >= RUN_LENGTH then
        Simplifier(if IsStraight(run) then st.keys + [p1] else st.keys, [])
      else
        Simplifier(st.keys, run)
    else
      Simplifier(st.keys + [p1], st.run)
  }

  /** The state after the first `n` pairs of `cnt`. */
  function WalkPairs(st: Simplifier, cnt: seq<Point>, n: nat): (r: Simplifier)
    requires n == 0 || n < |cnt|
    ensures |st.run| < RUN_LENGTH ==> |r.run| < RUN_LENGTH
    decreases n
  {
    if n == 0 then st else Step(WalkPairs(st, cnt, n - 1), cnt[n - 1], cnt[n])
  }

  /** The number of pairs of a contour (its last point starts none). */
  function PairCount(cnt: seq<Point>): nat
  {
    if |cnt| == 0 then 0 else |cnt| - 1
  }

  function WalkContour(st: Simplifier, cnt: seq<Point>): Simplifier
  {
    WalkPairs(st, cnt, PairCount(cnt))
  }

  /** The state after all pairs of all contours, the run buffer carried
      from one contour to the next. */
  function WalkAll(st: Simplifier, cs: seq<seq<Point>>): (r: Simplifier)
    ensures |st.run| < RUN_LENGTH ==> |r.run| < RUN_LENGTH
    decreases |cs|
  {
    if cs == [] then st else WalkContour(WalkAll(st, cs[..|cs| - 1]), cs[|cs| - 1])
  }

  /** The key points of `extractKeyContourPoints` for the contours `cs`. */
  function Simplify(cs: seq<seq<Point>>): seq<Point>
  {
    WalkAll(START, cs).keys
  }

  /** extractKeyContourPoints: the two nested loops over contours and pairs,
      updating `keyPoints` and `tmp` by push and clear. */
  method ExtractKeyContourPoints(contours: seq<seq<Point>>) returns (keyPoints: seq<Point>)
    ensures keyPoints == Simplify(contours)
  {
    keyPoints := [];
    var tmp: seq<Point> := [];
    var c := 0;
    while c < |contours|
      invariant 0 <= c <= |contours|
      invariant Simplifier(keyPoints, tmp) == WalkAll(START, contours[..c])
    {
      var cnt := contours[c];
      var i := 0;
      while i + 1 < |cnt|
        invariant i == 0 || i < |cnt|
        invariant Simplifier(keyPoints, tmp) == WalkPairs(WalkAll(START, contours[..c]), cnt, i)
      {
        var p1, p2 := cnt[i], cnt[i + 1];
        ghost var before := Simplifier(keyPoints, tmp);
        var pt := if tmp == [] then p2 else tmp[|tmp| - 1];
        var d1 := SqDist(p2, p1);
        var d2 := SqDist(pt, p1);
        if d1 >= LONG_SQ {
          keyPoints := keyPoints + [p1];
        } else if d1 <= CLOSE_SQ {
          tmp := tmp + [p1];
          if d2 > BREAK_SQ {
            tmp := [];
          }
          if |tmp| >= RUN_LENGTH {
            var s, m, e := tmp[0], tmp[2], tmp[|tmp| - 1];
            var kSm, kMe, kSe := Slope(s, m), Slope(m, e), Slope(s, e);
            var score := Abs(Abs(kSm) - Abs(kMe));
            var score2 := Abs(Abs(kSm) - Abs(kSe));
            var straight := score < STRAIGHT_THRESHOLD && score2 < STRAIGHT_THRESHOLD;
            if straight {
              keyPoints := keyPoints + [p1];
            }
            tmp := [];
          }
        } else {
          keyPoints := keyPoints + [p1];
        }
        assert Simplifier(keyPoints, tmp) == Step(before, p1, p2);
        i := i + 1;
      }
      assert contours[..c + 1][..c] == contours[..c];
      c := c + 1;
    }
    assert contours[..c] == contours;
  }

  // ---------------------------------------------------------------------
  // Order: the key points are a subsequence of the pair-starting points.

  /** `a` can be obtained from `b` by deleting elements. */
  predicate IsSubsequence(a: seq<Point>, b: seq<Point>)
    decreases |b|
  {
    if a == [] then true
    else if b == [] then false
    else if a[|a| - 1] == b[|b| - 1] then IsSubsequence(a[..|a| - 1], b[..|b| - 1])
    else IsSubsequence(a, b[..|b| - 1])
  }

  lemma {:induction false} SubsequenceDropLast(a: seq<Point>, b: seq<Point>)
    requires a != [] && IsSubsequence(a, b)
    ensures IsSubsequence(a[..|a| - 1], b)
    decreases |b|, 1
  {
    var a', b' := a[..|a| - 1], b[..|b| - 1];
    assert b == b' + [b[|b| - 1]];
    if a[|a| - 1] == b[|b| - 1] {
      SubsequenceAppendRight(a', b', b[|b| - 1]);
    } else {
      SubsequenceDropLast(a, b');
      SubsequenceAppendRight(a', b', b[|b| - 1]);
    }
  }

  lemma {:induction false} SubsequenceAppendRight(a: seq<Point>, b: seq<Point>, x: Point)
    requires IsSubsequence(a, b)
    ensures IsSubsequence(a, b + [x])
    decreases |b| + 1, 0
  {
    assert (b + [x])[..|b|] == b;
    if a != [] && a[|a| - 1] == x {
      SubsequenceDropLast(a, b);
    }
  }

  lemma SubsequenceAppendBoth(a: seq<Point>, b: seq<Point>, x: Point)
    requires IsSubsequence(a, b)
    ensures IsSubsequence(a + [x], b + [x])
  {
    assert (a + [x])[..|a|] == a;
    assert (b + [x])[..|b|] == b;
  }

  /** A subsequence is no longer than the sequence and holds only its
      elements. */
  lemma {:induction false} SubsequenceFacts(a: seq<Point>, b: seq<Point>)
    requires IsSubsequence(a, b)
    ensures |a| <= |b|
    ensures forall k :: k in a ==> k in b
    decreases |b|
  {
    if a != [] {
      var b' := b[..|b| - 1];
      assert b == b' + [b[|b| - 1]];
      if a[|a| - 1] == b[|b| - 1] {
        var a' := a[..|a| - 1];
        SubsequenceFacts(a', b');
        assert a == a' + [a[|a| - 1]];
      } else {
        SubsequenceFacts(a, b');
      }
    }
  }

  /** The points that start a pair, contour by contour, in walk order. */
  function PairStarts(cs: seq<seq<Point>>): seq<Point>
    decreases |cs|
  {
    if cs == [] then []
    else PairStarts(cs[..|cs| - 1]) + cs[|cs| - 1][..PairCount(cs[|cs| - 1])]
  }

  /** The total number of pairs, Σ(|cnt| - 1) over non-empty contours. */
  function TotalPairs(cs: seq<seq<Point>>): nat
    decreases |cs|
  {
    if cs == [] then 0 else TotalPairs(cs[..|cs| - 1]) + PairCount(cs[|cs| - 1])
  }

  lemma {:induction false} WalkPairsKeys(st: Simplifier, cnt: seq<Point>, n: nat, base: seq<Point>)
    requires n == 0 || n < |cnt|
    requires IsSubsequence(st.keys, base)
    ensures IsSubsequence(WalkPairs(st, cnt, n).keys, base + cnt[..n])
    decreases n
  {
    if n == 0 {
      assert base + cnt[..0] == base;
    } else {
      var prev := WalkPairs(st, cnt, n - 1);
      WalkPairsKeys(st, cnt, n - 1, base);
      var b := base + cnt[..n - 1];
      assert base + cnt[..n] == b + [cnt[n - 1]];
      if Step(prev, cnt[n - 1], cnt[n]).keys == prev.keys {
        SubsequenceAppendRight(prev.keys, b, cnt[n - 1]);
      } else {
        SubsequenceAppendBoth(prev.keys, b, cnt[n - 1]);
      }
    }
  }

  lemma {:induction false} WalkAllKeys(st: Simplifier, cs: seq<seq<Point>>)
    requires IsSubsequence(st.keys, [])
    ensures IsSubsequence(WalkAll(st, cs).keys, PairStarts(cs))
    decreases |cs|
  {
    if cs != [] {
      var init := cs[..|cs| - 1];
      var last := cs[|cs| - 1];
      WalkAllKeys(st, init);
      WalkPairsKeys(WalkAll(st, init), last, PairCount(last), PairStarts(init));
    }
  }

  lemma {:induction false} PairStartsLength(cs: seq<seq<Point>>)
    ensures |PairStarts(cs)| == TotalPairs(cs)
    decreases |cs|
  {
    if cs != [] {
      PairStartsLength(cs[..|cs| - 1]);
    }
  }

  lemma {:induction false} PairStartsMember(cs: seq<seq<Point>>, k: Point)
    requires k in PairStarts(cs)
    ensures exists j, i :: 0 <= j < |cs| && 0 <= i && i + 1 < |cs[j]| && cs[j][i] == k
    decreases |cs|
  {
    var init, last := cs[..|cs| - 1], cs[|cs| - 1];
    if k in PairStarts(init) {
      PairStartsMember(init, k);
      var j, i :| 0 <= j < |init| && 0 <= i && i + 1 < |init[j]| && init[j][i] == k;
      assert cs[j] == init[j];
    } else {
      var i :| 0 <= i < |last[..PairCount(last)]| && last[..PairCount(last)][i] == k;
      assert cs[|cs| - 1][i] == k;
    }
  }

  /** Every key point is the first point p1 = cnt[i] of some pair, i + 1 <
      |cnt| (so the last point of a contour is never recorded); there are
      at most Σ(|cnt| - 1) of them; and they come in walk order. */
  lemma KeyPointsArePairStarts(cs: seq<seq<Point>>)
    ensures IsSubsequence(Simplify(cs), PairStarts(cs))
    ensures |Simplify(cs)| <= TotalPairs(cs)
    ensures forall k :: k in Simplify(cs) ==>
      exists j, i :: 0 <= j < |cs| && 0 <= i && i + 1 < |cs[j]| && cs[j][i] == k
  {
    WalkAllKeys(START, cs);
    SubsequenceFacts(Simplify(cs), PairStarts(cs));
    PairStartsLength(cs);
    forall k | k in Simplify(cs)
      ensures exists j, i :: 0 <= j < |cs| && 0 <= i && i + 1 < |cs[j]| && cs[j][i] == k
    {
      PairStartsMember(cs, k);
    }
  }

  /** The walk over a list of contours is the walk over its first part
      followed by the walk over the rest from where the first left off: the
      run buffer is not reset at a contour boundary. */
  lemma {:induction false} WalkAllConcat(st: Simplifier, a: seq<seq<Point>>, b: seq<seq<Point>>)
    ensures WalkAll(st, a + b) == WalkAll(WalkAll(st, a), b)
    decreases |b|
  {
    if b == [] {
      assert a + b == a;
    } else {
      assert (a + b)[..|a + b| - 1] == a + b[..|b| - 1];
      WalkAllConcat(st, a, b[..|b| - 1]);
    }
  }

  // ---------------------------------------------------------------------
  // Straightness.

  /** Three points on one vertical line, or on one non-vertical line with
      distinct columns, pass the straightness test. */
  lemma CollinearRunIsStraight(run: seq<Point>)
    requires |run| >= 3
    requires var s, m, e := run[0], run[2], run[|run| - 1];
      (s.x == m.x && m.x == e.x) ||
      (s.x != m.x && m.x != e.x && s.x != e.x &&
       (m.y - s.y) * (e.x - s.x) == (e.y - s.y) * (m.x - s.x))
    ensures IsStraight(run)
  {
    var s, m, e := run[0], run[2], run[|run| - 1];
    if s.x != m.x {
      var k := (m.y - s.y) as real / (m.x - s.x) as real;
      assert (m.y - s.y) as real == k * (m.x - s.x) as real;
      assert ((e.y - s.y) as real) * ((m.x - s.x) as real) == k * (m.x - s.x) as real * (e.x - s.x) as real;
      assert (e.y - s.y) as real == k * (e.x - s.x) as real;
      assert (e.y - m.y) as real == k * (e.x - m.x) as real;
      assert Slope(s, e) == k;
      assert Slope(m, e) == k;
    }
  }

  /** A close pair that does not break the run extends it by `p1`, as long
      as the run stays below six points. */
  lemma CloseRunStep(st: Simplifier, p1: Point, p2: Point)
    requires SqDist(p1, p2) <= CLOSE_SQ
    requires st.run != [] ==> SqDist(st.run[|st.run| - 1], p1) <= BREAK_SQ
    requires |st.run| + 1 < RUN_LENGTH
    ensures Step(st, p1, p2) == Simplifier(st.keys, st.run + [p1])
  {
  }

  /** Seven points of row `y`, one pixel apart, from column `x0` on. */
  function HorizontalLine(x0: int, y: int): (line: seq<Point>)
    ensures |line| == 7 && forall i :: 0 <= i < 7 ==> line[i] == Point(x0 + i, y)
  {
    seq(7, i => Point(x0 + i, y))
  }

  lemma SliceGrows(s: seq<Point>, n: nat)
    requires 0 < n <= |s|
    ensures s[..n - 1] + [s[n - 1]] == s[..n]
  {
  }

  /** Neighbouring points of a row are one squared unit apart. */
  lemma RowNeighbours(p: Point, q: Point)
    requires q == Point(p.x + 1, p.y)
    ensures SqDist(p, q) == 1
  {
    assert p.x - q.x == -1 && p.y - q.y == 0;
  }

  /** Along the line the first five pairs only grow the run. */
  lemma {:induction false} HorizontalLineRun(x0: int, y: int, n: nat)
    requires n <= 5
    ensures WalkPairs(START, HorizontalLine(x0, y), n) == Simplifier([], HorizontalLine(x0, y)[..n])
  {
    var line := HorizontalLine(x0, y);
    if n > 0 {
      HorizontalLineRun(x0, y, n - 1);
      var prev := WalkPairs(START, line, n - 1);
      RowNeighbours(line[n - 1], line[n]);
      if n > 1 {
        assert prev.run[|prev.run| - 1] == line[n - 2];
        RowNeighbours(line[n - 2], line[n - 1]);
      }
      CloseRunStep(prev, line[n - 1], line[n]);
      SliceGrows(line, n);
    }
  }

  /** A close pair that completes a straight run of six records `p1` and
      clears the run. */
  lemma StraightRunStep(st: Simplifier, p1: Point, p2: Point)
    requires SqDist(p1, p2) <= CLOSE_SQ
    requires st.run != [] && SqDist(st.run[|st.run| - 1], p1) <= BREAK_SQ
    requires |st.run| + 1 == RUN_LENGTH && IsStraight(st.run + [p1])
    ensures Step(st, p1, p2) == Simplifier(st.keys + [p1], [])
  {
  }

  lemma RowRunIsStraight(x0: int, y: int)
    ensures IsStraight(HorizontalLine(x0, y)[..6])
  {
    var run := HorizontalLine(x0, y)[..6];
    var s, m, e := run[0], run[2], run[|run| - 1];
    assert m.y - s.y == 0 && e.y - s.y == 0;
    assert s.x != m.x && m.x != e.x && s.x != e.x;
    CollinearRunIsStraight(run);
  }

  /** A horizontal line of seven points one pixel apart: its six pairs
      form one straight run, which collapses to the single key point that
      closes it. */
  lemma HorizontalLineCollapses(x0: int, y: int)
    ensures Simplify([HorizontalLine(x0, y)]) == [Point(x0 + 5, y)]
  {
    var line := HorizontalLine(x0, y);
    var cs: seq<seq<Point>> := [line];
    assert cs[..0] == [];
    HorizontalLineRun(x0, y, 5);
    var s5 := WalkPairs(START, line, 5);
    RowNeighbours(line[5], line[6]);
    RowNeighbours(line[4], line[5]);
    SliceGrows(line, 6);
    RowRunIsStraight(x0, y);
    StraightRunStep(s5, line[5], line[6]);
    assert WalkAll(START, cs) == WalkPairs(START, line, 6);
  }

  /** A walk looks at no point past its last pair. */
  lemma {:induction false} WalkPairsPrefix(st: Simplifier, a: seq<Point>, b: seq<Point>, n: nat)
    requires n < |a| && n < |b|
    requires forall i :: 0 <= i <= n ==> a[i] == b[i]
    ensures WalkPairs(st, a, n) == WalkPairs(st, b, n)
  {
    if n > 0 {
      WalkPairsPrefix(st, a, b, n - 1);
    }
  }

  /** The first half of the split line, points 0 to 3, leaves its three
      pairs' starts in the run and records nothing. */
  lemma SplitLineFirstHalf(x0: int, y: int)
    ensures WalkContour(START, HorizontalLine(x0, y)[..4]) == Simplifier([], HorizontalLine(x0, y)[..3])
  {
    var line := HorizontalLine(x0, y);
    WalkPairsPrefix(START, line[..4], line, 3);
    HorizontalLineRun(x0, y, 3);
  }

  /** The second half, points 3 to 6, walked from the run the first half
      left: its three pairs grow that run to six straight points, which
      records point 5. */
  lemma SplitLineSecondHalf(x0: int, y: int)
    ensures WalkContour(Simplifier([], HorizontalLine(x0, y)[..3]), HorizontalLine(x0, y)[3..]) ==
      Simplifier([Point(x0 + 5, y)], [])
  {
    var line := HorizontalLine(x0, y);
    var b := line[3..];
    var s0 := Simplifier([], line[..3]);
    RowNeighbours(line[2], line[3]);
    RowNeighbours(line[3], line[4]);
    RowNeighbours(line[4], line[5]);
    RowNeighbours(line[5], line[6]);
    CloseRunStep(s0, b[0], b[1]);
    SliceGrows(line, 4);
    var s1 := WalkPairs(s0, b, 1);
    assert s1 == Simplifier([], line[..4]);
    CloseRunStep(s1, b[1], b[2]);
    SliceGrows(line, 5);
    var s2 := WalkPairs(s0, b, 2);
    assert s2 == Simplifier([], line[..5]);
    SliceGrows(line, 6);
    RowRunIsStraight(x0, y);
    StraightRunStep(s2, b[2], b[3]);
  }

  /** The line of `HorizontalLineCollapses`, cut into two contours that
      share point 3, still collapses to point 5: the run begun in the first
      contour is completed in the second. A walk that cleared the run at
      each contour would record nothing here. */
  lemma SplitLineCollapses(x0: int, y: int)
    ensures Simplify([HorizontalLine(x0, y)[..4], HorizontalLine(x0, y)[3..]]) == [Point(x0 + 5, y)]
  {
    var line := HorizontalLine(x0, y);
    var cs: seq<seq<Point>> := [line[..4], line[3..]];
    var first: seq<seq<Point>> := [line[..4]];
    assert cs[..1] == first && first[..0] == [];
    SplitLineFirstHalf(x0, y);
    assert WalkAll(START, first) == Simplifier([], line[..3]);
    SplitLineSecondHalf(x0, y);
    assert WalkAll(START, cs) == WalkContour(WalkAll(START, first), line[3..]);
  }
}
