/** The Python driver's line rasteriser (octant-normalised Bresenham), the
    slice it samples along that line, and its clip to the uint8 range. */
module Hw4 {
  import opened Wrappers
  import opened Grid

  /** A Python (x, y) tuple. */
  datatype Point = Point(x: int, y: int)

  function Abs(v: int): nat { if v < 0 then -v else v }

  function Max(a: int, b: int): int { if a < b then b else a }

  function Sign(v: int): int { if v > 0 then 1 else if v < 0 then -1 else 0 }

  function Reversed<T>(s: seq<T>): (r: seq<T>)
    ensures |r| == |s| && forall k :: 0 <= k < |s| ==> r[k] == s[|s| - 1 - k]
  {
    if s == [] then [] else Reversed(s[1..]) + [s[0]]
  }

  lemma ConcatAssoc<T>(a: seq<T>, b: seq<T>, c: seq<T>)
    ensures a + (b + c) == (a + b) + c
  {
  }

  lemma ReversedTwice<T>(s: seq<T>)
    ensures Reversed(Reversed(s)) == s
  {
  }

  /** The endpoints after the steep transpose and the ordering swap. */
  datatype Setup = Setup(x1: int, y1: int, x2: int, y2: int, steep: bool, swapped: bool)

  function Normalise(start: Point, end: Point): (st: Setup)
    ensures st.x1 <= st.x2
  {
    var steep := Abs(end.y - start.y) > Abs(end.x - start.x);
    var a := if steep then Point(start.y, start.x) else start;
    var b := if steep then Point(end.y, end.x) else end;
    if a.x > b.x then Setup(b.x, b.y, a.x, a.y, steep, true)
    else Setup(a.x, a.y, b.x, b.y, steep, false)
  }

  /** The emitted coordinate: transposed back for a steep line. */
  function Emit(x: int, y: int, steep: bool): Point {
    if steep then Point(y, x) else Point(x, y)
  }

  /** The points the loop over range(x, x2 + 1) appends, from the state
      (y, error) it has reached at x. */
  function Walk(x: int, x2: int, y: int, error: int, dx: int, ady: int, ystep: int, steep: bool): seq<Point>
    decreases x2 - x + 1
  {
    if x > x2 then []
    else
      var e := error - ady;
      [Emit(x, y, steep)] +
        (if e < 0 then Walk(x + 1, x2, y + ystep, e + dx, dx, ady, ystep, steep)
         else Walk(x + 1, x2, y, e, dx, ady, ystep, steep))
  }

  /** The loop of `bresenham` over a normalised octant, from its initial
      state: error dx/2 (dx is non-negative there, so int() truncation is
      the floor), ystep towards y2. */
  function WalkOf(x1: int, y1: int, x2: int, y2: int, steep: bool): seq<Point> {
    Walk(x1, x2, y1, (x2 - x1) / 2, x2 - x1, Abs(y2 - y1), if y1 < y2 then 1 else -1, steep)
  }

  /** The whole rasterised path, as `bresenham` returns it. */
  function Line(start: Point, end: Point): seq<Point> {
    var st := Normalise(start, end);
    var w := WalkOf(st.x1, st.y1, st.x2, st.y2, st.steep);
    if st.swapped then Reversed(w) else w
  }

  /** bresenham(start, end) of the Python driver. */
  method Bresenham(start: Point, end: Point) returns (points: seq<Point>)
    ensures points == Line(start, end)
    ensures |points| == Max(Abs(end.x - start.x), Abs(end.y - start.y)) + 1
    ensures points[0] == start && points[|points| - 1] == end
  {
    var x1, y1 := start.x, start.y;
    var x2, y2 := end.x, end.y;
    var dx := x2 - x1;
    var dy := y2 - y1;

    var isSteep := Abs(dy) > Abs(dx);
    if isSteep {
      x1, y1 := y1, x1;
      x2, y2 := y2, x2;
    }

    var swapped := false;
    if x1 > x2 {
      x1, x2 := x2, x1;
      y1, y2 := y2, y1;
      swapped := true;
    }

    assert Normalise(start, end) == Setup(x1, y1, x2, y2, isSteep, swapped);
    points := WalkPoints(x1, y1, x2, y2, isSteep);
    if swapped {
      points := Reversed(points);
    }
    LineLength(start, end);
    LineEndpoints(start, end);
  }

  /** The loop of `bresenham`, after the endpoints have been normalised
      (x1 <= x2): one point per x, the error term deciding when y moves. */
  method WalkPoints(x1: int, y1: int, x2: int, y2: int, isSteep: bool) returns (points: seq<Point>)
    requires x1 <= x2
    ensures points == WalkOf(x1, y1, x2, y2, isSteep)
  {
    var dx := x2 - x1;
    var dy := y2 - y1;

    var error := dx / 2;
    var ystep := if y1 < y2 then 1 else -1;

    var y := y1;
    points := [];
    ghost var whole := WalkOf(x1, y1, x2, y2, isSteep);
    for x := x1 to x2 + 1
      invariant points + Walk(x, x2, y, error, dx, Abs(dy), ystep, isSteep) == whole
    {
      ghost var before, y0, error0 := points, y, error;
      var coord := Emit(x, y, isSteep);
      points := points + [coord];
      error := error - Abs(dy);
      if error < 0 {
        y := y + ystep;
        error := error + dx;
      }
      WalkUnfold(x, x2, y0, error0, dx, Abs(dy), ystep, isSteep, y, error);
      ConcatAssoc(before, [coord], Walk(x + 1, x2, y, error, dx, Abs(dy), ystep, isSteep));
    }
  }

  // ---------------------------------------------------------------------
  // Properties of the walk.

  /** One iteration of the loop: emit, then move the error term. */
  lemma WalkUnfold(x: int, x2: int, y: int, error: int, dx: int, ady: int, ystep: int, steep: bool, y': int, error': int)
    requires x <= x2
    requires error - ady < 0 ==> y' == y + ystep && error' == error - ady + dx
    requires error - ady >= 0 ==> y' == y && error' == error - ady
    ensures Walk(x, x2, y, error, dx, ady, ystep, steep) ==
      [Emit(x, y, steep)] + Walk(x + 1, x2, y', error', dx, ady, ystep, steep)
  {
  }

  lemma {:induction false} WalkLength(x: int, x2: int, y: int, error: int, dx: int, ady: int, ystep: int, steep: bool)
    requires x <= x2 + 1
    ensures |Walk(x, x2, y, error, dx, ady, ystep, steep)| == x2 - x + 1
    decreases x2 - x + 1
  {
    if x <= x2 {
      var e := error - ady;
      if e < 0 { WalkLength(x + 1, x2, y + ystep, e + dx, dx, ady, ystep, steep); }
      else { WalkLength(x + 1, x2, y, e, dx, ady, ystep, steep); }
    }
  }

  /** n steps of size a: the walk's accumulated error changes, kept as
      repeated addition so that the proofs about the walk stay linear. */
  function Times(n: nat, a: int): int {
    if n == 0 then 0 else Times(n - 1, a) + a
  }

  lemma {:induction false} TimesIsProduct(n: nat, a: int)
    ensures Times(n, a) == n * a
  {
    if n > 0 {
      TimesIsProduct(n - 1, a);
    }
  }

  lemma TimesComm(a: nat, b: nat)
    ensures Times(a, b) == Times(b, a)
  {
    TimesIsProduct(a, b);
    TimesIsProduct(b, a);
  }

  /** Unit steps move by the step count. */
  lemma {:induction false} TimesUnit(n: nat, s: int)
    requires s == 1 || s == -1
    ensures s == 1 ==> Times(n, s) == n
    ensures s == -1 ==> Times(n, s) + n == 0
  {
    if n > 0 {
      TimesUnit(n - 1, s);
    }
  }

  /** At least one step of a non-negative size covers that size. */
  lemma {:induction false} TimesCovers(n: nat, a: int)
    requires n > 0 && a >= 0
    ensures Times(n, a) >= a
  {
    TimesIsProduct(n - 1, a);
  }

  /** The last element of a non-empty sequence. */
  function Last<T>(s: seq<T>): T
    requires |s| > 0
  {
    s[|s| - 1]
  }

  /** The last point of the walk: the minor axis has moved by exactly r
      steps, where r is fixed by the error term. */
  lemma {:induction false} WalkLast(x: int, x2: int, y: int, error: int, dx: int, ady: int, ystep: int, steep: bool, r: nat)
    requires x <= x2 && 0 <= ady <= dx && 0 <= error < dx
    requires 0 <= error - Times(x2 - x, ady) + Times(r, dx) < dx
    ensures |Walk(x, x2, y, error, dx, ady, ystep, steep)| > 0
    ensures Last(Walk(x, x2, y, error, dx, ady, ystep, steep)) == Emit(x2, y + Times(r, ystep), steep)
    decreases x2 - x, 1
  {
    if x == x2 {
      if r > 0 {
        TimesCovers(r, dx);
      }
      WalkSingle(x, y, error, dx, ady, ystep, steep);
    } else if error - ady < 0 {
      WalkLastDown(x, x2, y, error, dx, ady, ystep, steep, r);
    } else {
      WalkLastLevel(x, x2, y, error, dx, ady, ystep, steep, r);
    }
  }

  /** WalkLast when the first step moves the minor axis. */
  lemma {:induction false} WalkLastDown(x: int, x2: int, y: int, error: int, dx: int, ady: int, ystep: int, steep: bool, r: nat)
    requires x < x2 && 0 <= ady <= dx && 0 <= error < dx && error - ady < 0
    requires 0 <= error - Times(x2 - x, ady) + Times(r, dx) < dx
    ensures |Walk(x, x2, y, error, dx, ady, ystep, steep)| > 0
    ensures Last(Walk(x, x2, y, error, dx, ady, ystep, steep)) == Emit(x2, y + Times(r, ystep), steep)
    decreases x2 - x, 0
  {
    WalkLastStep(x, x2, y, error, dx, ady, ystep, steep, y + ystep, error - ady + dx);
    DownBound(x, x2, error, dx, ady, r);
    WalkLast(x + 1, x2, y + ystep, error - ady + dx, dx, ady, ystep, steep, r - 1);
    TimesPred(r, ystep);
  }

  /** The error-term bound of WalkLast, one column on, after y moved. */
  lemma DownBound(x: int, x2: int, error: int, dx: int, ady: int, r: nat)
    requires x < x2 && 0 <= ady && error - ady < 0
    requires 0 <= error - Times(x2 - x, ady) + Times(r, dx) < dx
    ensures r > 0
    ensures 0 <= (error - ady + dx) - Times(x2 - (x + 1), ady) + Times(r - 1, dx) < dx
  {
    if r == 0 {
      TimesCovers(x2 - x, ady);
    }
  }

  lemma TimesPred(n: nat, a: int)
    requires n > 0
    ensures Times(n, a) == Times(n - 1, a) + a
  {
  }

  /** WalkLast when the first step keeps the minor axis. */
  lemma {:induction false} WalkLastLevel(x: int, x2: int, y: int, error: int, dx: int, ady: int, ystep: int, steep: bool, r: nat)
    requires x < x2 && 0 <= ady <= dx && 0 <= error < dx && error - ady >= 0
    requires 0 <= error - Times(x2 - x, ady) + Times(r, dx) < dx
    ensures |Walk(x, x2, y, error, dx, ady, ystep, steep)| > 0
    ensures Last(Walk(x, x2, y, error, dx, ady, ystep, steep)) == Emit(x2, y + Times(r, ystep), steep)
    decreases x2 - x, 0
  {
    WalkLastStep(x, x2, y, error, dx, ady, ystep, steep, y, error - ady);
    LevelBound(x, x2, error, dx, ady, r);
    WalkLast(x + 1, x2, y, error - ady, dx, ady, ystep, steep, r);
  }

  /** The error-term bound of WalkLast, one column on, with y kept. */
  lemma LevelBound(x: int, x2: int, error: int, dx: int, ady: int, r: nat)
    requires x < x2
    requires 0 <= error - Times(x2 - x, ady) + Times(r, dx) < dx
    ensures 0 <= (error - ady) - Times(x2 - (x + 1), ady) + Times(r, dx) < dx
  {
  }

  /** A walk over one column is that column's point. */
  lemma WalkSingle(x: int, y: int, error: int, dx: int, ady: int, ystep: int, steep: bool)
    ensures Walk(x, x, y, error, dx, ady, ystep, steep) == [Emit(x, y, steep)]
  {
    var e := error - ady;
    WalkUnfold(x, x, y, error, dx, ady, ystep, steep, if e < 0 then y + ystep else y, if e < 0 then e + dx else e);
  }

  /** The last point of a walk is the last point of its tail. */
  lemma WalkLastStep(x: int, x2: int, y: int, error: int, dx: int, ady: int, ystep: int, steep: bool, y': int, error': int)
    requires x < x2
    requires error - ady < 0 ==> y' == y + ystep && error' == error - ady + dx
    requires error - ady >= 0 ==> y' == y && error' == error - ady
    ensures |Walk(x + 1, x2, y', error', dx, ady, ystep, steep)| > 0
    ensures Last(Walk(x, x2, y, error, dx, ady, ystep, steep)) == Last(Walk(x + 1, x2, y', error', dx, ady, ystep, steep))
  {
    WalkUnfold(x, x2, y, error, dx, ady, ystep, steep, y', error');
    WalkUnfold(x + 1, x2, y', error', dx, ady, ystep, steep,
      if error' - ady < 0 then y' + ystep else y', if error' - ady < 0 then error' - ady + dx else error' - ady);
  }

  /** Point k of w sits at x + k on the major axis, and the step to point
      k + 1 moves the major axis by 1 and the minor axis by 0 or ystep. */
  predicate StepAt(w: seq<Point>, x: int, k: nat, ystep: int, steep: bool)
    requires k < |w|
  {
    Major(w[k], steep) == x + k &&
    (k + 1 < |w| ==>
      (Major(w[k + 1], steep) - Major(w[k], steep) == 1 &&
       (Minor(w[k + 1], steep) == Minor(w[k], steep) ||
        Minor(w[k + 1], steep) - Minor(w[k], steep) == ystep)))
  }

  /** Every point of the walk satisfies StepAt. */
  lemma {:induction false} WalkSteps(x: int, x2: int, y: int, error: int, dx: int, ady: int, ystep: int, steep: bool, k: nat)
    requires x <= x2 + 1 && k < x2 - x + 1
    ensures |Walk(x, x2, y, error, dx, ady, ystep, steep)| == x2 - x + 1
    ensures StepAt(Walk(x, x2, y, error, dx, ady, ystep, steep), x, k, ystep, steep)
    decreases x2 - x + 1, 1
  {
    var e := error - ady;
    var y', e' := if e < 0 then y + ystep else y, if e < 0 then e + dx else e;
    WalkLength(x, x2, y, error, dx, ady, ystep, steep);
    if k > 0 {
      WalkStepsTail(x, x2, y, error, dx, ady, ystep, steep, k, y', e');
    } else {
      WalkStepsHead(x, x2, y, error, dx, ady, ystep, steep, y', e');
    }
  }

  /** WalkSteps past the first point: the tail's own steps. */
  lemma {:induction false} WalkStepsTail(x: int, x2: int, y: int, error: int, dx: int, ady: int, ystep: int, steep: bool,
                                         k: nat, y': int, e': int)
    requires 0 < k < x2 - x + 1
    requires error - ady < 0 ==> y' == y + ystep && e' == error - ady + dx
    requires error - ady >= 0 ==> y' == y && e' == error - ady
    ensures |Walk(x, x2, y, error, dx, ady, ystep, steep)| == x2 - x + 1
    ensures StepAt(Walk(x, x2, y, error, dx, ady, ystep, steep), x, k, ystep, steep)
    decreases x2 - x + 1, 0
  {
    var w := Walk(x, x2, y, error, dx, ady, ystep, steep);
    var tail := Walk(x + 1, x2, y', e', dx, ady, ystep, steep);
    WalkUnfold(x, x2, y, error, dx, ady, ystep, steep, y', e');
    WalkSteps(x + 1, x2, y', e', dx, ady, ystep, steep, k - 1);
    assert w == [Emit(x, y, steep)] + tail;
    assert w[k] == tail[k - 1];
    if k + 1 < |w| {
      assert w[k + 1] == tail[k];
    }
  }

  /** WalkSteps at the first point. */
  lemma WalkStepsHead(x: int, x2: int, y: int, error: int, dx: int, ady: int, ystep: int, steep: bool, y': int, e': int)
    requires x <= x2
    requires error - ady < 0 ==> y' == y + ystep && e' == error - ady + dx
    requires error - ady >= 0 ==> y' == y && e' == error - ady
    ensures |Walk(x, x2, y, error, dx, ady, ystep, steep)| == x2 - x + 1
    ensures StepAt(Walk(x, x2, y, error, dx, ady, ystep, steep), x, 0, ystep, steep)
  {
    var w := Walk(x, x2, y, error, dx, ady, ystep, steep);
    var tail := Walk(x + 1, x2, y', e', dx, ady, ystep, steep);
    WalkUnfold(x, x2, y, error, dx, ady, ystep, steep, y', e');
    WalkLength(x, x2, y, error, dx, ady, ystep, steep);
    assert w == [Emit(x, y, steep)] + tail;
    if x + 1 <= x2 {
      WalkUnfold(x + 1, x2, y', e', dx, ady, ystep, steep, if e' - ady < 0 then y' + ystep else y',
        if e' - ady < 0 then e' - ady + dx else e' - ady);
      assert w[1] == tail[0] == Emit(x + 1, y', steep);
    }
  }

  function Major(p: Point, steep: bool): int { if steep then p.y else p.x }
  function Minor(p: Point, steep: bool): int { if steep then p.x else p.y }

  // ---------------------------------------------------------------------
  // Properties of the rasterised path.

  /** The path has max(|dx|, |dy|) + 1 points. */
  lemma LineLength(start: Point, end: Point)
    ensures |Line(start, end)| == Max(Abs(end.x - start.x), Abs(end.y - start.y)) + 1
  {
    var st := Normalise(start, end);
    var dx, dy := st.x2 - st.x1, st.y2 - st.y1;
    WalkLength(st.x1, st.x2, st.y1, dx / 2, dx, Abs(dy), if st.y1 < st.y2 then 1 else -1, st.steep);
  }

  /** What the transpose and the swap leave: a walk along a non-steep
      octant whose emitted endpoints are the caller's endpoints. */
  lemma NormaliseFacts(start: Point, end: Point)
    ensures var st := Normalise(start, end);
      Abs(st.y2 - st.y1) <= st.x2 - st.x1 &&
      Emit(st.x1, st.y1, st.steep) == (if st.swapped then end else start) &&
      Emit(st.x2, st.y2, st.steep) == (if st.swapped then start else end)
  {
  }

  /** First and last point of a walk over a non-steep octant. */
  lemma WalkEnds(x1: int, y1: int, x2: int, y2: int, steep: bool)
    requires x1 <= x2 && Abs(y2 - y1) <= x2 - x1
    ensures var w := WalkOf(x1, y1, x2, y2, steep);
      |w| == x2 - x1 + 1 && w[0] == Emit(x1, y1, steep) && w[|w| - 1] == Emit(x2, y2, steep)
  {
    var dx, ady, ystep := x2 - x1, Abs(y2 - y1), if y1 < y2 then 1 else -1;
    var w := Walk(x1, x2, y1, dx / 2, dx, ady, ystep, steep);
    WalkSteps(x1, x2, y1, dx / 2, dx, ady, ystep, steep, 0);
    assert w[0] == Emit(x1, y1, steep);
    if dx > 0 {
      WalkOfLast(x1, y1, x2, y2, steep);
      assert w[|w| - 1] == Last(w);
    } else {
      assert y1 == y2;
    }
  }

  /** The last point of a walk over a non-steep octant is its far endpoint:
      the error term, started at dx / 2, lets the minor axis move exactly
      |y2 - y1| times. */
  lemma WalkOfLast(x1: int, y1: int, x2: int, y2: int, steep: bool)
    requires x1 < x2 && Abs(y2 - y1) <= x2 - x1
    ensures |WalkOf(x1, y1, x2, y2, steep)| > 0
    ensures Last(WalkOf(x1, y1, x2, y2, steep)) == Emit(x2, y2, steep)
  {
    var dx: nat, ady := x2 - x1, Abs(y2 - y1);
    var ystep := if y1 < y2 then 1 else -1;
    TimesComm(dx, ady);
    TimesUnit(ady, ystep);
    WalkLast(x1, x2, y1, dx / 2, dx, ady, ystep, steep, ady);
  }

  /** One step of a walk over a non-steep octant: one unit along the major
      axis, none or one unit along the minor axis towards y2. */
  lemma WalkOfStep(x1: int, y1: int, x2: int, y2: int, steep: bool, i: nat)
    requires x1 <= x2 && i < x2 - x1
    ensures var w := WalkOf(x1, y1, x2, y2, steep);
      |w| == x2 - x1 + 1 &&
      Major(w[i + 1], steep) - Major(w[i], steep) == 1 &&
      (Minor(w[i + 1], steep) == Minor(w[i], steep) ||
       Minor(w[i + 1], steep) - Minor(w[i], steep) == Sign(y2 - y1))
  {
    var dx, ady, ystep := x2 - x1, Abs(y2 - y1), if y1 < y2 then 1 else -1;
    WalkSteps(x1, x2, y1, dx / 2, dx, ady, ystep, steep, i);
    if ady == 0 {
      ConstantMinor(x1, x2, y1, dx / 2, dx, ystep, steep, i);
      ConstantMinor(x1, x2, y1, dx / 2, dx, ystep, steep, i + 1);
    }
  }

  /** The path starts at start and ends at end, also when the endpoints
      were swapped for the walk. */
  lemma LineEndpoints(start: Point, end: Point)
    ensures |Line(start, end)| > 0
    ensures Line(start, end)[0] == start && Line(start, end)[|Line(start, end)| - 1] == end
  {
    var st := Normalise(start, end);
    NormaliseFacts(start, end);
    WalkEnds(st.x1, st.y1, st.x2, st.y2, st.steep);
  }

  /** Swapping the arguments gives the same octant walk with the swap flag
      flipped. */
  lemma NormaliseSwap(a: Point, b: Point)
    requires a != b
    ensures var sa, sb := Normalise(a, b), Normalise(b, a);
      sa.x1 == sb.x1 && sa.y1 == sb.y1 && sa.x2 == sb.x2 && sa.y2 == sb.y2 &&
      sa.steep == sb.steep && sa.swapped != sb.swapped
  {
  }

  /** Walking from end to start gives the same points in reverse order. */
  lemma LineSymmetric(a: Point, b: Point)
    ensures Line(b, a) == Reversed(Line(a, b))
  {
    if a == b {
      LineDegenerate(a);
    } else {
      NormaliseSwap(a, b);
      var sa := Normalise(a, b);
      var w := WalkOf(sa.x1, sa.y1, sa.x2, sa.y2, sa.steep);
      assert Line(a, b) == if sa.swapped then Reversed(w) else w;
      assert Line(b, a) == if sa.swapped then w else Reversed(w);
      ReversedTwice(w);
    }
  }

  /** A segment from a point to itself is that point alone. */
  lemma LineDegenerate(a: Point)
    ensures Line(a, a) == [a]
  {
    LineLength(a, a);
    LineEndpoints(a, a);
  }

  /** One step of the path from p to q: one unit along the major axis
      towards end, and none or one unit along the minor axis towards end. */
  predicate StepTowards(p: Point, q: Point, start: Point, end: Point) {
    var steep := Abs(end.y - start.y) > Abs(end.x - start.x);
    Major(q, steep) - Major(p, steep) == Sign(Major(end, steep) - Major(start, steep)) &&
    (Minor(q, steep) == Minor(p, steep) ||
     Minor(q, steep) - Minor(p, steep) == Sign(Minor(end, steep) - Minor(start, steep)))
  }

  /** Consecutive points step towards end. Which axis is major is decided
      by the steep test; the points are in the caller's (x, y) frame. */
  lemma LineSteps(start: Point, end: Point, k: nat)
    requires k + 1 < |Line(start, end)|
    ensures StepTowards(Line(start, end)[k], Line(start, end)[k + 1], start, end)
  {
    var st := Normalise(start, end);
    LineLength(start, end);
    NormaliseSigns(start, end);
    var w := WalkOf(st.x1, st.y1, st.x2, st.y2, st.steep);
    var n := |w|;
    var i := if st.swapped then n - 2 - k else k;
    WalkOfStep(st.x1, st.y1, st.x2, st.y2, st.steep, i);
    var l := Line(start, end);
    assert l == if st.swapped then Reversed(w) else w;
    if st.swapped {
      assert l[k] == w[i + 1] && l[k + 1] == w[i];
    } else {
      assert l[k] == w[i] && l[k + 1] == w[i + 1];
    }
  }

  /** The directions of the caller's segment, read off the normalised walk:
      the major axis runs forwards unless the endpoints were swapped, and
      the minor axis runs like the walk's y2 - y1, flipped by the swap. */
  lemma NormaliseSigns(start: Point, end: Point)
    requires start != end
    ensures var st, steep := Normalise(start, end), Abs(end.y - start.y) > Abs(end.x - start.x);
      st.steep == steep && st.x1 < st.x2 &&
      Sign(Major(end, steep) - Major(start, steep)) == (if st.swapped then -1 else 1) &&
      Sign(Minor(end, steep) - Minor(start, steep)) == (if st.swapped then -1 else 1) * Sign(st.y2 - st.y1)
  {
  }

  /** With no minor extent the error never drops below 0, so the minor axis
      never moves. */
  lemma {:induction false} ConstantMinor(x: int, x2: int, y: int, error: int, dx: int, ystep: int, steep: bool, k: nat)
    requires x <= x2 + 1 && k < x2 - x + 1 && error >= 0
    ensures |Walk(x, x2, y, error, dx, 0, ystep, steep)| == x2 - x + 1
    ensures Minor(Walk(x, x2, y, error, dx, 0, ystep, steep)[k], steep) == y
    decreases x2 - x + 1
  {
    WalkLength(x, x2, y, error, dx, 0, ystep, steep);
    if k > 0 {
      ConstantMinor(x + 1, x2, y, error, dx, ystep, steep, k - 1);
    }
  }

  /** Chebyshev distance 1 between consecutive points (connectivity). */
  lemma LineConnected(start: Point, end: Point, k: nat)
    requires k + 1 < |Line(start, end)|
    ensures Max(Abs(Line(start, end)[k + 1].x - Line(start, end)[k].x),
                Abs(Line(start, end)[k + 1].y - Line(start, end)[k].y)) == 1
  {
    LineSteps(start, end, k);
    LineLength(start, end);
  }

  // ---------------------------------------------------------------------
  // The slice along the path, and the uint8 clip.

  /** numpy's reading of one index into an axis of length n: negative
      indices count from the end, anything outside [-n, n) is an
      IndexError (None). */
  function NumpyIndex(i: int, n: nat): (r: Option<nat>)
    ensures r.Some? ==> r.value < n
    ensures 0 <= i < n ==> r == Some(i)
    ensures i < 0 <= i + n ==> r == Some(i + n)
    ensures r.None? <==> (i + n < 0 || n <= i)
  {
    if 0 <= i < n then Some(i)
    else if i < 0 <= i + n then Some(i + n)
    else None
  }

  /** fg[y, x] does not raise. */
  predicate Indexable(fg: Matrix<int>, p: Point) {
    NumpyIndex(p.y, fg.rows).Some? && NumpyIndex(p.x, fg.cols).Some?
  }

  /** The value fg[y, x]: row y, column x. */
  function Sample(fg: Matrix<int>, p: Point): int
    requires fg.Valid() && Indexable(fg, p)
  {
    fg.At(NumpyIndex(p.y, fg.rows).value, NumpyIndex(p.x, fg.cols).value)
  }

  /** The slice-filling loop of `main`: frame i's samples along the path go
      into rows 2i and 2i + 1. The first index that numpy rejects raises
      IndexError, and then no slice is produced. */
  method BuildSlice(fgs: seq<Matrix<int>>, lineIdxs: seq<Point>) returns (r: Result<Matrix<int>>)
    requires forall i :: 0 <= i < |fgs| ==> fgs[i].Valid()
    ensures r.Success? <==>
      forall i, j :: 0 <= i < |fgs| && 0 <= j < |lineIdxs| ==> Indexable(fgs[i], lineIdxs[j])
    ensures r.Failure? ==> r.error == IndexError
    ensures r.Success? ==>
      var s := r.value;
      s.Valid() && s.rows == 2 * |fgs| && s.cols == |lineIdxs| &&
      forall i, j :: 0 <= i < |fgs| && 0 <= j < |lineIdxs| ==>
        s.At(2 * i, j) == Sample(fgs[i], lineIdxs[j]) &&
        s.At(2 * i + 1, j) == Sample(fgs[i], lineIdxs[j])
  {
    var sliceImg := new int[2 * |fgs|, |lineIdxs|]((_, _) => 0);
    for i := 0 to |fgs|
      invariant forall i', j :: 0 <= i' < i && 0 <= j < |lineIdxs| ==>
        Indexable(fgs[i'], lineIdxs[j]) &&
        sliceImg[2 * i', j] == Sample(fgs[i'], lineIdxs[j]) &&
        sliceImg[2 * i' + 1, j] == Sample(fgs[i'], lineIdxs[j])
    {
      var ok := FillRows(sliceImg, i, fgs[i], lineIdxs);
      if !ok {
        return Failure(IndexError);
      }
    }
    var s := FromArray2(sliceImg);
    return Success(s);
  }

  /** One frame of the slice-filling loop: fg's samples along the path go
      into rows 2i and 2i + 1; ok is false at the first index numpy
      rejects. */
  method FillRows(sliceImg: array2<int>, i: nat, fg: Matrix<int>, lineIdxs: seq<Point>) returns (ok: bool)
    requires fg.Valid() && 2 * i + 1 < sliceImg.Length0 && sliceImg.Length1 == |lineIdxs|
    modifies sliceImg
    ensures ok <==> forall j :: 0 <= j < |lineIdxs| ==> Indexable(fg, lineIdxs[j])
    ensures ok ==> forall j :: 0 <= j < |lineIdxs| ==>
      sliceImg[2 * i, j] == Sample(fg, lineIdxs[j]) && sliceImg[2 * i + 1, j] == Sample(fg, lineIdxs[j])
    ensures forall r, c :: 0 <= r < sliceImg.Length0 && 0 <= c < sliceImg.Length1 && r != 2 * i && r != 2 * i + 1 ==>
      sliceImg[r, c] == old(sliceImg[r, c])
  {
    for j := 0 to |lineIdxs|
      invariant forall j' :: 0 <= j' < j ==>
        Indexable(fg, lineIdxs[j']) &&
        sliceImg[2 * i, j'] == Sample(fg, lineIdxs[j']) &&
        sliceImg[2 * i + 1, j'] == Sample(fg, lineIdxs[j'])
      invariant forall r, c :: 0 <= r < sliceImg.Length0 && 0 <= c < sliceImg.Length1 && r != 2 * i && r != 2 * i + 1 ==>
        sliceImg[r, c] == old(sliceImg[r, c])
    {
      var p := lineIdxs[j];
      var row, col := NumpyIndex(p.y, fg.rows), NumpyIndex(p.x, fg.cols);
      if row.None? || col.None? {
        return false;
      }
      var value := fg.At(row.value, col.value);
      sliceImg[2 * i, j] := value;
      sliceImg[2 * i + 1, j] := value;
    }
    return true;
  }

  /** np.clip(v, 0, 255) */
  function Clip(v: int): int {
    if v < 0 then 0 else if v > 255 then 255 else v
  }

  /** to_uint8: clip every entry to [0, 255]; the cast after the clip
      changes nothing. */
  function ToUint8(m: Matrix<int>): (r: Matrix<int>)
    ensures r.rows == m.rows && r.cols == m.cols && |r.data| == |m.data|
    ensures forall k :: 0 <= k < |r.data| ==> 0 <= r.data[k] <= 255
    ensures forall k :: 0 <= k < |m.data| && 0 <= m.data[k] <= 255 ==> r.data[k] == m.data[k]
  {
    Matrix(m.rows, m.cols, seq(|m.data|, k requires 0 <= k < |m.data| => Clip(m.data[k])))
  }

  /** Clipping twice is clipping once. */
  lemma ToUint8Idempotent(m: Matrix<int>)
    ensures ToUint8(ToUint8(m)) == ToUint8(m)
  {
  }

  /** The clip keeps the order of entries. */
  lemma ToUint8Monotone(m: Matrix<int>, k: nat, l: nat)
    requires k < |m.data| && l < |m.data| && m.data[k] <= m.data[l]
    ensures ToUint8(m).data[k] <= ToUint8(m).data[l]
  {
  }
}
