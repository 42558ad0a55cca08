/** The C++ crossing counter: Angel's integer Bresenham, the thresholded
    slice along the line, the odd median-kernel rule, and the blob
    filtering that yields the car count. */
module PngTest {
  import opened Grid
  import opened Label

  /** sipl::Vector2i: element [0] is x, element [1] is y. */
  datatype Vector2i = Vector2i(x: int, y: int)

  function Abs(v: int): nat { if v < 0 then -v else v }

  function Max(a: int, b: int): int { if a < b then b else a }

  /** The increment towards b along one axis: -1 only when b < a. */
  function Inc(a: int, b: int): int { if b < a then -1 else 1 }

  /** a moved n units in the direction of inc (+1 or -1). */
  function Move(a: int, inc: int, n: int): int { if inc < 0 then a - n else a + n }

  /** One step from p to q: the major axis (x when |dx| > |dy|, else y)
      moves by its increment, the minor axis by 0 or by its increment. */
  predicate Step(p: Vector2i, q: Vector2i, p1: Vector2i, p2: Vector2i) {
    var incx, incy := Inc(p1.x, p2.x), Inc(p1.y, p2.y);
    if Abs(p2.x - p1.x) > Abs(p2.y - p1.y) then XStep(p, q, incx, incy) else YStep(p, q, incx, incy)
  }

  /** A step along an x-major line. */
  predicate XStep(p: Vector2i, q: Vector2i, incx: int, incy: int) {
    q.x - p.x == incx && (q.y == p.y || q.y - p.y == incy)
  }

  /** A step along a y-major line. */
  predicate YStep(p: Vector2i, q: Vector2i, incx: int, incy: int) {
    q.y - p.y == incy && (q.x == p.x || q.x - p.x == incx)
  }

  /** From the error term's bounds after all d steps: the minor axis moved
      exactly m times. */
  lemma MinorCount(d: int, m: int, s: int, e: int, id: int, sd: int)
    requires d > 0 && 0 <= m <= d
    requires id == (d + 1) * m && sd == s * d && e == 2 * id - 2 * sd - d
    requires 2 * m - 2 * d <= e < 2 * m
    ensures s == m
  {
    var c := 2 * m - 2 * s - 1;
    assert e - 2 * m == d * c by {
      MulSucc(d, m);
      assert id == d * m + m;
      assert d * c == 2 * (d * m) - 2 * (s * d) - d;
    }
    OnlyMultiple(d, c);
  }

  /** The only odd multiple of d in [-2d, 0) is -d. */
  lemma OnlyMultiple(d: int, c: int)
    requires d > 0 && c % 2 == 1 && -2 * d <= d * c < 0
    ensures c == -1
  {
  }

  lemma MulSucc(a: int, b: int)
    ensures (a + 1) * b == a * b + b
  {
  }

  /** bresenham(p1, p2): Angel's integer version, with the error term e
      deciding when the minor axis moves. */
  method Bresenham(p1: Vector2i, p2: Vector2i) returns (points: seq<Vector2i>)
    ensures |points| == Max(Abs(p2.x - p1.x), Abs(p2.y - p1.y)) + 1
    ensures points[0] == p1 && points[|points| - 1] == p2
    ensures forall k :: 0 <= k < |points| - 1 ==> Step(points[k], points[k + 1], p1, p2)
    ensures Abs(p2.x - p1.x) == Abs(p2.y - p1.y) ==>
      forall k :: 0 <= k < |points| - 1 ==>
        points[k + 1] == Vector2i(points[k].x + Inc(p1.x, p2.x), points[k].y + Inc(p1.y, p2.y))
  {
    var dx, dy: int;
    var incx, incy: int;
    var x, y: int;

    dx := p2.x - p1.x;
    dy := p2.y - p1.y;

    if dx < 0 {
      dx := -dx;
    }
    if dy < 0 {
      dy := -dy;
    }
    incx := 1;
    if p2.x < p1.x {
      incx := -1;
    }
    incy := 1;
    if p2.y < p1.y {
      incy := -1;
    }
    x := p1.x;
    y := p1.y;
    assert incx == Inc(p1.x, p2.x) && incy == Inc(p1.y, p2.y);
    assert dx == Abs(p2.x - p1.x) && dy == Abs(p2.y - p1.y);

    if dx > dy {
      points := XMajor(x, y, dx, dy, incx, incy);
    } else {
      points := YMajor(x, y, dx, dy, incx, incy);
    }
  }

  /** The dx > dy branch: x advances every step, y when e >= 0. */
  method XMajor(x0: int, y0: int, dx: int, dy: int, incx: int, incy: int) returns (points: seq<Vector2i>)
    requires 0 <= dy < dx && (incx == 1 || incx == -1) && (incy == 1 || incy == -1)
    ensures |points| == dx + 1 && points[0] == Vector2i(x0, y0)
    ensures points[dx] == Vector2i(Move(x0, incx, dx), Move(y0, incy, dy))
    ensures forall k :: 0 <= k < dx ==> XStep(points[k], points[k + 1], incx, incy)
  {
    var x, y := x0, y0;
    points := [Vector2i(x, y)];
    var e := 2 * dy - dx;
    var inc1 := 2 * (dy - dx);
    var inc2 := 2 * dy;
    ghost var s, sd, id := 0, 0, dy;
    for i := 0 to dx
      invariant |points| == i + 1 && points[0] == Vector2i(x0, y0)
      invariant points[i] == Vector2i(x, y)
      invariant 0 <= s <= i
      invariant x == Move(x0, incx, i) && y == Move(y0, incy, s)
      invariant sd == s * dx && id == (i + 1) * dy
      invariant e == 2 * id - 2 * sd - dx
      invariant 2 * dy - 2 * dx <= e < 2 * dy
      invariant forall k :: 0 <= k < i ==> XStep(points[k], points[k + 1], incx, incy)
    {
      if e >= 0 {
        y := y + incy;
        e := e + inc1;
        MulSucc(s, dx);
        s, sd := s + 1, sd + dx;
      } else {
        e := e + inc2;
      }
      MulSucc(i + 1, dy);
      id := id + dy;
      x := x + incx;
      points := points + [Vector2i(x, y)];
    }
    MinorCount(dx, dy, s, e, id, sd);
  }

  /** The dx <= dy branch: y advances every step, x when e >= 0; with
      dx == dy the error term stays at dx and every step is diagonal. */
  method YMajor(x0: int, y0: int, dx: int, dy: int, incx: int, incy: int) returns (points: seq<Vector2i>)
    requires 0 <= dx <= dy && (incx == 1 || incx == -1) && (incy == 1 || incy == -1)
    ensures |points| == dy + 1 && points[0] == Vector2i(x0, y0)
    ensures points[dy] == Vector2i(Move(x0, incx, dx), Move(y0, incy, dy))
    ensures forall k :: 0 <= k < dy ==> YStep(points[k], points[k + 1], incx, incy)
    ensures dx == dy ==> forall k :: 0 <= k < dy ==>
      points[k + 1] == Vector2i(points[k].x + incx, points[k].y + incy)
  {
    var x, y := x0, y0;
    points := [Vector2i(x, y)];
    var e := 2 * dx - dy;
    var inc1 := 2 * (dx - dy);
    var inc2 := 2 * dx;
    ghost var s, sd, id := 0, 0, dx;
    for i := 0 to dy
      invariant |points| == i + 1 && points[0] == Vector2i(x0, y0)
      invariant points[i] == Vector2i(x, y)
      invariant 0 <= s <= i
      invariant y == Move(y0, incy, i) && x == Move(x0, incx, s)
      invariant sd == s * dy && id == (i + 1) * dx
      invariant e == 2 * id - 2 * sd - dy
      invariant dy > 0 ==> 2 * dx - 2 * dy <= e < 2 * dx
      invariant dx == dy ==> e == dx && s == i
      invariant forall k :: 0 <= k < i ==> YStep(points[k], points[k + 1], incx, incy)
      invariant dx == dy ==> forall k :: 0 <= k < i ==>
        points[k + 1] == Vector2i(points[k].x + incx, points[k].y + incy)
    {
      if e >= 0 {
        x := x + incx;
        e := e + inc1;
        MulSucc(s, dy);
        s, sd := s + 1, sd + dy;
      } else {
        e := e + inc2;
      }
      MulSucc(i + 1, dx);
      id := id + dx;
      y := y + incy;
      points := points + [Vector2i(x, y)];
    }
    if dy > 0 {
      MinorCount(dy, dx, s, e, id, sd);
    }
  }

  /** The slice along the line (lines 59-72): frame i's thresholded image
      sampled at every path point, written to rows 2i and 2i + 1; a point
      (x, y) reads row y, column x. The thresholded frames are inputs; the
      background subtraction that produces them is floating point. */
  method BuildSlice(thresh: seq<Matrix<int>>, points: seq<Vector2i>) returns (slice: Matrix<int>)
    requires forall i :: 0 <= i < |thresh| ==> thresh[i].Valid()
    requires forall i, p :: 0 <= i < |thresh| && 0 <= p < |points| ==>
      0 <= points[p].y < thresh[i].rows && 0 <= points[p].x < thresh[i].cols
    ensures slice.Valid() && slice.rows == 2 * |thresh| && slice.cols == |points|
    ensures forall i, p :: 0 <= i < |thresh| && 0 <= p < |points| ==>
      slice.At(2 * i, p) == thresh[i].At(points[p].y, points[p].x) &&
      slice.At(2 * i + 1, p) == thresh[i].At(points[p].y, points[p].x)
  {
    var img := new int[2 * |thresh|, |points|];
    for i := 0 to |thresh|
      invariant forall i', p :: 0 <= i' < i && 0 <= p < |points| ==>
        img[2 * i', p] == thresh[i'].At(points[p].y, points[p].x) &&
        img[2 * i' + 1, p] == thresh[i'].At(points[p].y, points[p].x)
    {
      for p := 0 to |points|
        invariant forall i', p' :: 0 <= i' < i && 0 <= p' < |points| ==>
          img[2 * i', p'] == thresh[i'].At(points[p'].y, points[p'].x) &&
          img[2 * i' + 1, p'] == thresh[i'].At(points[p'].y, points[p'].x)
        invariant forall p' :: 0 <= p' < p ==>
          img[2 * i, p'] == thresh[i].At(points[p'].y, points[p'].x) &&
          img[2 * i + 1, p'] == thresh[i].At(points[p'].y, points[p'].x)
      {
        img[2 * i, p] := thresh[i].At(points[p].y, points[p].x);
        img[2 * i + 1, p] := thresh[i].At(points[p].y, points[p].x);
      }
    }
    slice := FromArray2(img);
  }

  /** The median kernel size (lines 77-80): the truncated 2% of the path
      length, bumped to the next odd number when even. */
  method OddKernelSize(truncated: nat) returns (ksize: nat)
    ensures ksize % 2 == 1
    ensures truncated % 2 == 1 ==> ksize == truncated
    ensures truncated % 2 == 0 ==> ksize == truncated + 1
  {
    ksize := truncated;
    if ksize % 2 == 0 {
      ksize := ksize + 1;
    }
  }

  /** average_mass: the total mass over the number of components. */
  function AverageMass(cs: seq<Blob>): real
    requires |cs| > 0
  {
    TotalMass(cs) as real / |cs| as real
  }

  /** Some component weighs at least the average. */
  lemma {:induction false} HeaviestAtLeastAverage(cs: seq<Blob>)
    requires |cs| > 0
    ensures exists a :: 0 <= a < |cs| && cs[a].mass * |cs| >= TotalMass(cs)
  {
    if |cs| > 1 {
      var init := cs[..|cs| - 1];
      var last := cs[|cs| - 1];
      HeaviestAtLeastAverage(init);
      var a :| 0 <= a < |init| && init[a].mass * |init| >= TotalMass(init);
      assert init[a] == cs[a];
      assert TotalMass(cs) == TotalMass(init) + last.mass;
      if last.mass <= cs[a].mass {
        HeavierStep(cs[a].mass, last.mass, |init|, TotalMass(init));
      } else {
        HeavierStep(last.mass, cs[a].mass, |init|, TotalMass(init));
        HeavierStep(last.mass, last.mass, |init|, TotalMass(init));
      }
    } else {
      assert cs[..0] == [];
      assert cs[0].mass * |cs| >= TotalMass(cs);
    }
  }

  /** m * n >= t over the naturals gives m >= t / n over the reals. */
  lemma AtLeastQuotient(m: nat, n: nat, t: nat)
    requires n > 0 && m * n >= t
    ensures m as real >= t as real / n as real
  {
    var q := t as real / n as real;
    assert q * n as real == t as real;
    assert (m * n) as real == m as real * n as real;
    if m as real < q {
      assert m as real * n as real < q * n as real;
    }
  }

  /** The running-maximum step: if m * n covers t and m >= the next mass
      v, then m * (n + 1) covers t + v (and likewise when m >= k and k * n
      covers t). */
  lemma HeavierStep(m: nat, v: nat, n: nat, t: nat)
    requires v <= m
    ensures m * n >= t ==> m * (n + 1) >= t + v
    ensures v * n >= t ==> m * n >= t
  {
    assert m * (n + 1) == m * n + m;
    assert v * n <= m * n;
  }

  /** std::partition by `mass >= cutoff` (lines 95-100): the large blobs
      followed by the small ones are a rearrangement of the components. */
  method PartitionBlobs(cs: seq<Blob>, cutoff: real) returns (large: seq<Blob>, small: seq<Blob>)
    ensures multiset(large + small) == multiset(cs)
    ensures forall b :: b in large ==> b.mass as real >= cutoff
    ensures forall b :: b in small ==> b.mass as real < cutoff
  {
    large, small := [], [];
    for k := 0 to |cs|
      invariant multiset(large + small) == multiset(cs[..k])
      invariant forall b :: b in large ==> b.mass as real >= cutoff
      invariant forall b :: b in small ==> b.mass as real < cutoff
    {
      assert cs[..k + 1] == cs[..k] + [cs[k]];
      if cs[k].mass as real >= cutoff {
        large := large + [cs[k]];
      } else {
        small := small + [cs[k]];
      }
    }
    assert cs[..|cs|] == cs;
  }

  /** The cutoff for small blobs: 0.2 of the average mass. */
  function RemoveCutoff(cs: seq<Blob>): real
    requires |cs| > 0
  {
    0.2 * AverageMass(cs)
  }

  /** With the 0.2-of-average cutoff, a non-empty component list never
      loses all its blobs: the heaviest one is large. */
  lemma LargeNonEmpty(cs: seq<Blob>, large: seq<Blob>, small: seq<Blob>)
    requires |cs| > 0
    requires multiset(large + small) == multiset(cs)
    requires forall b :: b in small ==> b.mass as real < RemoveCutoff(cs)
    ensures large != []
  {
    HeaviestAtLeastAverage(cs);
    var a :| 0 <= a < |cs| && cs[a].mass * |cs| >= TotalMass(cs);
    AtLeastQuotient(cs[a].mass, |cs|, TotalMass(cs));
    assert cs[a].mass as real >= AverageMass(cs);
    assert AverageMass(cs) >= 0.0;
    assert cs[a] in multiset(large + small);
    assert cs[a] !in small;
  }

  /** Erasing the small blobs (lines 103-107): each listed index (row,
      column) is set to 0 in the slice; nothing else changes. */
  method EraseBlobs(slice: array2<int>, small: seq<Blob>)
    requires forall x :: x in Flat(small) ==> 0 <= x.r < slice.Length0 && 0 <= x.c < slice.Length1
    modifies slice
    ensures forall r, c :: 0 <= r < slice.Length0 && 0 <= c < slice.Length1 ==>
      slice[r, c] == if Pixel(r, c) in Flat(small) then 0 else old(slice[r, c])
  {
    for b := 0 to |small|
      invariant forall r, c :: 0 <= r < slice.Length0 && 0 <= c < slice.Length1 ==>
        slice[r, c] == if Pixel(r, c) in Flat(small[..b]) then 0 else old(slice[r, c])
    {
      FlatAppend(small[..b], small[b]);
      assert small[..b + 1] == small[..b] + [small[b]];
      forall x | x in small[b].indices ensures 0 <= x.r < slice.Length0 && 0 <= x.c < slice.Length1 {
        assert x in Flat(small);
      }
      EraseIndices(slice, small[b].indices);
    }
    assert small[..|small|] == small;
  }

  /** The inner loop: the indices of one blob are set to 0. */
  method EraseIndices(slice: array2<int>, indices: seq<Pixel>)
    requires forall x :: x in indices ==> 0 <= x.r < slice.Length0 && 0 <= x.c < slice.Length1
    modifies slice
    ensures forall r, c :: 0 <= r < slice.Length0 && 0 <= c < slice.Length1 ==>
      slice[r, c] == if Pixel(r, c) in indices then 0 else old(slice[r, c])
  {
    for k := 0 to |indices|
      invariant forall r, c :: 0 <= r < slice.Length0 && 0 <= c < slice.Length1 ==>
        slice[r, c] == if Pixel(r, c) in indices[..k] then 0 else old(slice[r, c])
    {
      var i := indices[k];
      assert indices[..k + 1] == indices[..k] + [i];
      slice[i.r, i.c] := 0;
    }
    assert indices[..|indices|] == indices;
  }

  /** The number of blobs heavier than the cutoff. */
  function Heavy(cs: seq<Blob>, cutoff: real): (n: nat)
    ensures n <= |cs|
  {
    if cs == [] then 0 else Heavy(cs[..|cs| - 1], cutoff) + (if cs[|cs| - 1].mass as real > cutoff then 1 else 0)
  }

  /** The car count (lines 117-122): one per large blob, plus one more for
      each blob heavier than 1.5 times the large blobs' average mass. */
  method CarCount(large: seq<Blob>) returns (count: nat)
    ensures |large| <= count <= 2 * |large|
    ensures large != [] ==> count == |large| + Heavy(large, 1.5 * AverageMass(large))
  {
    count := |large|;
    if large == [] {
      return;
    }
    var cutoff := 1.5 * AverageMass(large);
    for k := 0 to |large|
      invariant count == |large| + Heavy(large[..k], cutoff)
    {
      assert large[..k + 1][..k] == large[..k];
      if large[k].mass as real > cutoff {
        count := count + 1;
      }
    }
    assert large[..|large|] == large;
  }

  /** Not every large blob can be heavier than 1.5 times their average:
      when there is at least one, the count is below 2 * |large|. */
  lemma NotAllHeavy(large: seq<Blob>)
    requires large != []
    ensures Heavy(large, 1.5 * AverageMass(large)) < |large|
  {
    var cutoff := 1.5 * AverageMass(large);
    if Heavy(large, cutoff) == |large| {
      AllHeavy(large, cutoff);
      HeavySum(large, cutoff);
    }
  }

  /** Heavy(cs) == |cs| means every blob is over the cutoff. */
  lemma {:induction false} AllHeavy(cs: seq<Blob>, cutoff: real)
    requires Heavy(cs, cutoff) == |cs|
    ensures forall a :: 0 <= a < |cs| ==> cs[a].mass as real > cutoff
  {
    if cs != [] {
      var init := cs[..|cs| - 1];
      AllHeavy(init, cutoff);
      assert forall a :: 0 <= a < |init| ==> init[a] == cs[a];
    }
  }

  /** Blobs all over the cutoff weigh more than |cs| * cutoff in total. */
  lemma {:induction false} HeavySum(cs: seq<Blob>, cutoff: real)
    requires forall a :: 0 <= a < |cs| ==> cs[a].mass as real > cutoff
    ensures cs != [] ==> TotalMass(cs) as real > |cs| as real * cutoff
  {
    if |cs| > 1 {
      var init := cs[..|cs| - 1];
      assert forall a :: 0 <= a < |init| ==> init[a] == cs[a];
      HeavySum(init, cutoff);
    } else if |cs| == 1 {
      assert cs[..0] == [];
    }
  }
}
