/** Connected-component labelling of a binary image (one-pass N8 flood
    fill with a `labeled` mask and a FIFO worklist). */
module Label {
  import opened Wrappers
  import opened Grid

  /** A pixel index (row, column), the Vector2i the labeller pushes. */
  datatype Pixel = Pixel(r: int, c: int)

  datatype Connectivity = N4 | N8

  /** A component as stored in the returned vector (a copy of Component;
      its floating center_of_mass is not modelled). */
  datatype Blob = Blob(mass: nat, indices: seq<Pixel>)

  /** Component: the pixel list and its mass, kept in step by PushBack. */
  class Component {
    var mass: nat
    var indices: seq<Pixel>

    /** mass always equals the number of stored indices. */
    predicate Valid()
      reads this
    {
      mass == |indices|
    }

    constructor()
      ensures mass == 0 && indices == [] && Valid()
    {
      mass := 0;
      indices := [];
    }

    /** Component::push_back: appends the index and bumps mass. */
    method PushBack(p: Pixel)
      modifies this
      ensures indices == old(indices) + [p]
      ensures mass == old(mass) + 1
      ensures old(Valid()) ==> Valid()
    {
      indices := indices + [p];
      mass := mass + 1;
    }
  }

  predicate InBounds(img: Matrix<int>, p: Pixel) {
    0 <= p.r < img.rows && 0 <= p.c < img.cols
  }

  /** A set (nonzero) pixel of the image. */
  predicate Foreground(img: Matrix<int>, p: Pixel)
    requires img.Valid()
  {
    InBounds(img, p) && img.At(p.r, p.c) != 0
  }

  /** p and q are distinct 8-neighbours. */
  predicate Adjacent(p: Pixel, q: Pixel) {
    p != q && -1 <= p.r - q.r <= 1 && -1 <= p.c - q.c <= 1
  }

  ghost predicate HasForegroundNeighbour(img: Matrix<int>, p: Pixel)
    requires img.Valid()
  {
    exists q :: Adjacent(p, q) && Foreground(img, q)
  }

  /** A set pixel none of whose 8-neighbours is set. */
  ghost predicate Isolated(img: Matrix<int>, p: Pixel)
    requires img.Valid()
  {
    Foreground(img, p) && !HasForegroundNeighbour(img, p)
  }

  predicate Distinct<T(==)>(s: seq<T>) {
    forall k1, k2 :: 0 <= k1 < k2 < |s| ==> s[k1] != s[k2]
  }

  /** All indices of all components, in order. */
  function Flat(cs: seq<Blob>): (s: seq<Pixel>)
    ensures forall a, k :: 0 <= a < |cs| && 0 <= k < |cs[a].indices| ==> cs[a].indices[k] in s
  {
    if cs == [] then [] else
      var s := Flat(cs[..|cs| - 1]) + cs[|cs| - 1].indices;
      assert forall a :: 0 <= a < |cs| - 1 ==> cs[..|cs| - 1][a] == cs[a];
      s
  }

  /** Every index in Flat(cs) comes from some component. */
  lemma FlatMember(cs: seq<Blob>, p: Pixel)
    requires p in Flat(cs)
    ensures exists a :: 0 <= a < |cs| && p in cs[a].indices
  {
    if p !in cs[|cs| - 1].indices {
      FlatMember(cs[..|cs| - 1], p);
      var a :| 0 <= a < |cs| - 1 && p in cs[..|cs| - 1][a].indices;
      assert cs[..|cs| - 1][a] == cs[a];
    }
  }

  lemma FlatAppend(cs: seq<Blob>, b: Blob)
    ensures Flat(cs + [b]) == Flat(cs) + b.indices
  {
    assert (cs + [b])[..|cs|] == cs;
  }

  /** The sum of the masses, total_mass. */
  function TotalMass(cs: seq<Blob>): nat
  {
    if cs == [] then 0 else TotalMass(cs[..|cs| - 1]) + cs[|cs| - 1].mass
  }

  /** When every mass is its index count, the total mass is the number of
      labelled pixels. */
  lemma {:induction false} TotalMassCountsPixels(cs: seq<Blob>)
    requires forall a :: 0 <= a < |cs| ==> cs[a].mass == |cs[a].indices|
    ensures TotalMass(cs) == |Flat(cs)|
  {
    if cs != [] {
      var init := cs[..|cs| - 1];
      assert forall a :: 0 <= a < |init| ==> init[a] == cs[a];
      TotalMassCountsPixels(init);
    }
  }

  /** total_mass adds over concatenation. */
  lemma {:induction false} TotalMassAppend(cs: seq<Blob>, ds: seq<Blob>)
    ensures TotalMass(cs + ds) == TotalMass(cs) + TotalMass(ds)
    decreases |ds|
  {
    if ds == [] {
      assert cs + ds == cs;
    } else {
      var last := ds[|ds| - 1];
      assert (cs + ds)[..|cs + ds| - 1] == cs + ds[..|ds| - 1];
      TotalMassAppend(cs, ds[..|ds| - 1]);
    }
  }

  /** The two halves of a duplicate-free sequence share no element. */
  lemma DistinctHalves<T>(left: seq<T>, right: seq<T>, x: T)
    requires Distinct(left + right)
    ensures !(x in left && x in right)
  {
    forall k1, k2 | 0 <= k1 < |left| && 0 <= k2 < |right| ensures left[k1] != right[k2] {
      assert (left + right)[k1] == left[k1];
      assert (left + right)[|left| + k2] == right[k2];
    }
  }

  /** A pixel in two components of a duplicate-free labelling is in one. */
  lemma {:induction false} DistinctFlatUnique(cs: seq<Blob>, p: Pixel, a1: nat, a2: nat)
    requires Distinct(Flat(cs)) && a1 < |cs| && a2 < |cs|
    requires p in cs[a1].indices && p in cs[a2].indices
    ensures a1 == a2
  {
    var n := |cs| - 1;
    var init := cs[..n];
    var left := Flat(init);
    var right := cs[n].indices;
    assert Flat(cs) == left + right;
    assert Distinct(left) by {
      forall k1, k2 | 0 <= k1 < k2 < |left| ensures left[k1] != left[k2] {
        assert Flat(cs)[k1] == left[k1] && Flat(cs)[k2] == left[k2];
      }
    }
    if a1 < n && a2 < n {
      assert init[a1] == cs[a1] && init[a2] == cs[a2];
      DistinctFlatUnique(init, p, a1, a2);
    } else if a1 != a2 {
      var a := if a1 < n then a1 else a2;
      assert init[a] == cs[a];
      DistinctHalves(left, right, p);
    }
  }

  /** One finished component: mass counts its indices, it holds set pixels
      that have a set neighbour, and it is empty only when some pixel of
      the image is isolated. */
  ghost predicate BlobOk(img: Matrix<int>, b: Blob)
    requires img.Valid()
  {
    b.mass == |b.indices| &&
    (forall x :: x in b.indices ==> Foreground(img, x) && HasForegroundNeighbour(img, x)) &&
    (b.indices == [] ==> exists p :: Isolated(img, p))
  }

  /** Every set neighbour of a component's pixel belongs to that component
      or to an earlier one. */
  ghost predicate Closed(img: Matrix<int>, cs: seq<Blob>)
    requires img.Valid()
  {
    forall a, x, y :: 0 <= a < |cs| && x in cs[a].indices && Adjacent(x, y) && Foreground(img, y) ==>
      y in Flat(cs[..a + 1])
  }

  /** The invariant of the labelling after every finished component. */
  ghost predicate Inv(img: Matrix<int>, cs: seq<Blob>)
    requires img.Valid()
  {
    (forall a :: 0 <= a < |cs| ==> BlobOk(img, cs[a])) && Distinct(Flat(cs)) && Closed(img, cs)
  }

  /** What one flood fill from `seed` produces, given the pixels `done`
      already taken by earlier components. */
  ghost predicate Grown(img: Matrix<int>, done: seq<Pixel>, seed: Pixel, b: Blob)
    requires img.Valid()
  {
    b.mass == |b.indices| &&
    Distinct(b.indices) &&
    (forall x :: x in b.indices ==> Foreground(img, x) && x !in done) &&
    (forall x, y :: x in b.indices && Adjacent(x, y) && Foreground(img, y) ==> y in done || y in b.indices) &&
    (forall x :: x in b.indices ==> HasForegroundNeighbour(img, x)) &&
    (b.indices != [] ==> seed in b.indices) &&
    (b.indices == [] <==> forall y :: Adjacent(seed, y) && Foreground(img, y) ==> y in done)
  }

  /** A component that contains p lies within a prefix that contains p. */
  lemma FlatPrefix(cs: seq<Blob>, a: nat, p: Pixel)
    requires a < |cs| && p in Flat(cs[..a + 1])
    ensures p in Flat(cs)
  {
    FlatMember(cs[..a + 1], p);
    var a' :| 0 <= a' < a + 1 && p in cs[..a + 1][a'].indices;
    assert cs[..a + 1][a'] == cs[a'];
  }

  /** A seed that is not labelled has only unlabelled set neighbours. */
  lemma SeedNeighbours(img: Matrix<int>, cs: seq<Blob>, seed: Pixel, q: Pixel)
    requires img.Valid() && Inv(img, cs) && Foreground(img, seed) && seed !in Flat(cs)
    requires Adjacent(seed, q) && Foreground(img, q)
    ensures q !in Flat(cs)
  {
    if q in Flat(cs) {
      FlatMember(cs, q);
      var a :| 0 <= a < |cs| && q in cs[a].indices;
      FlatPrefix(cs, a, seed);
    }
  }

  /** The component grown from an unlabelled seed is a valid component;
      the seed joins it iff the seed has a set neighbour. */
  lemma SeedBlob(img: Matrix<int>, cs: seq<Blob>, seed: Pixel, b: Blob)
    requires img.Valid() && Inv(img, cs) && Foreground(img, seed) && seed !in Flat(cs)
    requires Grown(img, Flat(cs), seed, b)
    ensures BlobOk(img, b)
    ensures HasForegroundNeighbour(img, seed) ==> seed in b.indices
    ensures Isolated(img, seed) ==> b.indices == []
  {
    if HasForegroundNeighbour(img, seed) {
      var q :| Adjacent(seed, q) && Foreground(img, q);
      SeedNeighbours(img, cs, seed, q);
    }
    if b.indices == [] {
      forall q | Adjacent(seed, q) && Foreground(img, q) ensures false {
        SeedNeighbours(img, cs, seed, q);
      }
      assert Isolated(img, seed);
    }
  }

  /** Joining two duplicate-free sequences with no common element gives a
      duplicate-free sequence. */
  lemma DistinctAppend<T>(left: seq<T>, right: seq<T>)
    requires Distinct(left) && Distinct(right)
    requires forall x :: x in right ==> x !in left
    ensures Distinct(left + right)
  {
    forall k1, k2 | 0 <= k1 < k2 < |left + right| ensures (left + right)[k1] != (left + right)[k2] {
      if k1 < |left| <= k2 {
        assert (left + right)[k2] in right;
      }
    }
  }

  /** Closure survives appending the component grown from a seed. */
  lemma ClosedAppend(img: Matrix<int>, cs: seq<Blob>, seed: Pixel, b: Blob)
    requires img.Valid() && Closed(img, cs) && Grown(img, Flat(cs), seed, b)
    ensures Closed(img, cs + [b])
  {
    forall a, x, y | 0 <= a < |cs + [b]| && x in (cs + [b])[a].indices && Adjacent(x, y) && Foreground(img, y)
      ensures y in Flat((cs + [b])[..a + 1])
    {
      ClosedCase(img, cs, seed, b, a, x, y);
    }
  }

  lemma ClosedCase(img: Matrix<int>, cs: seq<Blob>, seed: Pixel, b: Blob, a: nat, x: Pixel, y: Pixel)
    requires img.Valid() && Closed(img, cs) && Grown(img, Flat(cs), seed, b)
    requires a < |cs + [b]| && x in (cs + [b])[a].indices && Adjacent(x, y) && Foreground(img, y)
    ensures y in Flat((cs + [b])[..a + 1])
  {
    if a < |cs| {
      ClosedOld(img, cs, b, a, x, y);
    } else {
      assert (cs + [b])[..a + 1] == cs + [b] && (cs + [b])[a] == b;
      ClosedNew(img, cs, seed, b, x, y);
    }
  }

  /** A neighbour of a pixel of an earlier component was already closed over. */
  lemma ClosedOld(img: Matrix<int>, cs: seq<Blob>, b: Blob, a: nat, x: Pixel, y: Pixel)
    requires img.Valid() && Closed(img, cs)
    requires a < |cs| && x in (cs + [b])[a].indices && Adjacent(x, y) && Foreground(img, y)
    ensures y in Flat((cs + [b])[..a + 1])
  {
    assert (cs + [b])[..a + 1] == cs[..a + 1];
    assert (cs + [b])[a] == cs[a];
    ClosedAt(img, cs, a, x, y);
  }

  /** A neighbour of a pixel of the grown component is in it or earlier. */
  lemma ClosedNew(img: Matrix<int>, cs: seq<Blob>, seed: Pixel, b: Blob, x: Pixel, y: Pixel)
    requires img.Valid() && Grown(img, Flat(cs), seed, b)
    requires x in b.indices && Adjacent(x, y) && Foreground(img, y)
    ensures y in Flat(cs + [b])
  {
    FlatAppend(cs, b);
  }

  lemma ClosedAt(img: Matrix<int>, cs: seq<Blob>, a: nat, x: Pixel, y: Pixel)
    requires img.Valid() && Closed(img, cs)
    requires a < |cs| && x in cs[a].indices && Adjacent(x, y) && Foreground(img, y)
    ensures y in Flat(cs[..a + 1])
  {
  }

  /** Appending the component grown from an unlabelled seed keeps Inv. */
  lemma SeedStep(img: Matrix<int>, cs: seq<Blob>, seed: Pixel, b: Blob)
    requires img.Valid() && Inv(img, cs) && Foreground(img, seed) && seed !in Flat(cs)
    requires Grown(img, Flat(cs), seed, b)
    ensures Inv(img, cs + [b])
    ensures HasForegroundNeighbour(img, seed) ==> seed in b.indices
    ensures Isolated(img, seed) ==> b.indices == []
  {
    SeedBlob(img, cs, seed, b);
    FlatAppend(cs, b);
    DistinctAppend(Flat(cs), b.indices);
    ClosedAppend(img, cs, seed, b);
    var cs' := cs + [b];
    assert forall a :: 0 <= a < |cs| ==> cs'[a] == cs[a];
  }

  lemma ConcatAssoc<T>(a: seq<T>, b: seq<T>, c: seq<T>)
    ensures (a + b) + c == a + (b + c)
  {
  }

  /** The 3x3 neighbourhood scan (lines 77-90 and 98-111 of the labeller,
      the same code for the seed and for a dequeued pixel): every in-range,
      unlabelled neighbour other than the centre is labelled and enqueued in
      raster order. */
  method VisitNeighbours(img: Matrix<int>, labeled: array2<bool>, centre: Pixel, nbors: seq<Pixel>)
    returns (nbors': seq<Pixel>, ghost added: seq<Pixel>)
    requires img.Valid() && labeled.Length0 == img.rows && labeled.Length1 == img.cols
    modifies labeled
    ensures nbors' == nbors + added
    ensures Distinct(added)
    ensures forall x :: x in added ==> Adjacent(centre, x) && InBounds(img, x) && !old(labeled[x.r, x.c])
    ensures forall r, c :: 0 <= r < img.rows && 0 <= c < img.cols ==>
      (labeled[r, c] <==> old(labeled[r, c]) || Pixel(r, c) in added)
    ensures forall y :: Adjacent(centre, y) && InBounds(img, y) ==> labeled[y.r, y.c]
  {
    nbors' := nbors;
    added := [];
    for r := centre.r - 1 to centre.r + 2
      invariant nbors' == nbors + added
      invariant Distinct(added)
      invariant forall x :: x in added ==> Adjacent(centre, x) && InBounds(img, x) && !old(labeled[x.r, x.c])
      invariant forall r, c :: 0 <= r < img.rows && 0 <= c < img.cols ==>
        (labeled[r, c] <==> old(labeled[r, c]) || Pixel(r, c) in added)
      invariant forall y :: Adjacent(centre, y) && InBounds(img, y) && y.r < r ==> labeled[y.r, y.c]
    {
      for c := centre.c - 1 to centre.c + 2
        invariant nbors' == nbors + added
        invariant Distinct(added)
        invariant forall x :: x in added ==> Adjacent(centre, x) && InBounds(img, x) && !old(labeled[x.r, x.c])
        invariant forall r, c :: 0 <= r < img.rows && 0 <= c < img.cols ==>
          (labeled[r, c] <==> old(labeled[r, c]) || Pixel(r, c) in added)
        invariant forall y :: Adjacent(centre, y) && InBounds(img, y) && (y.r < r || (y.r == r && y.c < c)) ==>
          labeled[y.r, y.c]
      {
        if (r == centre.r && c == centre.c) || r < 0 || r >= img.rows || c < 0 || c >= img.cols || labeled[r, c] {
          continue;
        }
        labeled[r, c] := true;
        added := added + [Pixel(r, c)];
        nbors' := nbors' + [Pixel(r, c)];
      }
    }
  }

  /** The flood fill from an unlabelled seed (lines 68-114 of the
      labeller): the seed's neighbours are enqueued, then each dequeued
      pixel joins the component and enqueues its own unlabelled neighbours. */
  method Grow(img: Matrix<int>, labeled: array2<bool>, seed: Pixel, ghost done: seq<Pixel>) returns (b: Blob)
    requires img.Valid() && labeled.Length0 == img.rows && labeled.Length1 == img.cols
    requires Foreground(img, seed) && seed !in done
    requires forall r, c :: 0 <= r < img.rows && 0 <= c < img.cols ==>
      (labeled[r, c] <==> img.At(r, c) == 0 || Pixel(r, c) in done)
    modifies labeled
    ensures Grown(img, done, seed, b)
    ensures forall r, c :: 0 <= r < img.rows && 0 <= c < img.cols ==>
      (labeled[r, c] <==> img.At(r, c) == 0 || Pixel(r, c) in done || Pixel(r, c) in b.indices)
  {
    var comp := new Component();
    label PreVisit:
    var nbors, added := VisitNeighbours(img, labeled, seed, []);
    forall x | x in added
      ensures Foreground(img, x) && x !in done && HasForegroundNeighbour(img, x)
    {
      assert !old@PreVisit(labeled[x.r, x.c]);
      assert Adjacent(x, seed);
    }
    Flood(img, labeled, comp, nbors, seed, done);
    b := Blob(comp.mass, comp.indices);
    forall x, y | x in b.indices && Adjacent(x, y) && Foreground(img, y)
      ensures y in done || y in b.indices
    {
      assert labeled[y.r, y.c];
    }
    if b.indices != [] {
      assert Adjacent(b.indices[0], seed);
      assert labeled[seed.r, seed.c];
    } else {
      forall y | Adjacent(seed, y) && Foreground(img, y) ensures y in done {
        assert labeled[y.r, y.c];
      }
    }
  }

  /** The worklist state between two dequeues: `pushed` is everything
      enqueued so far (the popped component followed by the queue), all of
      it labelled, duplicate-free, set and not in an earlier component;
      popped pixels and the seed have all their neighbours labelled; and
      `unlabelled` covers the pixels still to label. */
  ghost predicate FloodInv(img: Matrix<int>, labeled: array2<bool>, comp: Component, nbors: seq<Pixel>,
                           pushed: seq<Pixel>, seed: Pixel, done: seq<Pixel>, unlabelled: set<Pixel>)
    requires img.Valid() && labeled.Length0 == img.rows && labeled.Length1 == img.cols
    reads labeled, comp
  {
    comp.Valid() &&
    comp.indices + nbors == pushed &&
    Distinct(pushed) &&
    (forall x :: x in pushed ==> Foreground(img, x) && x !in done && HasForegroundNeighbour(img, x)) &&
    (forall r, c :: 0 <= r < img.rows && 0 <= c < img.cols ==>
       (labeled[r, c] <==> img.At(r, c) == 0 || Pixel(r, c) in done || Pixel(r, c) in pushed)) &&
    (forall x, y :: x in comp.indices && Adjacent(x, y) && InBounds(img, y) ==> labeled[y.r, y.c]) &&
    (forall y :: Adjacent(seed, y) && InBounds(img, y) ==> labeled[y.r, y.c]) &&
    (forall r, c :: 0 <= r < img.rows && 0 <= c < img.cols && !labeled[r, c] ==> Pixel(r, c) in unlabelled)
  }

  /** The worklist loop of the flood fill (lines 93-112): dequeue the
      front, push it onto the component, enqueue its unlabelled
      neighbours, until the queue is empty. */
  method Flood(img: Matrix<int>, labeled: array2<bool>, comp: Component, nbors0: seq<Pixel>, seed: Pixel,
               ghost done: seq<Pixel>)
    requires img.Valid() && labeled.Length0 == img.rows && labeled.Length1 == img.cols
    requires comp.Valid() && comp.indices == []
    requires Distinct(nbors0)
    requires forall x :: x in nbors0 ==> Foreground(img, x) && x !in done && HasForegroundNeighbour(img, x)
    requires forall r, c :: 0 <= r < img.rows && 0 <= c < img.cols ==>
      (labeled[r, c] <==> img.At(r, c) == 0 || Pixel(r, c) in done || Pixel(r, c) in nbors0)
    requires forall y :: Adjacent(seed, y) && InBounds(img, y) ==> labeled[y.r, y.c]
    requires nbors0 != [] ==> Adjacent(seed, nbors0[0])
    modifies labeled, comp
    ensures comp.Valid()
    ensures Distinct(comp.indices)
    ensures forall x :: x in comp.indices ==> Foreground(img, x) && x !in done && HasForegroundNeighbour(img, x)
    ensures forall r, c :: 0 <= r < img.rows && 0 <= c < img.cols ==>
      (labeled[r, c] <==> img.At(r, c) == 0 || Pixel(r, c) in done || Pixel(r, c) in comp.indices)
    ensures forall x, y :: x in comp.indices && Adjacent(x, y) && InBounds(img, y) ==> labeled[y.r, y.c]
    ensures forall y :: Adjacent(seed, y) && InBounds(img, y) ==> labeled[y.r, y.c]
    ensures comp.indices != [] ==> Adjacent(seed, comp.indices[0])
    ensures comp.indices == [] <==> nbors0 == []
  {
    var nbors := nbors0;
    ghost var pushed := nbors0;
    ghost var unlabelled := set r, c | 0 <= r < img.rows && 0 <= c < img.cols && !labeled[r, c] :: Pixel(r, c);
    while |nbors| > 0
      invariant FloodInv(img, labeled, comp, nbors, pushed, seed, done, unlabelled)
      invariant nbors0 != [] ==> pushed != [] && pushed[0] == nbors0[0]
      invariant nbors0 == [] ==> pushed == []
      decreases unlabelled, |nbors|
    {
      ghost var pushed', unlabelled';
      nbors, pushed', unlabelled' := Dequeue(img, labeled, comp, nbors, seed, done, pushed, unlabelled);
      pushed, unlabelled := pushed', unlabelled';
    }
    assert comp.indices == pushed;
  }

  /** One round of the worklist loop. */
  method Dequeue(img: Matrix<int>, labeled: array2<bool>, comp: Component, nbors: seq<Pixel>, seed: Pixel,
                 ghost done: seq<Pixel>, ghost pushed: seq<Pixel>, ghost unlabelled: set<Pixel>)
    returns (nbors': seq<Pixel>, ghost pushed': seq<Pixel>, ghost unlabelled': set<Pixel>)
    requires img.Valid() && labeled.Length0 == img.rows && labeled.Length1 == img.cols
    requires FloodInv(img, labeled, comp, nbors, pushed, seed, done, unlabelled) && nbors != []
    modifies labeled, comp
    ensures FloodInv(img, labeled, comp, nbors', pushed', seed, done, unlabelled')
    ensures |pushed| <= |pushed'| && pushed'[..|pushed|] == pushed
    ensures unlabelled' < unlabelled || (unlabelled' == unlabelled && |nbors'| < |nbors|)
  {
    ghost var popped := comp.indices;
    var pixel := nbors[0];
    var rest := nbors[1..];
    assert nbors == [pixel] + rest;
    comp.PushBack(pixel);
    ghost var added;
    nbors', added := VisitNeighbours(img, labeled, pixel, rest);
    pushed' := pushed + added;
    unlabelled' := unlabelled - Elements(added);
    assert forall x :: x in added ==> img.At(x.r, x.c) != 0 && x !in done && x !in pushed && x in unlabelled by {
      forall x | x in added ensures img.At(x.r, x.c) != 0 && x !in done && x !in pushed && x in unlabelled {
        assert !old(labeled[x.r, x.c]);
      }
    }
    assert forall r, c :: 0 <= r < img.rows && 0 <= c < img.cols ==>
        (labeled[r, c] <==> img.At(r, c) == 0 || Pixel(r, c) in done || Pixel(r, c) in pushed') by {
      forall r, c | 0 <= r < img.rows && 0 <= c < img.cols
        ensures labeled[r, c] <==> img.At(r, c) == 0 || Pixel(r, c) in done || Pixel(r, c) in pushed'
      {
        assert old(labeled[r, c]) <==> img.At(r, c) == 0 || Pixel(r, c) in done || Pixel(r, c) in pushed;
      }
    }
    assert forall x, y :: x in popped && Adjacent(x, y) && InBounds(img, y) ==> labeled[y.r, y.c] by {
      forall x, y | x in popped && Adjacent(x, y) && InBounds(img, y) ensures labeled[y.r, y.c] {
        assert old(labeled[y.r, y.c]);
      }
    }
    assert forall y :: Adjacent(seed, y) && InBounds(img, y) ==> labeled[y.r, y.c] by {
      forall y | Adjacent(seed, y) && InBounds(img, y) ensures labeled[y.r, y.c] {
        assert old(labeled[y.r, y.c]);
      }
    }
    assert forall r, c :: 0 <= r < img.rows && 0 <= c < img.cols && !labeled[r, c] ==> Pixel(r, c) in unlabelled' by {
      forall r, c | 0 <= r < img.rows && 0 <= c < img.cols && !labeled[r, c] ensures Pixel(r, c) in unlabelled' {
        assert !old(labeled[r, c]);
      }
    }
    FloodStep(img, labeled, comp, popped, pixel, rest, added, nbors', seed, done, pushed, unlabelled');
    if added != [] {
      assert added[0] in unlabelled && added[0] !in unlabelled';
    }
    assert pushed'[..|pushed|] == pushed;
  }

  /** The pixels of a list. */
  function Elements(s: seq<Pixel>): set<Pixel> {
    set x | x in s
  }

  /** Dequeuing `pixel` and enqueuing the neighbours `added` that were not
      yet labelled keeps the worklist state. */
  lemma FloodStep(img: Matrix<int>, labeled: array2<bool>, comp: Component, popped: seq<Pixel>, pixel: Pixel,
                  rest: seq<Pixel>, added: seq<Pixel>, nbors': seq<Pixel>, seed: Pixel,
                  done: seq<Pixel>, pushed: seq<Pixel>, unlabelled': set<Pixel>)
    requires img.Valid() && labeled.Length0 == img.rows && labeled.Length1 == img.cols
    requires comp.Valid() && comp.indices == popped + [pixel] && pushed == popped + ([pixel] + rest)
    requires Distinct(pushed)
    requires forall x :: x in pushed ==> Foreground(img, x) && x !in done && HasForegroundNeighbour(img, x)
    requires nbors' == rest + added && Distinct(added)
    requires forall x :: x in added ==>
      Adjacent(pixel, x) && InBounds(img, x) && img.At(x.r, x.c) != 0 && x !in done && x !in pushed
    requires forall r, c :: 0 <= r < img.rows && 0 <= c < img.cols ==>
      (labeled[r, c] <==> img.At(r, c) == 0 || Pixel(r, c) in done || Pixel(r, c) in pushed + added)
    requires forall y :: Adjacent(pixel, y) && InBounds(img, y) ==> labeled[y.r, y.c]
    requires forall x, y :: x in popped && Adjacent(x, y) && InBounds(img, y) ==> labeled[y.r, y.c]
    requires forall y :: Adjacent(seed, y) && InBounds(img, y) ==> labeled[y.r, y.c]
    requires forall r, c :: 0 <= r < img.rows && 0 <= c < img.cols && !labeled[r, c] ==> Pixel(r, c) in unlabelled'
    ensures FloodInv(img, labeled, comp, nbors', pushed + added, seed, done, unlabelled')
  {
    forall x | x in added ensures HasForegroundNeighbour(img, x) {
      assert Adjacent(x, pixel);
    }
    assert comp.indices + nbors' == pushed + added by {
      ConcatAssoc(popped, [pixel], rest);
      ConcatAssoc(comp.indices, rest, added);
    }
    DistinctAppend(pushed, added);
    forall x, y | x in comp.indices && Adjacent(x, y) && InBounds(img, y) ensures labeled[y.r, y.c] {
      if x != pixel {
        assert x in popped;
      }
    }
  }

  ghost predicate HasEmpty(cs: seq<Blob>) {
    exists a :: 0 <= a < |cs| && cs[a].indices == []
  }

  /** Raster scan up to (i, j): every set pixel already scanned is in some
      component, or is isolated and an empty component was returned for it. */
  ghost predicate Scanned(img: Matrix<int>, cs: seq<Blob>, i: int, j: int)
    requires img.Valid()
  {
    forall r, c :: 0 <= r < img.rows && 0 <= c < img.cols && (r < i || (r == i && c < j)) && img.At(r, c) != 0 ==>
      Pixel(r, c) in Flat(cs) || (Isolated(img, Pixel(r, c)) && HasEmpty(cs))
  }

  /** What connected_components returns for N8: masses count indices;
      components hold set pixels with a set neighbour; no pixel is listed
      twice; every set pixel with a set neighbour is listed; pixels of
      different components are never 8-neighbours; and a component is empty
      exactly when the image has an isolated set pixel (line 82 skips the
      seed, which only a neighbour can enqueue). */
  ghost predicate Labelling(img: Matrix<int>, cs: seq<Blob>)
    requires img.Valid()
  {
    (forall a :: 0 <= a < |cs| ==> cs[a].mass == |cs[a].indices|) &&
    (forall a, x :: 0 <= a < |cs| && x in cs[a].indices ==> Foreground(img, x) && HasForegroundNeighbour(img, x)) &&
    Distinct(Flat(cs)) &&
    (forall p :: Foreground(img, p) && HasForegroundNeighbour(img, p) ==> p in Flat(cs)) &&
    (forall a1, a2, x, y :: 0 <= a1 < |cs| && 0 <= a2 < |cs| && a1 != a2 && x in cs[a1].indices && y in cs[a2].indices ==>
       !Adjacent(x, y)) &&
    (HasEmpty(cs) <==> exists p :: Isolated(img, p))
  }

  /** Scanning one more pixel, either already labelled or the seed of the
      component just appended, extends the scan invariant. */
  lemma ScanSeed(img: Matrix<int>, cs: seq<Blob>, b: Blob, i: nat, j: nat)
    requires img.Valid() && i < img.rows && j < img.cols && Scanned(img, cs, i, j)
    requires Foreground(img, Pixel(i, j))
    requires HasForegroundNeighbour(img, Pixel(i, j)) ==> Pixel(i, j) in b.indices
    requires Isolated(img, Pixel(i, j)) ==> b.indices == []
    ensures Scanned(img, cs + [b], i, j + 1)
  {
    var cs' := cs + [b];
    FlatAppend(cs, b);
    assert HasEmpty(cs) ==> HasEmpty(cs') by {
      if HasEmpty(cs) {
        var a :| 0 <= a < |cs| && cs[a].indices == [];
        assert cs'[a] == cs[a];
      }
    }
    if b.indices == [] {
      assert cs'[|cs|] == b;
    }
  }

  /** Inv and a full scan give the promised labelling. */
  lemma Finish(img: Matrix<int>, cs: seq<Blob>)
    requires img.Valid() && Inv(img, cs) && Scanned(img, cs, img.rows, 0)
    ensures Labelling(img, cs)
  {
    forall p | Foreground(img, p) && HasForegroundNeighbour(img, p) ensures p in Flat(cs) {
      assert img.At(p.r, p.c) != 0;
    }
    forall a1, a2, x, y | 0 <= a1 < |cs| && 0 <= a2 < |cs| && a1 != a2 && x in cs[a1].indices && y in cs[a2].indices
      ensures !Adjacent(x, y)
    {
      if Adjacent(x, y) {
        Separated(img, cs, a1, a2, x, y);
      }
    }
    if exists p :: Isolated(img, p) {
      var p :| Isolated(img, p);
      if p in Flat(cs) {
        FlatMember(cs, p);
      }
    }
    if HasEmpty(cs) {
      var a :| 0 <= a < |cs| && cs[a].indices == [];
      assert BlobOk(img, cs[a]);
    }
  }

  /** Two 8-neighbours in different components contradict closure. */
  lemma Separated(img: Matrix<int>, cs: seq<Blob>, a1: nat, a2: nat, x: Pixel, y: Pixel)
    requires img.Valid() && Inv(img, cs) && a1 < |cs| && a2 < |cs| && a1 != a2
    requires x in cs[a1].indices && y in cs[a2].indices
    ensures !Adjacent(x, y)
  {
    if Adjacent(x, y) {
      var lo, hi, p, q := a1, a2, x, y;
      if a2 < a1 {
        lo, hi, p, q := a2, a1, y, x;
      }
      assert BlobOk(img, cs[hi]);
      assert Adjacent(p, q) && Foreground(img, q);
      assert q in Flat(cs[..lo + 1]);
      FlatMember(cs[..lo + 1], q);
      var a :| 0 <= a < lo + 1 && q in cs[..lo + 1][a].indices;
      assert cs[..lo + 1][a] == cs[a];
      DistinctFlatUnique(cs, q, a, hi);
    }
  }

  /** connected_components(img, conn). The labelled mask starts as the
      background; N4 throws runtime_error at the first unlabelled pixel. */
  method ConnectedComponents(img: Matrix<int>, conn: Connectivity) returns (result: Result<seq<Blob>>)
    requires img.Valid()
    ensures conn == N4 ==> (result.Failure? <==> exists p :: Foreground(img, p))
    ensures conn == N4 && result.Success? ==> result.value == []
    ensures result.Failure? ==> result.error == RuntimeError("not implemented")
    ensures conn == N8 ==> result.Success? && Labelling(img, result.value)
  {
    var labeled := new bool[img.rows, img.cols]((r: int, c: int) requires 0 <= r < img.rows && 0 <= c < img.cols => img.At(r, c) == 0);
    var components: seq<Blob> := [];
    for i := 0 to img.rows
      invariant Inv(img, components) && Scanned(img, components, i, 0)
      invariant forall r, c :: 0 <= r < img.rows && 0 <= c < img.cols ==>
        (labeled[r, c] <==> img.At(r, c) == 0 || Pixel(r, c) in Flat(components))
      invariant conn == N4 ==> (components == [] &&
        forall r, c :: 0 <= r < i && 0 <= c < img.cols ==> img.At(r, c) == 0)
    {
      var failed;
      components, failed := ScanRow(img, conn, labeled, components, i);
      if failed {
        return Failure(RuntimeError("not implemented"));
      }
    }
    Finish(img, components);
    return Success(components);
  }

  /** Row i of the raster scan: each unlabelled set pixel seeds a component
      (N8) or makes the labeller throw (N4, failed). */
  method ScanRow(img: Matrix<int>, conn: Connectivity, labeled: array2<bool>, components: seq<Blob>, i: nat)
    returns (components': seq<Blob>, failed: bool)
    requires img.Valid() && labeled.Length0 == img.rows && labeled.Length1 == img.cols && i < img.rows
    requires Inv(img, components) && Scanned(img, components, i, 0)
    requires forall r, c :: 0 <= r < img.rows && 0 <= c < img.cols ==>
      (labeled[r, c] <==> img.At(r, c) == 0 || Pixel(r, c) in Flat(components))
    requires conn == N4 ==> (components == [] &&
      forall r, c :: 0 <= r < i && 0 <= c < img.cols ==> img.At(r, c) == 0)
    modifies labeled
    ensures failed ==> conn == N4 && exists p :: Foreground(img, p)
    ensures conn == N8 ==> !failed
    ensures !failed ==> Inv(img, components') && Scanned(img, components', i + 1, 0)
    ensures !failed ==> forall r, c :: 0 <= r < img.rows && 0 <= c < img.cols ==>
      (labeled[r, c] <==> img.At(r, c) == 0 || Pixel(r, c) in Flat(components'))
    ensures !failed && conn == N4 ==> (components' == [] &&
      forall r, c :: 0 <= r < i + 1 && 0 <= c < img.cols ==> img.At(r, c) == 0)
  {
    components' := components;
    for j := 0 to img.cols
      invariant Inv(img, components') && Scanned(img, components', i, j)
      invariant forall r, c :: 0 <= r < img.rows && 0 <= c < img.cols ==>
        (labeled[r, c] <==> img.At(r, c) == 0 || Pixel(r, c) in Flat(components'))
      invariant conn == N4 ==> (components' == [] &&
        forall r, c :: 0 <= r < img.rows && 0 <= c < img.cols && (r < i || (r == i && c < j)) ==> img.At(r, c) == 0)
    {
      if labeled[i, j] {
        continue;
      }
      assert Foreground(img, Pixel(i, j));
      match conn {
        case N4 =>
          return components', true;
        case N8 =>
          components' := LabelSeed(img, labeled, components', i, j);
      }
    }
    failed := false;
  }

  /** The N8 branch of the scan at an unlabelled set pixel (i, j): grow its
      component and append it (lines 66-117 of the labeller). */
  method LabelSeed(img: Matrix<int>, labeled: array2<bool>, components: seq<Blob>, i: nat, j: nat)
    returns (components': seq<Blob>)
    requires img.Valid() && labeled.Length0 == img.rows && labeled.Length1 == img.cols
    requires i < img.rows && j < img.cols && !labeled[i, j]
    requires Inv(img, components) && Scanned(img, components, i, j)
    requires forall r, c :: 0 <= r < img.rows && 0 <= c < img.cols ==>
      (labeled[r, c] <==> img.At(r, c) == 0 || Pixel(r, c) in Flat(components))
    modifies labeled
    ensures |components'| == |components| + 1 && components'[..|components|] == components
    ensures Inv(img, components') && Scanned(img, components', i, j + 1)
    ensures forall r, c :: 0 <= r < img.rows && 0 <= c < img.cols ==>
      (labeled[r, c] <==> img.At(r, c) == 0 || Pixel(r, c) in Flat(components'))
  {
    var seed := Pixel(i, j);
    var comp := Grow(img, labeled, seed, Flat(components));
    SeedStep(img, components, seed, comp);
    ScanSeed(img, components, comp, i, j);
    FlatAppend(components, comp);
    components' := components + [comp];
    assert components'[..|components|] == components;
  }

  lemma LabelledForeground(img: Matrix<int>, cs: seq<Blob>, a: nat, x: Pixel)
    requires img.Valid() && Labelling(img, cs) && a < |cs| && x in cs[a].indices
    ensures Foreground(img, x)
  {
  }

  /** An image without set pixels has no components. */
  lemma EmptyImageNoComponents(img: Matrix<int>, cs: seq<Blob>)
    requires img.Valid() && Labelling(img, cs)
    requires forall p :: !Foreground(img, p)
    ensures cs == []
  {
    if cs != [] {
      assert !exists p :: Isolated(img, p);
      assert cs[0].indices != [];
      LabelledForeground(img, cs, 0, cs[0].indices[0]);
      assert false;
    }
  }

  /** A single set pixel with no set neighbour is in no component, and the
      labelling then holds an empty component. */
  lemma IsolatedPixelMassZero(img: Matrix<int>, cs: seq<Blob>, p: Pixel)
    requires img.Valid() && Labelling(img, cs) && Isolated(img, p)
    ensures p !in Flat(cs)
    ensures exists a :: 0 <= a < |cs| && cs[a].mass == 0
  {
    assert p !in Flat(cs) by {
      if p in Flat(cs) {
        FlatMember(cs, p);
        assert false;
      }
    }
    assert HasEmpty(cs);
    var a :| 0 <= a < |cs| && cs[a].indices == [];
    assert cs[a].mass == 0;
  }
}
