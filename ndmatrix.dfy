/** The N-dimensional Matrix<Dtype, Dims>: a dims array, an element count
    and a flat buffer addressed through calculate_index. */
module NdMatrix {
  import Grid
  import Util

  /** std::accumulate(dims, 1, multiplies): the left fold of the dims. */
  function Product(dims: seq<nat>): nat
  {
    if dims == [] then 1 else Product(dims[..|dims| - 1]) * dims[|dims| - 1]
  }

  /** The fold agrees with util::multiply over the same arguments. */
  lemma {:induction false} ProductIsMultiply(dims: seq<nat>)
    requires |dims| > 0
    ensures Product(dims) == Util.Multiply(dims)
    decreases |dims|
  {
    // Multiply folds from the right, Product from the left.
    ProductFront(dims);
    if |dims| > 1 {
      ProductIsMultiply(dims[1..]);
    } else {
      assert dims[1..] == [];
    }
  }

  /** Product can also peel its first factor. */
  lemma {:induction false} ProductFront(dims: seq<nat>)
    requires |dims| > 0
    ensures Product(dims) == dims[0] * Product(dims[1..])
    decreases |dims|
  {
    if |dims| > 1 {
      var init := dims[..|dims| - 1];
      ProductFront(init);
      assert init[1..] == dims[1..][..|dims[1..]| - 1];
      assert dims[1..][|dims[1..]| - 1] == dims[|dims| - 1];
    } else {
      assert dims[..0] == [] && dims[1..] == [];
    }
  }

  datatype NdMatrix = NdMatrix(dims: seq<nat>, nelements: nat, elemSize: nat)

  /** The sized constructor: the element count is the product of dims. */
  function Sized(dims: seq<nat>, elemSize: nat): (m: NdMatrix)
    ensures m.dims == dims && m.elemSize == elemSize
    ensures m.nelements == Product(dims)
    ensures forall k :: 0 <= k < |dims| && dims[k] == 0 ==> m.nelements == 0
  {
    forall k | 0 <= k < |dims| && dims[k] == 0 ensures Product(dims) == 0 {
      ProductZero(dims, k);
    }
    NdMatrix(dims, Product(dims), elemSize)
  }

  lemma {:induction false} ProductZero(dims: seq<nat>, k: nat)
    requires k < |dims| && dims[k] == 0
    ensures Product(dims) == 0
    decreases |dims|
  {
    if k < |dims| - 1 {
      ProductZero(dims[..|dims| - 1], k);
    }
  }

  /** The default constructor: zero dims and no elements. */
  function Default(rank: nat, elemSize: nat): (m: NdMatrix)
    ensures |m.dims| == rank && m.nelements == 0 && m.elemSize == elemSize
    ensures forall k :: 0 <= k < rank ==> m.dims[k] == 0
  {
    NdMatrix(seq(rank, _ => 0), 0, elemSize)
  }

  /** size_in_bytes(): the element count times sizeof(Dtype). */
  function SizeInBytes(m: NdMatrix): nat
  {
    m.nelements * m.elemSize
  }

  /** A sized matrix takes product-of-dims elements' worth of bytes, a
      default one none. */
  lemma SizeInBytesFacts(dims: seq<nat>, rank: nat, elemSize: nat)
    ensures SizeInBytes(Sized(dims, elemSize)) == Product(dims) * elemSize
    ensures SizeInBytes(Default(rank, elemSize)) == 0
  {
  }

  /** sum_{i < k} idxs[i] * dims[i + 1], the loop's running total. */
  function Weighted(dims: seq<nat>, idxs: seq<nat>, k: nat): nat
    requires |idxs| == |dims| && k < |dims|
  {
    if k == 0 then 0 else Weighted(dims, idxs, k - 1) + idxs[k - 1] * dims[k]
  }

  /** calculate_index as written: each index but the last is weighted by
      the next dimension only, then the last index is added. */
  function WrittenIndex(dims: seq<nat>, idxs: seq<nat>): nat
    requires |idxs| == |dims| > 0
  {
    Weighted(dims, idxs, |dims| - 1) + idxs[|dims| - 1]
  }

  /** Row-major order: ((i0 * d1 + i1) * d2 + i2) ... */
  function RowMajor(dims: seq<nat>, idxs: seq<nat>): nat
    requires |idxs| == |dims| > 0
  {
    if |dims| == 1 then idxs[0]
    else RowMajor(dims[..|dims| - 1], idxs[..|idxs| - 1]) * dims[|dims| - 1] + idxs[|idxs| - 1]
  }

  predicate InRange(dims: seq<nat>, idxs: seq<nat>) {
    |idxs| == |dims| && forall k :: 0 <= k < |dims| ==> idxs[k] < dims[k]
  }

  /** The loop of calculate_index (lines 65-72), as written. */
  method CalculateIndex(m: NdMatrix, idxs: seq<nat>) returns (index: nat)
    requires |idxs| == |m.dims| > 0
    ensures index == WrittenIndex(m.dims, idxs)
  {
    var target := 0;
    for i := 0 to |m.dims| - 1
      invariant target == Weighted(m.dims, idxs, i)
    {
      target := target + idxs[i] * m.dims[i + 1];
    }
    index := target + idxs[|idxs| - 1];
  }

  /** With one or two dims the written formula is row-major:
      calculate_index({r, c}) == r * dims[1] + c. */
  lemma WrittenIsRowMajorUpToTwoDims(dims: seq<nat>, idxs: seq<nat>)
    requires |idxs| == |dims| && 0 < |dims| <= 2
    ensures WrittenIndex(dims, idxs) == RowMajor(dims, idxs)
    ensures |dims| == 2 ==> WrittenIndex(dims, idxs) == idxs[0] * dims[1] + idxs[1]
  {
    if |dims| == 2 {
      assert Weighted(dims, idxs, 1) == idxs[0] * dims[1];
    }
  }

  /** Two in-range index pairs of a two-dim matrix land on distinct cells
      below the element count. */
  lemma TwoDimsInjective(dims: seq<nat>, a: seq<nat>, b: seq<nat>)
    requires |dims| == 2 && InRange(dims, a) && InRange(dims, b)
    ensures WrittenIndex(dims, a) < Product(dims)
    ensures WrittenIndex(dims, a) == WrittenIndex(dims, b) ==> a == b
  {
    WrittenIsRowMajorUpToTwoDims(dims, a);
    WrittenIsRowMajorUpToTwoDims(dims, b);
    assert Product(dims) == dims[0] * dims[1] by {
      ProductFront(dims);
      assert dims[1..] == [dims[1]] && dims[1..][..0] == [];
    }
    Grid.CellInRange(a[0], a[1], dims[0], dims[1]);
    if WrittenIndex(dims, a) == WrittenIndex(dims, b) {
      Grid.CellInjective(a[0], a[1], b[0], b[1], dims[1]);
      assert a == [a[0], a[1]] && b == [b[0], b[1]];
    }
  }

  /** With three dims the written formula sends two different in-range
      indices of a 2 x 2 x 2 matrix to the same element. */
  lemma WrittenIndexCollides()
    ensures var dims := [2, 2, 2];
      InRange(dims, [0, 1, 0]) && InRange(dims, [1, 0, 0]) &&
      WrittenIndex(dims, [0, 1, 0]) == WrittenIndex(dims, [1, 0, 0]) == 2
  {
    var dims: seq<nat> := [2, 2, 2];
    assert Weighted(dims, [0, 1, 0], 2) == 2;
    assert Weighted(dims, [1, 0, 0], 2) == 2;
  }

  /** The intended indexing: row-major accumulation, one dimension at a
      time. */
  method CalculateIndexRowMajor(m: NdMatrix, idxs: seq<nat>) returns (index: nat)
    requires |idxs| == |m.dims| > 0
    ensures index == RowMajor(m.dims, idxs)
  {
    index := idxs[0];
    for i := 1 to |m.dims|
      invariant index == RowMajor(m.dims[..i], idxs[..i])
    {
      assert m.dims[..i + 1][..i] == m.dims[..i] && idxs[..i + 1][..i] == idxs[..i];
      index := index * m.dims[i] + idxs[i];
    }
    assert m.dims[..|m.dims|] == m.dims && idxs[..|idxs|] == idxs;
  }

  /** Row-major indices of in-range positions are below the element count. */
  lemma {:induction false} RowMajorInRange(dims: seq<nat>, idxs: seq<nat>)
    requires |dims| > 0 && InRange(dims, idxs)
    ensures RowMajor(dims, idxs) < Product(dims)
    decreases |dims|
  {
    var n := |dims|;
    if n == 1 {
      assert dims[..0] == [];
    } else {
      var d, x := dims[..n - 1], idxs[..n - 1];
      RowMajorInRange(d, x);
      Grid.CellInRange(RowMajor(d, x), idxs[n - 1], Product(d), dims[n - 1]);
    }
  }

  /** Row-major indexing is injective on in-range positions. */
  lemma {:induction false} RowMajorInjective(dims: seq<nat>, a: seq<nat>, b: seq<nat>)
    requires |dims| > 0 && InRange(dims, a) && InRange(dims, b)
    requires RowMajor(dims, a) == RowMajor(dims, b)
    ensures a == b
    decreases |dims|
  {
    var n := |dims|;
    if n == 1 {
      assert a == [a[0]] && b == [b[0]];
    } else {
      var d := dims[..n - 1];
      Grid.CellInjective(RowMajor(d, a[..n - 1]), a[n - 1], RowMajor(d, b[..n - 1]), b[n - 1], dims[n - 1]);
      RowMajorInjective(d, a[..n - 1], b[..n - 1]);
      assert a == a[..n - 1] + [a[n - 1]] && b == b[..n - 1] + [b[n - 1]];
    }
  }
}
