/** The per-pixel background estimate over a stack of frames. */
module Statistics {
  import opened Grid
  import opened Order

  /** Every frame is a well-formed matrix of the first frame's shape. */
  predicate Stack(mats: seq<Matrix<int>>) {
    |mats| > 0 &&
    (forall f :: 0 <= f < |mats| ==> mats[f].Valid()) &&
    (forall f :: 0 <= f < |mats| ==> mats[f].rows == mats[0].rows && mats[f].cols == mats[0].cols)
  }

  /** The values of pixel (i, j) across the frames, in frame order. */
  function Column(mats: seq<Matrix<int>>, i: nat, j: nat): (col: seq<int>)
    requires Stack(mats) && i < mats[0].rows && j < mats[0].cols
    ensures |col| == |mats|
    ensures forall f :: 0 <= f < |mats| ==> col[f] == mats[f].At(i, j)
  {
    seq(|mats|, f requires 0 <= f < |mats| => mats[f].At(i, j))
  }

  /** The value median writes at (a, b): the element of rank N/2 among the
      frame values at input pixel (2a, 2b). */
  function PixelMedian(mats: seq<Matrix<int>>, a: nat, b: nat): int
    requires Stack(mats) && 2 * a < mats[0].rows && 2 * b < mats[0].cols
  {
    var col := Column(mats, 2 * a, 2 * b);
    KthSmallest(col, |col| / 2)
  }

  /** median(mats): the loops step i and j by 2 while a and b count the
      output cells; nth_element at N/2 picks the rank-N/2 value. Both dims
      must be even, or a and b run past the allocated dims/2. */
  method Median(mats: seq<Matrix<int>>) returns (med: Matrix<int>)
    requires Stack(mats)
    requires mats[0].rows % 2 == 0 && mats[0].cols % 2 == 0
    ensures med.Valid() && med.rows == mats[0].rows / 2 && med.cols == mats[0].cols / 2
    ensures forall a, b :: 0 <= a < med.rows && 0 <= b < med.cols ==>
      med.At(a, b) == PixelMedian(mats, a, b)
  {
    var rows, cols := mats[0].rows, mats[0].cols;
    var out := new int[rows / 2, cols / 2];
    var i, a := 0, 0;
    while i < rows
      invariant i == 2 * a && i <= rows
      invariant forall a', b :: 0 <= a' < a && 0 <= b < cols / 2 ==>
        out[a', b] == PixelMedian(mats, a', b)
      decreases rows - i
    {
      MedianRow(mats, out, i, a);
      i, a := i + 2, a + 1;
    }
    med := FromArray2(out);
  }

  /** The inner loop of median: row a of the output from input row i = 2a. */
  method MedianRow(mats: seq<Matrix<int>>, out: array2<int>, i: nat, a: nat)
    requires Stack(mats) && mats[0].cols % 2 == 0
    requires i == 2 * a && i < mats[0].rows && a < out.Length0 && out.Length1 == mats[0].cols / 2
    modifies out
    ensures forall b :: 0 <= b < out.Length1 ==> out[a, b] == PixelMedian(mats, a, b)
    ensures forall a', b :: 0 <= a' < out.Length0 && 0 <= b < out.Length1 && a' != a ==>
      out[a', b] == old(out[a', b])
  {
    var cols := mats[0].cols;
    var j, b := 0, 0;
    while j < cols
      invariant j == 2 * b && j <= cols
      invariant forall b' :: 0 <= b' < b ==> out[a, b'] == PixelMedian(mats, a, b')
      invariant forall a', b :: 0 <= a' < out.Length0 && 0 <= b < out.Length1 && a' != a ==>
        out[a', b] == old(out[a', b])
      decreases cols - j
    {
      var pixels := Column(mats, i, j);
      out[a, b] := KthSmallest(pixels, |pixels| / 2);
      j, b := j + 2, b + 1;
    }
  }

  /** The 0-based rank of the result: fewer than N/2 + 1 frame values lie
      below it and more than N/2 lie at or below it (the upper median for
      even N). */
  lemma PixelMedianRank(mats: seq<Matrix<int>>, a: nat, b: nat)
    requires Stack(mats) && 2 * a < mats[0].rows && 2 * b < mats[0].cols
    ensures var col, m := Column(mats, 2 * a, 2 * b), PixelMedian(mats, a, b);
      CountBelow(col, m) <= |mats| / 2 < CountAtMost(col, m)
  {
    var col := Column(mats, 2 * a, 2 * b);
    KthSmallestRank(col, |col| / 2);
  }

  /** The result is the value of some frame at (2a, 2b). */
  lemma PixelMedianMember(mats: seq<Matrix<int>>, a: nat, b: nat)
    requires Stack(mats) && 2 * a < mats[0].rows && 2 * b < mats[0].cols
    ensures exists f :: 0 <= f < |mats| && PixelMedian(mats, a, b) == mats[f].At(2 * a, 2 * b)
  {
    var col := Column(mats, 2 * a, 2 * b);
    KthSmallestMember(col, |col| / 2);
    var m := PixelMedian(mats, a, b);
    var f :| 0 <= f < |col| && col[f] == m;
  }

  /** So it lies within any bounds of that pixel's values across frames. */
  lemma PixelMedianBetween(mats: seq<Matrix<int>>, a: nat, b: nat, lo: int, hi: int)
    requires Stack(mats) && 2 * a < mats[0].rows && 2 * b < mats[0].cols
    requires forall f :: 0 <= f < |mats| ==> lo <= mats[f].At(2 * a, 2 * b) <= hi
    ensures lo <= PixelMedian(mats, a, b) <= hi
  {
    PixelMedianMember(mats, a, b);
  }

  /** A stack of identical frames I has I's subsampled pixel as its median;
      in particular a single frame gives back its 2x subsampling. */
  lemma PixelMedianConstant(mats: seq<Matrix<int>>, a: nat, b: nat)
    requires Stack(mats) && 2 * a < mats[0].rows && 2 * b < mats[0].cols
    requires forall f :: 0 <= f < |mats| ==> mats[f] == mats[0]
    ensures PixelMedian(mats, a, b) == mats[0].At(2 * a, 2 * b)
  {
    var col := Column(mats, 2 * a, 2 * b);
    KthSmallestConstant(col, |col| / 2, mats[0].At(2 * a, 2 * b));
  }
}
