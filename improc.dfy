/** The second copy of the k-th order filter, the one the filter test
    driver uses; with k = width * height / 2 it is a median filter. */
module Improc {
  import opened Grid
  import opened Order
  import Filter

  /** nonlinear_kth_filter of the improc header. Its body is the same
      loop as Filter's copy (it sorts through raw pointers instead of
      iterators), so it is modelled by that method. */
  method NonlinearKthFilter(img: Matrix<int>, height: int, width: int, k: int) returns (result: Matrix<int>)
    requires Filter.KthArgs(img, height, width, k)
    ensures result.Valid() && result.rows == img.rows && result.cols == img.cols
    ensures forall i, j :: 0 <= i < img.rows && 0 <= j < img.cols ==>
      result.At(i, j) == Filter.KthOfWindow(img, i, j, height, width, k)
  {
    result := Filter.NonlinearKthFilter(img, height, width, k);
  }

  /** The median rank the filter test driver passes. */
  function MedianRank(height: int, width: int): int { width * height / 2 }

  /** With k at the median rank, fewer than half of the window lies below
      the output and more than half lies at or below it. */
  lemma MedianFilterIsMedian(img: Matrix<int>, i: nat, j: nat, height: int, width: int)
    requires img.Valid() && Filter.OddSide(height) && Filter.OddSide(width)
    requires i < img.rows && j < img.cols
    ensures Filter.KthArgs(img, height, width, MedianRank(height, width))
    ensures var p, m := Patch(img, i, j, height / 2, width / 2), Filter.KthOfWindow(img, i, j, height, width, MedianRank(height, width));
      CountBelow(p, m) <= |p| / 2 < CountAtMost(p, m)
  {
    Filter.WindowSize(height, width);
    Filter.KthOfWindowRank(img, i, j, height, width, MedianRank(height, width));
  }

  /** A constant image is a fixed point of the median filter. */
  lemma MedianFilterFixedPoint(img: Matrix<int>, v: int, height: int, width: int)
    requires img.Valid() && Filter.OddSide(height) && Filter.OddSide(width)
    requires forall n :: 0 <= n < |img.data| ==> img.data[n] == v
    ensures Filter.KthArgs(img, height, width, MedianRank(height, width))
    ensures forall i, j :: 0 <= i < img.rows && 0 <= j < img.cols ==>
      Filter.KthOfWindow(img, i, j, height, width, MedianRank(height, width)) == img.At(i, j)
  {
    forall i, j | 0 <= i < img.rows && 0 <= j < img.cols
      ensures Filter.KthOfWindow(img, i, j, height, width, MedianRank(height, width)) == img.At(i, j)
    {
      Filter.KthOfWindowConstant(img, v, i, j, height, width, MedianRank(height, width));
    }
  }
}
