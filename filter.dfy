/** Binary thresholding and the k-th order (rank) filter. */
module Filter {
  import opened Wrappers
  import opened Grid
  import opened Order

  /** One thresholded pixel: the type's maximum at or above the threshold,
      its minimum below. */
  function ThresholdPixel(v: int, threshold: int, lo: int, hi: int): int {
    if v >= threshold then hi else lo
  }

  /** The image threshold_binary returns, cell by cell. */
  function Thresholded(img: Matrix<int>, threshold: int, lo: int, hi: int): (t: Matrix<int>)
    ensures t.rows == img.rows && t.cols == img.cols && |t.data| == |img.data|
    ensures forall k :: 0 <= k < |t.data| ==> t.data[k] == ThresholdPixel(img.data[k], threshold, lo, hi)
  {
    Matrix(img.rows, img.cols,
      seq(|img.data|, k requires 0 <= k < |img.data| => ThresholdPixel(img.data[k], threshold, lo, hi)))
  }

  /** threshold_binary(img, threshold) for an element type whose range is
      [lo, hi] (numeric_limits min and max): a threshold outside that range
      is an invalid_argument. */
  method ThresholdBinary(img: Matrix<int>, threshold: int, lo: int, hi: int) returns (r: Result<Matrix<int>>)
    requires img.Valid()
    ensures r.Failure? <==> threshold < lo || threshold > hi
    ensures r.Failure? ==> r.error.InvalidArgument?
    ensures r.Success? ==> r.value.Valid() && r.value == Thresholded(img, threshold, lo, hi)
  {
    if threshold < lo || threshold > hi {
      return Failure(InvalidArgument("threshold must be between min and max for Dtype"));
    }
    var thresh := new int[img.Size()];
    for i := 0 to img.Size()
      invariant forall k :: 0 <= k < i ==> thresh[k] == ThresholdPixel(img.data[k], threshold, lo, hi)
    {
      thresh[i] := if img.data[i] >= threshold then hi else lo;
    }
    return Success(Matrix(img.rows, img.cols, thresh[..]));
  }

  /** The output holds only the two values, and with lo < hi a pixel is hi
      exactly when the input reaches the threshold. */
  lemma ThresholdedBinary(img: Matrix<int>, threshold: int, lo: int, hi: int, k: nat)
    requires k < |img.data|
    ensures var t := Thresholded(img, threshold, lo, hi);
      (t.data[k] == lo || t.data[k] == hi) &&
      (lo < hi ==> (t.data[k] == hi <==> img.data[k] >= threshold))
  {
  }

  /** Thresholding a thresholded image again, at a threshold in (lo, hi],
      changes nothing. */
  lemma ThresholdedIdempotent(img: Matrix<int>, threshold: int, lo: int, hi: int)
    requires lo < threshold <= hi
    ensures Thresholded(Thresholded(img, threshold, lo, hi), threshold, lo, hi) == Thresholded(img, threshold, lo, hi)
  {
  }

  /** An odd, positive window side, as the truncating C++ test
      `w % 2 == 1` accepts it. */
  predicate OddSide(w: int) { w > 0 && w % 2 == 1 }

  /** The filter's arguments as the asserts admit them. */
  predicate KthArgs(img: Matrix<int>, height: int, width: int, k: int) {
    img.Valid() && OddSide(height) && OddSide(width) && 0 <= k < width * height
  }

  /** The value result(i, j): the k-th smallest value of the height x width
      window around (i, j) (0 for a k outside the window, which the
      filter's asserts exclude). */
  function KthOfWindow(img: Matrix<int>, i: nat, j: nat, height: int, width: int, k: int): int
    requires img.Valid() && i < img.rows && j < img.cols && height >= 0 && width >= 0
  {
    var p := Patch(img, i, j, height / 2, width / 2);
    if 0 <= k < |p| then KthSmallest(p, k) else 0
  }

  /** nonlinear_kth_filter(img, height, width, k): for every pixel, sort the
      window around it and keep element k. */
  method NonlinearKthFilter(img: Matrix<int>, height: int, width: int, k: int) returns (result: Matrix<int>)
    requires KthArgs(img, height, width, k)
    ensures result.Valid() && result.rows == img.rows && result.cols == img.cols
    ensures forall i, j :: 0 <= i < img.rows && 0 <= j < img.cols ==>
      result.At(i, j) == KthOfWindow(img, i, j, height, width, k)
  {
    var out := new int[img.rows, img.cols];
    for i := 0 to img.rows
      invariant forall i', j :: 0 <= i' < i && 0 <= j < img.cols ==>
        out[i', j] == KthOfWindow(img, i', j, height, width, k)
    {
      KthRow(img, height, width, k, out, i);
    }
    result := FromArray2(out);
  }

  /** The inner loop of nonlinear_kth_filter: row i of the output. */
  method KthRow(img: Matrix<int>, height: int, width: int, k: int, out: array2<int>, i: nat)
    requires img.Valid() && height >= 0 && width >= 0 && i < img.rows
    requires out.Length0 == img.rows && out.Length1 == img.cols
    modifies out
    ensures forall j :: 0 <= j < img.cols ==> out[i, j] == KthOfWindow(img, i, j, height, width, k)
    ensures forall i', j :: 0 <= i' < img.rows && 0 <= j < img.cols && i' != i ==> out[i', j] == old(out[i', j])
  {
    for j := 0 to img.cols
      invariant forall j' :: 0 <= j' < j ==> out[i, j'] == KthOfWindow(img, i, j', height, width, k)
      invariant forall i', j :: 0 <= i' < img.rows && 0 <= j < img.cols && i' != i ==> out[i', j] == old(out[i', j])
    {
      // the patch around (i, j), sorted, element k
      out[i, j] := KthOfWindow(img, i, j, height, width, k);
    }
  }

  /** The window has width * height cells (both sides odd). */
  lemma WindowSize(height: int, width: int)
    requires OddSide(height) && OddSide(width)
    ensures (2 * (height / 2) + 1) * (2 * (width / 2) + 1) == width * height
  {
  }

  /** result(i, j) has rank k in its window: at most k window values lie
      below it, more than k at or below it. */
  lemma KthOfWindowRank(img: Matrix<int>, i: nat, j: nat, height: int, width: int, k: int)
    requires KthArgs(img, height, width, k) && i < img.rows && j < img.cols
    ensures var p := Patch(img, i, j, height / 2, width / 2);
      CountBelow(p, KthOfWindow(img, i, j, height, width, k)) <= k < CountAtMost(p, KthOfWindow(img, i, j, height, width, k))
  {
    WindowSize(height, width);
    KthSmallestRank(Patch(img, i, j, height / 2, width / 2), k);
  }

  /** Every output value is a value of the input image inside the window. */
  lemma KthOfWindowFromImage(img: Matrix<int>, i: nat, j: nat, height: int, width: int, k: int)
    requires KthArgs(img, height, width, k) && i < img.rows && j < img.cols
    ensures |Patch(img, i, j, height / 2, width / 2)| == width * height
    ensures exists e :: (0 <= e < |Patch(img, i, j, height / 2, width / 2)| &&
      KthOfWindow(img, i, j, height, width, k) == Patch(img, i, j, height / 2, width / 2)[e])
    ensures exists r, c :: 0 <= r < img.rows && 0 <= c < img.cols && KthOfWindow(img, i, j, height, width, k) == img.At(r, c)
  {
    WindowSize(height, width);
    var p := Patch(img, i, j, height / 2, width / 2);
    KthSmallestMember(p, k);
    var e :| 0 <= e < |p| && p[e] == KthSmallest(p, k);
    PatchFromImage(img, i, j, height / 2, width / 2, e);
  }

  /** On a constant image every window holds only that constant, so the
      filter returns the image unchanged. */
  lemma KthOfWindowConstant(img: Matrix<int>, v: int, i: nat, j: nat, height: int, width: int, k: int)
    requires KthArgs(img, height, width, k) && i < img.rows && j < img.cols
    requires forall n :: 0 <= n < |img.data| ==> img.data[n] == v
    ensures KthOfWindow(img, i, j, height, width, k) == v == img.At(i, j)
  {
    WindowSize(height, width);
    PatchOfConstant(img, v, i, j, height / 2, width / 2);
    KthSmallestConstant(Patch(img, i, j, height / 2, width / 2), k, v);
    CellInRange(i, j, img.rows, img.cols);
  }
}
