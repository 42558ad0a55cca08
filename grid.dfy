/** Two-dimensional matrices as sipl stores them: a height x width grid kept
    as one row-major buffer, so element (r, c) lives at index r * cols + c. */
module Grid {

  /** A uint8 value (pixel or file byte). */
  type Byte = v: int | 0 <= v < 256

  datatype Matrix<T> = Matrix(rows: nat, cols: nat, data: seq<T>) {

    /** The buffer holds exactly rows * cols elements. */
    predicate Valid() { |data| == rows * cols }

    /** The element count, MatrixX::size(). */
    function Size(): nat { |data| }

    /** Element (r, c), MatrixX::operator()(r, c). */
    function At(r: nat, c: nat): T
      requires Valid() && r < rows && c < cols
    {
      CellInRange(r, c, rows, cols);
      data[r * cols + c]
    }

    /** Both matrices have the same dims. */
    predicate SameShape<U>(other: Matrix<U>) {
      rows == other.rows && cols == other.cols
    }
  }

  /** A matrix whose every element satisfies p. */
  ghost predicate All<T>(m: Matrix<T>, p: T -> bool) {
    forall k :: 0 <= k < |m.data| ==> p(m.data[k])
  }

  /** The index of cell (r, c) is inside the buffer. */
  lemma CellInRange(r: nat, c: nat, rows: nat, cols: nat)
    requires r < rows && c < cols
    ensures r * cols + c < rows * cols
  {
    MulLeq(r + 1, rows, cols);
  }

  lemma MulLeq(a: nat, b: nat, c: nat)
    requires a <= b
    ensures a * c <= b * c
  {
  }

  lemma MulStep(i: nat, c: nat)
    ensures (i + 1) * c == i * c + c
  {
  }

  /** Row-major indexing round-trips through / and %. */
  lemma CellDivMod(r: nat, c: nat, cols: nat)
    requires c < cols
    ensures (r * cols + c) / cols == r && (r * cols + c) % cols == c
  {
    var k := r * cols + c;
    var q, m := k / cols, k % cols;
    assert q * cols + m == r * cols + c;
    if q > r {
      MulLeq(r + 1, q, cols);
      assert false;
    } else if q < r {
      MulLeq(q + 1, r, cols);
      assert false;
    }
  }

  /** Distinct in-range cells have distinct indices. */
  lemma CellInjective(r1: nat, c1: nat, r2: nat, c2: nat, cols: nat)
    requires c1 < cols && c2 < cols
    requires r1 * cols + c1 == r2 * cols + c2
    ensures r1 == r2 && c1 == c2
  {
    CellDivMod(r1, c1, cols);
    CellDivMod(r2, c2, cols);
  }

  /** Every buffer index is the index of a cell. */
  lemma IndexCell(k: nat, rows: nat, cols: nat)
    requires k < rows * cols
    ensures cols > 0 && k / cols < rows && k % cols < cols
    ensures k == (k / cols) * cols + k % cols
  {
    if k / cols >= rows {
      MulLeq(rows, k / cols, cols);
    }
  }

  /** Builds a matrix from a 2-D array (the result buffer a kernel fills). */
  function FromArray2<T>(a: array2<T>): (m: Matrix<T>)
    reads a
    ensures m.Valid() && m.rows == a.Length0 && m.cols == a.Length1
    ensures forall r, c :: 0 <= r < a.Length0 && 0 <= c < a.Length1 ==> m.At(r, c) == a[r, c]
  {
    var rows, cols := a.Length0, a.Length1;
    var m := Matrix(rows, cols, seq(rows * cols, k reads a requires 0 <= k < rows * cols =>
      IndexCell(k, rows, cols); a[k / cols, k % cols]));
    assert forall r, c :: 0 <= r < rows && 0 <= c < cols ==> m.At(r, c) == a[r, c] by {
      forall r, c | 0 <= r < rows && 0 <= c < cols ensures m.At(r, c) == a[r, c] {
        CellInRange(r, c, rows, cols);
        CellDivMod(r, c, cols);
      }
    }
    m
  }

  /** Two valid matrices of the same dims that agree on every cell are equal. */
  lemma Extensionality<T>(m1: Matrix<T>, m2: Matrix<T>)
    requires m1.Valid() && m2.Valid() && m1.SameShape(m2)
    requires forall r, c :: 0 <= r < m1.rows && 0 <= c < m1.cols ==> m1.At(r, c) == m2.At(r, c)
    ensures m1 == m2
  {
    forall k | 0 <= k < |m1.data| ensures m1.data[k] == m2.data[k] {
      IndexCell(k, m1.rows, m1.cols);
      assert m1.At(k / m1.cols, k % m1.cols) == m2.At(k / m1.cols, k % m1.cols);
    }
  }

  /** Clamps an index into [0, n), the REPLICATE border rule. */
  function Clamp(i: int, n: nat): (r: nat)
    requires n > 0
    ensures r < n
    ensures 0 <= i < n ==> r == i
  {
    if i < 0 then 0 else if i >= n then n - 1 else i
  }

  /** Element e of the (2h+1) x (2w+1) window centred at (i, j), taken in
      row-major window order, with the REPLICATE border: a window position
      outside the image reads the nearest image element. */
  function PatchElem<T>(img: Matrix<T>, i: nat, j: nat, h: nat, w: nat, e: nat): T
    requires img.Valid() && i < img.rows && j < img.cols && e < (2 * h + 1) * (2 * w + 1)
  {
    IndexCell(e, 2 * h + 1, 2 * w + 1);
    img.At(Clamp(i - h + e / (2 * w + 1), img.rows), Clamp(j - w + e % (2 * w + 1), img.cols))
  }

  /** The whole window, MatrixX::patch(i, j, h, w). */
  function Patch<T>(img: Matrix<T>, i: nat, j: nat, h: nat, w: nat): (p: seq<T>)
    requires img.Valid() && i < img.rows && j < img.cols
    ensures |p| == (2 * h + 1) * (2 * w + 1)
  {
    PatchFrom(img, i, j, h, w, 0)
  }

  /** The window from position e on. */
  function PatchFrom<T>(img: Matrix<T>, i: nat, j: nat, h: nat, w: nat, e: nat): (p: seq<T>)
    requires img.Valid() && i < img.rows && j < img.cols && e <= (2 * h + 1) * (2 * w + 1)
    ensures |p| == (2 * h + 1) * (2 * w + 1) - e
    decreases (2 * h + 1) * (2 * w + 1) - e
  {
    if e == (2 * h + 1) * (2 * w + 1) then []
    else [PatchElem(img, i, j, h, w, e)] + PatchFrom(img, i, j, h, w, e + 1)
  }

  lemma {:induction false} PatchFromAt<T>(img: Matrix<T>, i: nat, j: nat, h: nat, w: nat, e: nat, d: nat)
    requires img.Valid() && i < img.rows && j < img.cols && e + d < (2 * h + 1) * (2 * w + 1)
    ensures PatchFrom(img, i, j, h, w, e)[d] == PatchElem(img, i, j, h, w, e + d)
    decreases d
  {
    if d > 0 {
      PatchFromAt(img, i, j, h, w, e + 1, d - 1);
    }
  }

  /** Window position e holds the image value PatchElem describes. */
  lemma PatchAt<T>(img: Matrix<T>, i: nat, j: nat, h: nat, w: nat, e: nat)
    requires img.Valid() && i < img.rows && j < img.cols && e < (2 * h + 1) * (2 * w + 1)
    ensures Patch(img, i, j, h, w)[e] == PatchElem(img, i, j, h, w, e)
  {
    PatchFromAt(img, i, j, h, w, 0, e);
  }

  /** Every window value is a value of the image. */
  lemma PatchFromImage<T>(img: Matrix<T>, i: nat, j: nat, h: nat, w: nat, e: nat)
    requires img.Valid() && i < img.rows && j < img.cols && e < (2 * h + 1) * (2 * w + 1)
    ensures exists r, c :: 0 <= r < img.rows && 0 <= c < img.cols && Patch(img, i, j, h, w)[e] == img.At(r, c)
  {
    PatchAt(img, i, j, h, w, e);
    IndexCell(e, 2 * h + 1, 2 * w + 1);
    var r, c := Clamp(i - h + e / (2 * w + 1), img.rows), Clamp(j - w + e % (2 * w + 1), img.cols);
    assert Patch(img, i, j, h, w)[e] == img.At(r, c);
  }

  /** The index of the window's centre. */
  function PatchCentre(h: nat, w: nat): nat { h * (2 * w + 1) + w }

  /** The centre of the window is the pixel itself. */
  lemma PatchCentreValue<T>(img: Matrix<T>, i: nat, j: nat, h: nat, w: nat)
    requires img.Valid() && i < img.rows && j < img.cols
    ensures PatchCentre(h, w) < (2 * h + 1) * (2 * w + 1)
    ensures Patch(img, i, j, h, w)[PatchCentre(h, w)] == img.At(i, j)
  {
    CellInRange(h, w, 2 * h + 1, 2 * w + 1);
    PatchAt(img, i, j, h, w, PatchCentre(h, w));
    CentreElem(img, i, j, h, w);
  }

  lemma CentreElem<T>(img: Matrix<T>, i: nat, j: nat, h: nat, w: nat)
    requires img.Valid() && i < img.rows && j < img.cols
    requires PatchCentre(h, w) < (2 * h + 1) * (2 * w + 1)
    ensures PatchElem(img, i, j, h, w, PatchCentre(h, w)) == img.At(i, j)
  {
    CellDivMod(h, w, 2 * w + 1);
  }

  /** A window of a constant image is constant. */
  lemma PatchOfConstant<T>(img: Matrix<T>, v: T, i: nat, j: nat, h: nat, w: nat)
    requires img.Valid() && i < img.rows && j < img.cols
    requires forall k :: 0 <= k < |img.data| ==> img.data[k] == v
    ensures forall e :: 0 <= e < |Patch(img, i, j, h, w)| ==> Patch(img, i, j, h, w)[e] == v
  {
    var p := Patch(img, i, j, h, w);
    forall e | 0 <= e < |p| ensures p[e] == v {
      PatchFromImage(img, i, j, h, w, e);
      var r, c :| 0 <= r < img.rows && 0 <= c < img.cols && p[e] == img.At(r, c);
      AtConstant(img, v, r, c);
    }
  }

  /** Every cell of a constant matrix holds the constant. */
  lemma AtConstant<T>(img: Matrix<T>, v: T, r: nat, c: nat)
    requires img.Valid() && r < img.rows && c < img.cols
    requires forall k :: 0 <= k < |img.data| ==> img.data[k] == v
    ensures img.At(r, c) == v
  {
    CellInRange(r, c, img.rows, img.cols);
  }
}
