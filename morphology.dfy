/** Binary morphology: the rectangular structuring element, erosion,
    dilation, opening and closing. */
module Morphology {
  import opened Wrappers
  import opened Grid

  /** An element the erode/dilate guard is meant to admit: both dims odd,
      so the window (2 * (rows/2) + 1) x (2 * (cols/2) + 1) has exactly the
      element's shape. */
  predicate ElementOk(element: Matrix<int>) {
    element.Valid() && element.rows % 2 == 1 && element.cols % 2 == 1
  }

  /** kernels::rectangle(width, height): an all-ones height x width
      element; both sides must be odd. */
  function Rectangle(width: nat, height: nat): (el: Matrix<int>)
    requires width % 2 == 1 && height % 2 == 1
    ensures ElementOk(el) && el.rows == height && el.cols == width
    ensures forall k :: 0 <= k < |el.data| ==> el.data[k] == 1
  {
    Matrix(height, width, seq(height * width, _ => 1))
  }

  /** One window position passes the erosion test: where the element is
      set the image must be set. */
  predicate Covered(elementValue: int, patchValue: int) {
    elementValue != 0 ==> patchValue != 0
  }

  /** One window position triggers the dilation test: the element and the
      image are both set there. */
  predicate Hit(elementValue: int, patchValue: int) {
    elementValue != 0 && patchValue != 0
  }

  /** The window around (i, j) has the element's size. */
  lemma WindowMatchesElement(img: Matrix<int>, element: Matrix<int>, i: nat, j: nat)
    requires img.Valid() && ElementOk(element) && i < img.rows && j < img.cols
    ensures |Patch(img, i, j, element.rows / 2, element.cols / 2)| == |element.data|
  {
    assert 2 * (element.rows / 2) + 1 == element.rows;
    assert 2 * (element.cols / 2) + 1 == element.cols;
  }

  /** The erosion test at (i, j): every set element position sees a set
      window value. */
  predicate Fits(img: Matrix<int>, element: Matrix<int>, i: nat, j: nat)
    requires img.Valid() && ElementOk(element) && i < img.rows && j < img.cols
  {
    var p := Patch(img, i, j, element.rows / 2, element.cols / 2);
    forall e :: 0 <= e < |p| && e < |element.data| ==> Covered(element.data[e], p[e])
  }

  /** The dilation test at (i, j): some set element position sees a set
      window value. */
  predicate Touches(img: Matrix<int>, element: Matrix<int>, i: nat, j: nat)
    requires img.Valid() && ElementOk(element) && i < img.rows && j < img.cols
  {
    var p := Patch(img, i, j, element.rows / 2, element.cols / 2);
    exists e :: 0 <= e < |p| && e < |element.data| && Hit(element.data[e], p[e])
  }

  /** The eroded image: max (hi) where the element fits, 0 elsewhere. */
  function Eroded(img: Matrix<int>, element: Matrix<int>, hi: int): (m: Matrix<int>)
    requires img.Valid() && ElementOk(element)
    ensures m.Valid() && m.rows == img.rows && m.cols == img.cols
    ensures forall i, j :: 0 <= i < img.rows && 0 <= j < img.cols ==>
      m.At(i, j) == if Fits(img, element, i, j) then hi else 0
  {
    var m := Matrix(img.rows, img.cols, seq(img.rows * img.cols, k requires 0 <= k < img.rows * img.cols =>
      IndexCell(k, img.rows, img.cols);
      if Fits(img, element, k / img.cols, k % img.cols) then hi else 0));
    forall i, j | 0 <= i < img.rows && 0 <= j < img.cols
      ensures m.At(i, j) == if Fits(img, element, i, j) then hi else 0
    {
      CellInRange(i, j, img.rows, img.cols);
      CellDivMod(i, j, img.cols);
    }
    m
  }

  /** The dilated image: max (hi) where the element touches, 0 elsewhere. */
  function Dilated(img: Matrix<int>, element: Matrix<int>, hi: int): (m: Matrix<int>)
    requires img.Valid() && ElementOk(element)
    ensures m.Valid() && m.rows == img.rows && m.cols == img.cols
    ensures forall i, j :: 0 <= i < img.rows && 0 <= j < img.cols ==>
      m.At(i, j) == if Touches(img, element, i, j) then hi else 0
  {
    var m := Matrix(img.rows, img.cols, seq(img.rows * img.cols, k requires 0 <= k < img.rows * img.cols =>
      IndexCell(k, img.rows, img.cols);
      if Touches(img, element, k / img.cols, k % img.cols) then hi else 0));
    forall i, j | 0 <= i < img.rows && 0 <= j < img.cols
      ensures m.At(i, j) == if Touches(img, element, i, j) then hi else 0
    {
      CellInRange(i, j, img.rows, img.cols);
      CellDivMod(i, j, img.cols);
    }
    m
  }

  /** erode(img, element), with hi = numeric_limits<Dtype>::max(): the scan
      of each window stops at the first set element position whose window
      value is 0. */
  method Erode(img: Matrix<int>, element: Matrix<int>, hi: int) returns (newImg: Matrix<int>)
    requires img.Valid() && ElementOk(element)
    ensures newImg == Eroded(img, element, hi)
  {
    var out := new int[img.rows, img.cols];
    var rheight, rwidth := element.rows / 2, element.cols / 2;
    for i := 0 to img.rows
      invariant forall i', j :: 0 <= i' < i && 0 <= j < img.cols ==>
        out[i', j] == if Fits(img, element, i', j) then hi else 0
    {
      for j := 0 to img.cols
        invariant forall i', j' :: 0 <= i' < i && 0 <= j' < img.cols ==>
          out[i', j'] == if Fits(img, element, i', j') then hi else 0
        invariant forall j' :: 0 <= j' < j ==>
          out[i, j'] == if Fits(img, element, i, j') then hi else 0
      {
        var patch := Patch(img, i, j, rheight, rwidth);
        WindowMatchesElement(img, element, i, j);
        var flag := true;
        for e := 0 to |patch|
          invariant forall e' :: 0 <= e' < e ==> Covered(element.data[e'], patch[e'])
        {
          if element.data[e] != 0 && patch[e] == 0 {
            flag := false;
            break;
          }
        }
        out[i, j] := if flag then hi else 0;
      }
    }
    newImg := FromArray2(out);
    Extensionality(newImg, Eroded(img, element, hi));
  }

  /** dilate(img, element): the scan stops at the first set element
      position whose window value is set. */
  method Dilate(img: Matrix<int>, element: Matrix<int>, hi: int) returns (newImg: Matrix<int>)
    requires img.Valid() && ElementOk(element)
    ensures newImg == Dilated(img, element, hi)
  {
    var out := new int[img.rows, img.cols];
    var rheight, rwidth := element.rows / 2, element.cols / 2;
    for i := 0 to img.rows
      invariant forall i', j :: 0 <= i' < i && 0 <= j < img.cols ==>
        out[i', j] == if Touches(img, element, i', j) then hi else 0
    {
      for j := 0 to img.cols
        invariant forall i', j' :: 0 <= i' < i && 0 <= j' < img.cols ==>
          out[i', j'] == if Touches(img, element, i', j') then hi else 0
        invariant forall j' :: 0 <= j' < j ==>
          out[i, j'] == if Touches(img, element, i, j') then hi else 0
      {
        var patch := Patch(img, i, j, rheight, rwidth);
        WindowMatchesElement(img, element, i, j);
        var flag := false;
        for e := 0 to |patch|
          invariant forall e' :: 0 <= e' < e ==> !Hit(element.data[e'], patch[e'])
        {
          if element.data[e] != 0 && patch[e] != 0 {
            flag := true;
            break;
          }
        }
        out[i, j] := if flag then hi else 0;
      }
    }
    newImg := FromArray2(out);
    Extensionality(newImg, Dilated(img, element, hi));
  }

  /** open(img, element) == dilate(erode(img, element), element). */
  method Open(img: Matrix<int>, element: Matrix<int>, hi: int) returns (r: Matrix<int>)
    requires img.Valid() && ElementOk(element)
    ensures r == Dilated(Eroded(img, element, hi), element, hi)
  {
    var eroded := Erode(img, element, hi);
    r := Dilate(eroded, element, hi);
  }

  /** close(img, element) == erode(dilate(img, element), element). */
  method Close(img: Matrix<int>, element: Matrix<int>, hi: int) returns (r: Matrix<int>)
    requires img.Valid() && ElementOk(element)
    ensures r == Eroded(Dilated(img, element, hi), element, hi)
  {
    var dilated := Dilate(img, element, hi);
    r := Erode(dilated, element, hi);
  }

  /** Erosion and dilation produce binary images: every value is 0 or hi. */
  lemma ErodedDilatedBinary(img: Matrix<int>, element: Matrix<int>, hi: int, i: nat, j: nat)
    requires img.Valid() && ElementOk(element) && i < img.rows && j < img.cols
    ensures Eroded(img, element, hi).At(i, j) in {0, hi}
    ensures Dilated(img, element, hi).At(i, j) in {0, hi}
  {
  }

  /** The element's centre sits on the window's centre. */
  lemma CentreAligned(img: Matrix<int>, element: Matrix<int>, i: nat, j: nat)
    requires img.Valid() && ElementOk(element) && i < img.rows && j < img.cols
    ensures PatchCentre(element.rows / 2, element.cols / 2) < |element.data|
    ensures element.data[PatchCentre(element.rows / 2, element.cols / 2)] == element.At(element.rows / 2, element.cols / 2)
    ensures Patch(img, i, j, element.rows / 2, element.cols / 2)[PatchCentre(element.rows / 2, element.cols / 2)] == img.At(i, j)
  {
    WindowMatchesElement(img, element, i, j);
    PatchCentreValue(img, i, j, element.rows / 2, element.cols / 2);
    assert 2 * (element.cols / 2) + 1 == element.cols;
  }

  /** With the element's centre set, erosion only keeps set pixels. */
  lemma ErodeShrinks(img: Matrix<int>, element: Matrix<int>, hi: int, i: nat, j: nat)
    requires img.Valid() && ElementOk(element) && i < img.rows && j < img.cols
    requires element.At(element.rows / 2, element.cols / 2) != 0
    ensures Eroded(img, element, hi).At(i, j) != 0 ==> img.At(i, j) != 0
  {
    CentreAligned(img, element, i, j);
  }

  /** With the element's centre set and hi != 0, dilation keeps every set
      pixel. */
  lemma DilateGrows(img: Matrix<int>, element: Matrix<int>, hi: int, i: nat, j: nat)
    requires img.Valid() && ElementOk(element) && i < img.rows && j < img.cols
    requires element.At(element.rows / 2, element.cols / 2) != 0 && hi != 0
    ensures img.At(i, j) != 0 ==> Dilated(img, element, hi).At(i, j) == hi
  {
    CentreAligned(img, element, i, j);
    var c := PatchCentre(element.rows / 2, element.cols / 2);
    if img.At(i, j) != 0 {
      assert Hit(element.data[c], Patch(img, i, j, element.rows / 2, element.cols / 2)[c]);
    }
  }

  /** Dilating an all-zero image gives an all-zero image. */
  lemma DilateOfZero(img: Matrix<int>, element: Matrix<int>, hi: int, i: nat, j: nat)
    requires img.Valid() && ElementOk(element) && i < img.rows && j < img.cols
    requires forall k :: 0 <= k < |img.data| ==> img.data[k] == 0
    ensures Dilated(img, element, hi).At(i, j) == 0
  {
    PatchOfConstant(img, 0, i, j, element.rows / 2, element.cols / 2);
  }

  /** Eroding an image with no zero pixel sets every pixel to hi. */
  lemma ErodeOfFull(img: Matrix<int>, element: Matrix<int>, hi: int, v: int, i: nat, j: nat)
    requires img.Valid() && ElementOk(element) && i < img.rows && j < img.cols
    requires v != 0 && forall k :: 0 <= k < |img.data| ==> img.data[k] == v
    ensures Eroded(img, element, hi).At(i, j) == hi
  {
    PatchOfConstant(img, v, i, j, element.rows / 2, element.cols / 2);
  }

  /** With an all-ones rectangle, erosion keeps a pixel iff its whole
      window is set, and dilation sets it iff some window value is set. */
  lemma RectangleWindows(img: Matrix<int>, width: nat, height: nat, hi: int, i: nat, j: nat)
    requires width % 2 == 1 && height % 2 == 1
    requires img.Valid() && i < img.rows && j < img.cols && hi != 0
    ensures var p := Patch(img, i, j, height / 2, width / 2);
      (Eroded(img, Rectangle(width, height), hi).At(i, j) == hi <==> forall e :: 0 <= e < |p| ==> p[e] != 0)
    ensures var p := Patch(img, i, j, height / 2, width / 2);
      (Dilated(img, Rectangle(width, height), hi).At(i, j) == hi <==> exists e :: 0 <= e < |p| && p[e] != 0)
  {
    var el := Rectangle(width, height);
    WindowMatchesElement(img, el, i, j);
  }

  /** The guard erode and dilate are written with: it tests the element's
      dims[0] and its buffer value element[1] (None when that value does not
      exist: the read is outside the buffer). */
  function WrittenGuard(element: Matrix<int>): (r: Option<bool>)
    requires element.Valid()
    ensures r.None? <==> |element.data| < 2
    ensures r == Some(true) ==> element.rows % 2 == 1
  {
    if |element.data| < 2 then None
    else Some(element.rows % 2 == 1 && element.data[1] % 2 == 1)
  }

  /** The written guard admits a 1 x 2 all-ones element, whose 1 x 3 window
      is larger than the element: the scan reads element[2], outside its
      buffer. */
  lemma WrittenGuardAdmitsEvenWidth(img: Matrix<int>, i: nat, j: nat)
    requires img.Valid() && i < img.rows && j < img.cols
    ensures var el := Matrix(1, 2, [1, 1]);
      WrittenGuard(el) == Some(true) && !ElementOk(el) &&
      |Patch(img, i, j, el.rows / 2, el.cols / 2)| == 3 > |el.data|
  {
  }

  /** The guard on dims accepts exactly the elements whose window has the
      element's own size in both directions. */
  lemma ElementOkIffWindowFits(element: Matrix<int>)
    requires element.Valid()
    ensures ElementOk(element) <==>
      2 * (element.rows / 2) + 1 == element.rows && 2 * (element.cols / 2) + 1 == element.cols
  {
  }
}
