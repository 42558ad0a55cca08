/** Histogram, cumulative histogram and the integer parts of histogram
    equalisation for 8-bit images. */
module Histogram {
  import opened Grid

  /** The number of bins for uint8: numeric_limits<uint8_t>::max() + 1. */
  const Bins: nat := 256

  /** How many elements of s equal v. */
  function Count(s: seq<Byte>, v: int): (n: nat)
    ensures n <= |s|
  {
    if s == [] then 0 else Count(s[..|s| - 1], v) + (if s[|s| - 1] == v then 1 else 0)
  }

  /** The sum of a sequence of counts. */
  function Sum(s: seq<nat>): nat
  {
    if s == [] then 0 else Sum(s[..|s| - 1]) + s[|s| - 1]
  }

  /** The histogram of s: bin v counts the elements equal to v. */
  function Histo(s: seq<Byte>): (h: seq<nat>)
    ensures |h| == Bins && forall v :: 0 <= v < Bins ==> h[v] == Count(s, v)
  {
    seq(Bins, v => Count(s, v))
  }

  /** histogram(mat): bin v counts the pixels equal to v. */
  method Hist(mat: Matrix<Byte>) returns (hist: seq<nat>)
    requires mat.Valid()
    ensures |hist| == Bins
    ensures forall v :: 0 <= v < Bins ==> hist[v] == Count(mat.data, v)
  {
    var h := new nat[Bins](_ => 0);
    for i := 0 to mat.Size()
      invariant forall v :: 0 <= v < Bins ==> h[v] == Count(mat.data[..i], v)
    {
      assert mat.data[..i + 1][..i] == mat.data[..i];
      h[mat.data[i]] := h[mat.data[i]] + 1;
    }
    assert mat.data[..mat.Size()] == mat.data;
    hist := h[..];
  }

  /** Bumping entry x of a sequence bumps its sum. */
  lemma {:induction false} SumBump(h: seq<nat>, h': seq<nat>, x: nat)
    requires |h| == |h'| && x < |h|
    requires h'[x] == h[x] + 1 && forall v :: 0 <= v < |h| && v != x ==> h'[v] == h[v]
    ensures Sum(h') == Sum(h) + 1
    decreases |h|
  {
    var n := |h| - 1;
    if x == n {
      assert h'[..n] == h[..n];
    } else {
      SumBump(h[..n], h'[..n], x);
    }
  }

  /** The bins of a histogram add up to the number of pixels. */
  lemma {:induction false} HistTotal(s: seq<Byte>)
    ensures Sum(Histo(s)) == |s|
    decreases |s|
  {
    if s != [] {
      var init, x := s[..|s| - 1], s[|s| - 1];
      HistTotal(init);
      var h, h' := Histo(init), Histo(s);
      assert forall v :: 0 <= v < Bins ==> h'[v] == h[v] + (if v == x then 1 else 0);
      SumBump(h, h', x);
    } else {
      SumZero(Histo(s));
    }
  }

  lemma {:induction false} SumZero(h: seq<nat>)
    requires forall v :: 0 <= v < |h| ==> h[v] == 0
    ensures Sum(h) == 0
  {
    if h != [] {
      SumZero(h[..|h| - 1]);
    }
  }

  /** histogram_cdf(mat): entry i is the running sum of bins 0..i. The
      running sum is a double in the source; every partial sum of counts is
      an integer well inside its exact range. */
  method Cdf(mat: Matrix<Byte>) returns (cdf: seq<nat>)
    requires mat.Valid()
    ensures |cdf| == Bins
    ensures forall i :: 0 <= i < Bins ==> cdf[i] == CdfAt(mat.data, i)
  {
    var hist := Hist(mat);
    var sum := 0;
    var c := new nat[Bins];
    for i := 0 to Bins
      invariant sum == Sum(hist[..i])
      invariant forall k :: 0 <= k < i ==> c[k] == Sum(hist[..k + 1])
    {
      assert hist[..i + 1][..i] == hist[..i];
      sum := sum + hist[i];
      c[i] := sum;
    }
    cdf := c[..];
    assert hist == Histo(mat.data);
  }

  /** Cumulative entry v of the histogram of s: bins 0..v added up. */
  function CdfAt(s: seq<Byte>, v: Byte): nat
  {
    Sum(Histo(s)[..v + 1])
  }

  /** The cumulative histogram never decreases. */
  lemma CdfMonotone(s: seq<Byte>, i: Byte, j: Byte)
    requires i <= j
    ensures CdfAt(s, i) <= CdfAt(s, j)
  {
    SumPrefixMonotone(Histo(s), i + 1, j + 1);
  }

  lemma {:induction false} SumPrefixMonotone(h: seq<nat>, i: nat, j: nat)
    requires i <= j <= |h|
    ensures Sum(h[..i]) <= Sum(h[..j])
    decreases j - i
  {
    if i < j {
      SumPrefixMonotone(h, i, j - 1);
      assert h[..j][..j - 1] == h[..j - 1];
    }
  }

  /** The last cumulative entry is the number of pixels. */
  lemma CdfLast(s: seq<Byte>)
    ensures CdfAt(s, Bins - 1) == |s|
  {
    assert Histo(s)[..Bins] == Histo(s);
    HistTotal(s);
  }

  /** A value that occurs in the image has a nonzero cumulative entry. */
  lemma CdfOfPresentValue(s: seq<Byte>, v: Byte)
    requires v in s
    ensures CdfAt(s, v) > 0
  {
    var h := Histo(s)[..v + 1];
    CountPositive(s, v);
    assert h[..|h| - 1] == h[..v];
  }

  lemma {:induction false} CountPositive(s: seq<Byte>, v: Byte)
    requires v in s
    ensures Count(s, v) > 0
  {
    if s[|s| - 1] != v {
      assert v in s[..|s| - 1] by {
        var k :| 0 <= k < |s| && s[k] == v;
        assert s[..|s| - 1][k] == v;
      }
      CountPositive(s[..|s| - 1], v);
    }
  }

  /** The cdf_min search in equalize_hist (lines 48-54): the first nonzero
      cumulative entry, or 0 when there is none. */
  method CdfMin(cdf: seq<nat>) returns (cdfMin: nat)
    ensures cdfMin == 0 <==> forall i :: 0 <= i < |cdf| ==> cdf[i] == 0
    ensures cdfMin != 0 ==> exists i :: 0 <= i < |cdf| && cdf[i] == cdfMin && forall k :: 0 <= k < i ==> cdf[k] == 0
  {
    cdfMin := 0;
    for i := 0 to |cdf|
      invariant cdfMin == 0
      invariant forall k :: 0 <= k < i ==> cdf[k] == 0
    {
      if cdf[i] > 0 {
        cdfMin := cdf[i];
        return;
      }
    }
  }

  /** The equalised lookup table (lines 56-65): bins with cumulative count 0
      map to 0; the others through the rounding formula, which is floating
      point and so a parameter here: formula(cdf[i], cdf_min, size). */
  method EqualizedTable(cdf: seq<nat>, cdfMin: nat, size: nat, formula: (nat, nat, nat) -> nat)
    returns (table: seq<nat>)
    ensures |table| == |cdf|
    ensures forall i :: 0 <= i < |cdf| ==> table[i] == if cdf[i] == 0 then 0 else formula(cdf[i], cdfMin, size)
  {
    var t := new nat[|cdf|];
    for i := 0 to |cdf|
      invariant forall k :: 0 <= k < i ==> t[k] == if cdf[k] == 0 then 0 else formula(cdf[k], cdfMin, size)
    {
      if cdf[i] == 0 {
        t[i] := 0;
      } else {
        t[i] := formula(cdf[i], cdfMin, size);
      }
    }
    table := t[..];
  }

  /** The lookup (lines 68-71): each pixel becomes its table entry, stored
      into a uint8 (the uint32 entry keeps its low 8 bits). */
  method Lookup(mat: Matrix<Byte>, table: seq<nat>) returns (img: Matrix<Byte>)
    requires mat.Valid() && |table| == Bins
    ensures img.Valid() && img.rows == mat.rows && img.cols == mat.cols
    ensures forall i :: 0 <= i < |img.data| ==> img.data[i] == table[mat.data[i]] % 256
  {
    var out := new Byte[mat.Size()];
    for i := 0 to mat.Size()
      invariant forall k :: 0 <= k < i ==> out[k] == table[mat.data[k]] % 256
    {
      out[i] := table[mat.data[i]] % 256;
    }
    img := Matrix(mat.rows, mat.cols, out[..]);
  }

  /** The first nonzero entry of s, or 0 when there is none. */
  function FirstNonzero(s: seq<nat>): nat
  {
    if s == [] then 0 else if s[0] > 0 then s[0] else FirstNonzero(s[1..])
  }

  /** Any value with the two properties CdfMin promises is FirstNonzero. */
  lemma {:induction false} FirstNonzeroUnique(s: seq<nat>, m: nat)
    requires m == 0 <==> forall i :: 0 <= i < |s| ==> s[i] == 0
    requires m != 0 ==> exists i :: 0 <= i < |s| && s[i] == m && forall k :: 0 <= k < i ==> s[k] == 0
    ensures m == FirstNonzero(s)
  {
    if s != [] && s[0] == 0 {
      if m != 0 {
        var i :| 0 <= i < |s| && s[i] == m && forall k :: 0 <= k < i ==> s[k] == 0;
        assert s[1..][i - 1] == m;
        assert forall k :: 0 <= k < i - 1 ==> s[1..][k] == s[k + 1];
      } else {
        assert forall i :: 0 <= i < |s| - 1 ==> s[1..][i] == s[i + 1];
      }
      FirstNonzeroUnique(s[1..], m);
    } else if s != [] && m != 0 {
      var i :| 0 <= i < |s| && s[i] == m && forall k :: 0 <= k < i ==> s[k] == 0;
    }
  }

  /** The cumulative histogram of s as a sequence. */
  function CdfOf(s: seq<Byte>): (cdf: seq<nat>)
    ensures |cdf| == Bins
  {
    seq(Bins, v requires 0 <= v < Bins => CdfAt(s, v))
  }

  /** equalize_hist on its integer skeleton: every pixel v becomes the
      table entry for v, whose cumulative count is nonzero because v occurs. */
  method EqualizeHist(mat: Matrix<Byte>, formula: (nat, nat, nat) -> nat) returns (img: Matrix<Byte>)
    requires mat.Valid()
    ensures img.Valid() && img.rows == mat.rows && img.cols == mat.cols
    ensures forall i :: 0 <= i < |img.data| ==>
      img.data[i] == formula(CdfAt(mat.data, mat.data[i]), FirstNonzero(CdfOf(mat.data)), mat.Size()) % 256
  {
    var cdf := Cdf(mat);
    assert cdf == CdfOf(mat.data);
    var cdfMin := CdfMin(cdf);
    FirstNonzeroUnique(cdf, cdfMin);
    var table := EqualizedTable(cdf, cdfMin, mat.Size(), formula);
    img := Lookup(mat, table);
    forall i | 0 <= i < |img.data|
      ensures img.data[i] == formula(CdfAt(mat.data, mat.data[i]), cdfMin, mat.Size()) % 256
    {
      var v := mat.data[i];
      assert v in mat.data;
      CdfOfPresentValue(mat.data, v);
    }
  }
}
