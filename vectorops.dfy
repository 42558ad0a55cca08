/** Free-function vector operators on integer vectors (value semantics:
    every operator works on a copy). */
module VectorOps {
  import MatrixOps
  import opened Decimal

  /** v with every entry mapped through f. */
  function Map(v: seq<int>, f: int -> int): (r: seq<int>)
    ensures |r| == |v| && forall i :: 0 <= i < |v| ==> r[i] == f(v[i])
  {
    seq(|v|, i requires 0 <= i < |v| => f(v[i]))
  }

  /** v / s (lines 4-9): `v /= s`, C++ truncating division; s != 0 is
      asserted by `/=`. */
  function DivScalar(v: seq<int>, s: int): (r: seq<int>)
    requires s != 0
    ensures |r| == |v| && forall i :: 0 <= i < |v| ==> r[i] == MatrixOps.TruncDiv(v[i], s)
  {
    Map(v, e => MatrixOps.TruncDiv(e, s))
  }

  /** v * s (lines 11-16). */
  function MulScalar(v: seq<int>, s: int): (r: seq<int>)
    ensures |r| == |v| && forall i :: 0 <= i < |v| ==> r[i] == v[i] * s
  {
    Map(v, e => e * s)
  }

  /** s * v (lines 18-22): delegates to v * s. */
  function ScalarMul(s: int, v: seq<int>): (r: seq<int>)
    ensures |r| == |v| && forall i :: 0 <= i < |v| ==> r[i] == s * v[i]
  {
    MulScalar(v, s)
  }

  /** v + s (lines 24-29). */
  function AddScalar(v: seq<int>, s: int): (r: seq<int>)
    ensures |r| == |v| && forall i :: 0 <= i < |v| ==> r[i] == v[i] + s
  {
    Map(v, e => e + s)
  }

  /** v - s (lines 37-42). */
  function SubScalar(v: seq<int>, s: int): (r: seq<int>)
    ensures |r| == |v| && forall i :: 0 <= i < |v| ==> r[i] == v[i] - s
  {
    Map(v, e => e - s)
  }

  /** (v + s) - s == v. */
  lemma AddSubScalar(v: seq<int>, s: int)
    ensures SubScalar(AddScalar(v, s), s) == v
  {
  }

  /** v1 + v2 (lines 45-55): the sizes must agree; entrywise sum. */
  method Add(v1: seq<int>, v2: seq<int>) returns (r: seq<int>)
    requires |v1| == |v2|
    ensures |r| == |v1| && forall i :: 0 <= i < |v1| ==> r[i] == v1[i] + v2[i]
  {
    var a := new int[|v1|];
    for i := 0 to |v1|
      invariant forall k :: 0 <= k < i ==> a[k] == v1[k] + v2[k]
    {
      a[i] := v1[i] + v2[i];
    }
    r := a[..];
  }

  /** v1 - v2 (lines 57-67). */
  method Sub(v1: seq<int>, v2: seq<int>) returns (r: seq<int>)
    requires |v1| == |v2|
    ensures |r| == |v1| && forall i :: 0 <= i < |v1| ==> r[i] == v1[i] - v2[i]
  {
    var a := new int[|v1|];
    for i := 0 to |v1|
      invariant forall k :: 0 <= k < i ==> a[k] == v1[k] - v2[k]
    {
      a[i] := v1[i] - v2[i];
    }
    r := a[..];
  }

  /** lhs == rhs (lines 70-81): the sizes must agree; stops at the first
      differing entry. */
  method Equal(lhs: seq<int>, rhs: seq<int>) returns (eq: bool)
    requires |lhs| == |rhs|
    ensures eq <==> lhs == rhs
  {
    for i := 0 to |lhs|
      invariant lhs[..i] == rhs[..i]
    {
      if lhs[i] != rhs[i] {
        return false;
      }
      assert lhs[..i + 1] == lhs[..i] + [lhs[i]] && rhs[..i + 1] == rhs[..i] + [rhs[i]];
    }
    assert lhs[..|lhs|] == lhs && rhs[..|rhs|] == rhs;
    return true;
  }

  /** lhs != rhs (lines 83-88): the negation of ==. */
  method NotEqual(lhs: seq<int>, rhs: seq<int>) returns (ne: bool)
    requires |lhs| == |rhs|
    ensures ne <==> lhs != rhs
  {
    var eq := Equal(lhs, rhs);
    ne := !eq;
  }

  /** `<` compares floating norms, so it is a parameter here; the other
      three orderings are derived from it (lines 99-120). */
  predicate Greater(less: (seq<int>, seq<int>) -> bool, lhs: seq<int>, rhs: seq<int>) {
    less(rhs, lhs)
  }

  predicate LessEq(less: (seq<int>, seq<int>) -> bool, lhs: seq<int>, rhs: seq<int>) {
    !Greater(less, lhs, rhs)
  }

  predicate GreaterEq(less: (seq<int>, seq<int>) -> bool, lhs: seq<int>, rhs: seq<int>) {
    !less(lhs, rhs)
  }

  /** The derived orderings relate to `<` and to each other by swapping
      and negating; exactly one of `<` and `>=` holds. */
  lemma DerivedOrders(less: (seq<int>, seq<int>) -> bool, a: seq<int>, b: seq<int>)
    ensures Greater(less, a, b) <==> less(b, a)
    ensures LessEq(less, a, b) <==> GreaterEq(less, b, a)
    ensures less(a, b) != GreaterEq(less, a, b)
    ensures LessEq(less, a, b) || Greater(less, a, b)
  {
  }

  /** The entries printed one after another, each followed by ", ". */
  function Separated(v: seq<int>): string
  {
    if v == [] then "" else Separated(v[..|v| - 1]) + IntToString(v[|v| - 1]) + ", "
  }

  lemma SeparatedStep(v: seq<int>, i: nat)
    requires i < |v|
    ensures Separated(v[..i + 1]) == Separated(v[..i]) + IntToString(v[i]) + ", "
  {
    assert v[..i + 1][..i] == v[..i];
  }

  /** operator<< (lines 137-148): "[]" for the empty vector, otherwise "["
      then the entries joined by ", " then "]". */
  function FormatText(v: seq<int>): (out: string)
    ensures |out| >= 2 && out[0] == '[' && out[|out| - 1] == ']'
  {
    if v == [] then "[]" else "[" + Separated(v[..|v| - 1]) + IntToString(v[|v| - 1]) + "]"
  }

  /** The printing loop of operator<< computes FormatText. */
  method Format(v: seq<int>) returns (out: string)
    ensures out == FormatText(v)
  {
    if |v| == 0 {
      return "[]";
    }
    var body := "";
    for i := 0 to |v| - 1
      invariant body == Separated(v[..i])
    {
      SeparatedStep(v, i);
      body := body + IntToString(v[i]) + ", ";
    }
    out := "[" + body + IntToString(v[|v| - 1]) + "]";
  }

  /** A text built as pre + d + "]" holds d just before the ']'. */
  lemma DigitsBeforeClose(pre: string, d: string)
    ensures var out := pre + d + "]"; out[|out| - 1 - |d|..|out| - 1] == d
  {
    var out := pre + d + "]";
    assert out[..|out| - 1] == pre + d;
    assert out[|out| - 1 - |d|..|out| - 1] == (pre + d)[|pre|..];
  }

  /** The text of a non-empty vector ends, just before its closing ']', with
      the last entry's digits, and a one-entry vector prints as "[x]". */
  lemma FormatShape(v: seq<int>)
    requires v != []
    ensures var out := FormatText(v); var d := IntToString(v[|v| - 1]);
      |d| + 2 <= |out| && out[|out| - 1 - |d|..|out| - 1] == d &&
      (|v| == 1 ==> out == "[" + d + "]")
  {
    var d := IntToString(v[|v| - 1]);
    var pre := "[" + Separated(v[..|v| - 1]);
    assert FormatText(v) == pre + d + "]";
    DigitsBeforeClose(pre, d);
    if |v| == 1 {
      assert v[..0] == [];
    }
  }

  /** Extending "[" + body + "]" by one entry xs: the ']' becomes ", " + xs
      + "]". */
  lemma ExtendClose(out: string, t: string, body: string, xs: string)
    requires out == "[" + body + "]" && t == "[" + (body + ", ") + xs + "]"
    ensures t == out[..|out| - 1] + ", " + xs + "]"
  {
    assert out[..|out| - 1] == "[" + body;
  }

  /** The printed text of a non-empty vector. */
  lemma FormatNonEmpty(v: seq<int>)
    requires v != []
    ensures FormatText(v) == "[" + (Separated(v[..|v| - 1]) + IntToString(v[|v| - 1])) + "]"
  {
  }

  /** The separated entries of a non-empty vector. */
  lemma SeparatedNonEmpty(v: seq<int>)
    requires v != []
    ensures Separated(v) == (Separated(v[..|v| - 1]) + IntToString(v[|v| - 1])) + ", "
  {
  }

  /** The printed text of v + [x], in terms of the separated entries of v. */
  lemma FormatSnoc(v: seq<int>, x: int)
    ensures FormatText(v + [x]) == "[" + Separated(v) + IntToString(x) + "]"
  {
    var w := v + [x];
    assert w[..|w| - 1] == v;
  }

  /** Printing one more entry replaces the closing ']' by ", ", the new
      entry's digits and ']'. */
  lemma FormatAppend(v: seq<int>, x: int)
    requires v != []
    ensures var out := FormatText(v);
      FormatText(v + [x]) == out[..|out| - 1] + ", " + IntToString(x) + "]"
  {
    var body := Separated(v[..|v| - 1]) + IntToString(v[|v| - 1]);
    var out := FormatText(v);
    var t := FormatText(v + [x]);
    assert out == "[" + body + "]" by {
      FormatNonEmpty(v);
    }
    assert t == "[" + (body + ", ") + IntToString(x) + "]" by {
      FormatSnoc(v, x);
      SeparatedNonEmpty(v);
    }
    ExtendClose(out, t, body, IntToString(x));
  }
}
