/** Integer matrix algebra: scalar and elementwise operators, matrix
    products, equality and the elementwise absolute value. */
module MatrixOps {
  import opened Grid

  /** Matrix::apply: f on every element, same dims. */
  function Apply(m: Matrix<int>, f: int -> int): (r: Matrix<int>)
    requires m.Valid()
    ensures r.Valid() && r.SameShape(m)
    ensures forall i :: 0 <= i < |m.data| ==> r.data[i] == f(m.data[i])
  {
    Matrix(m.rows, m.cols, seq(|m.data|, i requires 0 <= i < |m.data| => f(m.data[i])))
  }

  /** C++ integer division: the quotient truncated toward zero. */
  function TruncDiv(a: int, b: int): int
    requires b != 0
  {
    var q := Abs(a) / Abs(b);
    if (a < 0) != (b < 0) then -q else q
  }

  function Abs(v: int): nat { if v < 0 then -v else v }

  /** The truncated quotient leaves a remainder smaller than the divisor
      and of the dividend's sign. */
  lemma TruncDivRemainder(a: int, b: int)
    requires b != 0
    ensures Abs(a - TruncDiv(a, b) * b) < Abs(b)
    ensures a >= 0 ==> a - TruncDiv(a, b) * b >= 0
    ensures a <= 0 ==> a - TruncDiv(a, b) * b <= 0
  {
    var q, rem := Abs(a) / Abs(b), Abs(a) % Abs(b);
    var qb := q * Abs(b);
    assert Abs(a) == qb + rem && 0 <= rem < Abs(b);
    var t := TruncDiv(a, b);
    SignMul(q, Abs(b));
    assert t * b == (if a < 0 then -qb else qb);
  }

  lemma SignMul(q: int, b: int)
    ensures (-q) * b == -(q * b) && q * (-b) == -(q * b) && (-q) * (-b) == q * b
  {
  }

  /** m / s (lines 17-21): every element divided by s, truncating. */
  function DivScalar(m: Matrix<int>, s: int): (r: Matrix<int>)
    requires m.Valid() && s != 0
    ensures r.Valid() && r.SameShape(m)
    ensures forall i :: 0 <= i < |m.data| ==> r.data[i] == TruncDiv(m.data[i], s)
  {
    Apply(m, e => TruncDiv(e, s))
  }

  /** m * s (lines 29-33). */
  function MulScalar(m: Matrix<int>, s: int): (r: Matrix<int>)
    requires m.Valid()
    ensures r.Valid() && r.SameShape(m)
    ensures forall i :: 0 <= i < |m.data| ==> r.data[i] == m.data[i] * s
  {
    Apply(m, e => e * s)
  }

  /** s * m (lines 41-45), which delegates to m * s. */
  function ScalarMul(s: int, m: Matrix<int>): (r: Matrix<int>)
    requires m.Valid()
    ensures r.Valid() && r.SameShape(m)
    ensures forall i :: 0 <= i < |m.data| ==> r.data[i] == s * m.data[i]
  {
    MulScalar(m, s)
  }

  /** m + s (lines 48-52). */
  function AddScalar(m: Matrix<int>, s: int): (r: Matrix<int>)
    requires m.Valid()
    ensures r.Valid() && r.SameShape(m)
    ensures forall i :: 0 <= i < |m.data| ==> r.data[i] == m.data[i] + s
  {
    Apply(m, e => e + s)
  }

  /** s + m (lines 55-59), which delegates to m + s. */
  function ScalarAdd(s: int, m: Matrix<int>): (r: Matrix<int>)
    requires m.Valid()
    ensures r.Valid() && r.SameShape(m)
    ensures forall i :: 0 <= i < |m.data| ==> r.data[i] == s + m.data[i]
  {
    AddScalar(m, s)
  }

  /** m - s (lines 85-90). */
  function SubScalar(m: Matrix<int>, s: int): (r: Matrix<int>)
    requires m.Valid()
    ensures r.Valid() && r.SameShape(m)
    ensures forall i :: 0 <= i < |m.data| ==> r.data[i] == m.data[i] - s
  {
    Apply(m, e => e - s)
  }

  /** Adding then subtracting the same scalar gives the matrix back. */
  lemma AddSubScalarInverse(m: Matrix<int>, s: int)
    requires m.Valid()
    ensures SubScalar(AddScalar(m, s), s) == m
  {
    var r := SubScalar(AddScalar(m, s), s);
    assert r.data == m.data;
  }

  /** m1 + m2 (lines 62-71): only the element counts must agree; the result
      takes m1's dims. */
  method Add(m1: Matrix<int>, m2: Matrix<int>) returns (r: Matrix<int>)
    requires m1.Valid() && m2.Valid() && |m1.data| == |m2.data|
    ensures r.Valid() && r.SameShape(m1)
    ensures forall i :: 0 <= i < |r.data| ==> r.data[i] == m1.data[i] + m2.data[i]
  {
    var a := new int[|m1.data|];
    for i := 0 to |m1.data|
      invariant forall k :: 0 <= k < i ==> a[k] == m1.data[k] + m2.data[k]
    {
      a[i] := m1.data[i] + m2.data[i];
    }
    r := Matrix(m1.rows, m1.cols, a[..]);
  }

  /** m1 - m2 (lines 74-83). */
  method Sub(m1: Matrix<int>, m2: Matrix<int>) returns (r: Matrix<int>)
    requires m1.Valid() && m2.Valid() && |m1.data| == |m2.data|
    ensures r.Valid() && r.SameShape(m1)
    ensures forall i :: 0 <= i < |r.data| ==> r.data[i] == m1.data[i] - m2.data[i]
  {
    var a := new int[|m1.data|];
    for i := 0 to |m1.data|
      invariant forall k :: 0 <= k < i ==> a[k] == m1.data[k] - m2.data[k]
    {
      a[i] := m1.data[i] - m2.data[i];
    }
    r := Matrix(m1.rows, m1.cols, a[..]);
  }

  /** The first n terms of row r of m1 times column c of m2. */
  function Dot(m1: Matrix<int>, m2: Matrix<int>, r: nat, c: nat, n: nat): int
    requires m1.Valid() && m2.Valid() && r < m1.rows && c < m2.cols && n <= m1.cols && n <= m2.rows
  {
    if n == 0 then 0 else Dot(m1, m2, r, c, n - 1) + m1.At(r, n - 1) * m2.At(n - 1, c)
  }

  /** m1 * m2 (lines 102-118). */
  method MatMul(m1: Matrix<int>, m2: Matrix<int>) returns (p: Matrix<int>)
    requires m1.Valid() && m2.Valid() && m1.cols == m2.rows
    ensures p.Valid() && p.rows == m1.rows && p.cols == m2.cols
    ensures forall r, c :: 0 <= r < m1.rows && 0 <= c < m2.cols ==> p.At(r, c) == Dot(m1, m2, r, c, m1.cols)
  {
    var mat := new int[m1.rows, m2.cols];
    for row := 0 to m1.rows
      invariant forall r, c :: 0 <= r < row && 0 <= c < m2.cols ==> mat[r, c] == Dot(m1, m2, r, c, m1.cols)
    {
      for col := 0 to m2.cols
        invariant forall r, c :: 0 <= r < row && 0 <= c < m2.cols ==> mat[r, c] == Dot(m1, m2, r, c, m1.cols)
        invariant forall c :: 0 <= c < col ==> mat[row, c] == Dot(m1, m2, row, c, m1.cols)
      {
        var sum := 0;
        for inner := 0 to m1.cols
          invariant sum == Dot(m1, m2, row, col, inner)
        {
          sum := sum + m1.At(row, inner) * m2.At(inner, col);
        }
        mat[row, col] := sum;
      }
    }
    p := FromArray2(mat);
  }

  /** The n x n identity matrix. */
  predicate IsIdentity(e: Matrix<int>, n: nat) {
    e.Valid() && e.rows == n && e.cols == n &&
    forall r, c :: 0 <= r < n && 0 <= c < n ==> e.At(r, c) == if r == c then 1 else 0
  }

  /** Multiplying by the identity on the right picks out one term. */
  lemma {:induction false} DotIdentity(m: Matrix<int>, e: Matrix<int>, r: nat, c: nat, n: nat)
    requires m.Valid() && IsIdentity(e, m.cols) && r < m.rows && c < m.cols && n <= m.cols
    ensures Dot(m, e, r, c, n) == if c < n then m.At(r, c) else 0
  {
    if n > 0 {
      DotIdentity(m, e, r, c, n - 1);
    }
  }

  /** m * I == m. */
  lemma MatMulIdentity(m: Matrix<int>, e: Matrix<int>, p: Matrix<int>)
    requires m.Valid() && IsIdentity(e, m.cols)
    requires p.Valid() && p.rows == m.rows && p.cols == m.cols
    requires forall r, c :: 0 <= r < m.rows && 0 <= c < m.cols ==> p.At(r, c) == Dot(m, e, r, c, m.cols)
    ensures p == m
  {
    forall r, c | 0 <= r < m.rows && 0 <= c < m.cols ensures p.At(r, c) == m.At(r, c) {
      DotIdentity(m, e, r, c, m.cols);
    }
    Extensionality(p, m);
  }

  /** The first n terms of row r of m times v. */
  function RowDot(m: Matrix<int>, v: seq<int>, r: nat, n: nat): int
    requires m.Valid() && r < m.rows && n <= m.cols && n <= |v|
  {
    if n == 0 then 0 else RowDot(m, v, r, n - 1) + m.At(r, n - 1) * v[n - 1]
  }

  /** m * v as written (lines 122-135): the result vector is allocated with
      v's length, not m's row count, so the rows must fit in it and the
      entries from m.rows on are never written. They are 0 here; what the
      source leaves there depends on how Vector's storage is initialised. */
  function MatVecWritten(m: Matrix<int>, v: seq<int>): (res: seq<int>)
    requires m.Valid() && m.cols == |v| && m.rows <= |v|
    ensures |res| == |v|
    ensures forall r :: 0 <= r < m.rows ==> res[r] == RowDot(m, v, r, m.cols)
    ensures forall r :: m.rows <= r < |v| ==> res[r] == 0
  {
    seq(|v|, r requires 0 <= r < |v| => if r < m.rows then RowDot(m, v, r, m.cols) else 0)
  }

  /** The nested loops of m * v as written compute MatVecWritten. */
  method MatVecAsWritten(m: Matrix<int>, v: seq<int>) returns (res: seq<int>)
    requires m.Valid() && m.cols == |v| && m.rows <= |v|
    ensures res == MatVecWritten(m, v)
  {
    var a := new int[|v|](_ => 0);
    for row := 0 to m.rows
      invariant forall r :: 0 <= r < row ==> a[r] == RowDot(m, v, r, m.cols)
      invariant forall r :: m.rows <= r < |v| ==> a[r] == 0
    {
      var sum := 0;
      for col := 0 to m.cols
        invariant sum == RowDot(m, v, row, col)
      {
        sum := sum + m.At(row, col) * v[col];
      }
      a[row] := sum;
    }
    res := a[..];
  }

  /** A 1 x 2 matrix times a 2-vector, as written, comes back as a 2-vector:
      one entry longer than the matrix has rows, the entry past the row
      being the unwritten 0. */
  lemma MatVecLengthMismatch()
    ensures var m := Matrix(1, 2, [1, 1]);
      m.Valid() && var res := MatVecWritten(m, [1, 1]);
      |res| == 2 && |res| != m.rows && res[0] == 2 && res[1] == 0
  {
    var m := Matrix(1, 2, [1, 1]);
    assert RowDot(m, [1, 1], 0, 2) == 2 by {
      assert RowDot(m, [1, 1], 0, 1) == 1;
    }
  }

  /** m * v as intended: one entry per row of m. */
  method MatVec(m: Matrix<int>, v: seq<int>) returns (res: seq<int>)
    requires m.Valid() && m.cols == |v|
    ensures |res| == m.rows
    ensures forall r :: 0 <= r < m.rows ==> res[r] == RowDot(m, v, r, m.cols)
  {
    var a := new int[m.rows];
    for row := 0 to m.rows
      invariant forall r :: 0 <= r < row ==> a[r] == RowDot(m, v, r, m.cols)
    {
      var sum := 0;
      for col := 0 to m.cols
        invariant sum == RowDot(m, v, row, col)
      {
        sum := sum + m.At(row, col) * v[col];
      }
      a[row] := sum;
    }
    res := a[..];
  }

  /** m * v on a square matrix: the written and intended versions agree. */
  lemma MatVecSquareAgrees(m: Matrix<int>, v: seq<int>, written: seq<int>, intended: seq<int>)
    requires m.Valid() && m.cols == |v| && m.rows == |v|
    requires |written| == |v| && forall r :: 0 <= r < m.rows ==> written[r] == RowDot(m, v, r, m.cols)
    requires |intended| == m.rows && forall r :: 0 <= r < m.rows ==> intended[r] == RowDot(m, v, r, m.cols)
    ensures written == intended
  {
  }

  /** lhs == rhs (lines 144-153): the sizes must agree; true iff every
      element is equal, stopping at the first difference. */
  method Equal(lhs: Matrix<int>, rhs: Matrix<int>) returns (eq: bool)
    requires |lhs.data| == |rhs.data|
    ensures eq <==> lhs.data == rhs.data
  {
    for i := 0 to |lhs.data|
      invariant lhs.data[..i] == rhs.data[..i]
    {
      if lhs.data[i] != rhs.data[i] {
        return false;
      }
      assert lhs.data[..i + 1] == lhs.data[..i] + [lhs.data[i]];
      assert rhs.data[..i + 1] == rhs.data[..i] + [rhs.data[i]];
    }
    assert lhs.data[..|lhs.data|] == lhs.data && rhs.data[..|rhs.data|] == rhs.data;
    return true;
  }

  /** math::abs (lines 232-236): the absolute value of every element. */
  function AbsMatrix(m: Matrix<int>): (r: Matrix<int>)
    requires m.Valid()
    ensures r.Valid() && r.SameShape(m)
    ensures forall i :: 0 <= i < |m.data| ==> r.data[i] == Abs(m.data[i])
  {
    Apply(m, e => Abs(e))
  }

  /** abs leaves non-negative entries and is idempotent. */
  lemma AbsMatrixFacts(m: Matrix<int>)
    requires m.Valid()
    ensures forall i :: 0 <= i < |m.data| ==> AbsMatrix(m).data[i] >= 0
    ensures AbsMatrix(AbsMatrix(m)) == AbsMatrix(m)
    ensures (forall i :: 0 <= i < |m.data| ==> m.data[i] >= 0) ==> AbsMatrix(m) == m
  {
    assert AbsMatrix(AbsMatrix(m)).data == AbsMatrix(m).data;
    if forall i :: 0 <= i < |m.data| ==> m.data[i] >= 0 {
      assert AbsMatrix(m).data == m.data;
    }
  }
}
