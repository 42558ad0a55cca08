/** VectorBase: a fixed-length vector that owns its buffer and keeps an
    element count and a byte count beside it. */
module VectorBase {
  import MatrixOps
  import VectorOps

  /** The index of the first maximal entry (std::max_element), 0 for the
      empty vector (the end iterator minus begin). */
  function ArgMaxOf(s: seq<int>): (k: nat)
    ensures |s| == 0 ==> k == 0
    ensures |s| > 0 ==> k < |s| && (forall i :: 0 <= i < |s| ==> s[i] <= s[k])
    ensures forall i :: 0 <= i < k && k < |s| ==> s[i] < s[k]
  {
    if |s| <= 1 then 0
    else
      var k := ArgMaxOf(s[..|s| - 1]);
      if s[|s| - 1] > s[k] then |s| - 1 else k
  }

  /** The index of the first minimal entry (std::min_element). */
  function ArgMinOf(s: seq<int>): (k: nat)
    ensures |s| == 0 ==> k == 0
    ensures |s| > 0 ==> k < |s| && (forall i :: 0 <= i < |s| ==> s[k] <= s[i])
    ensures forall i :: 0 <= i < k && k < |s| ==> s[k] < s[i]
  {
    if |s| <= 1 then 0
    else
      var k := ArgMinOf(s[..|s| - 1]);
      if s[|s| - 1] < s[k] then |s| - 1 else k
  }

  class Vector {
    /** The Length template parameter. */
    const length: nat
    /** sizeof(Dtype). */
    const elemSize: nat
    var nelements: int
    var nbytes: int
    /** The std::array storage, embedded in the object. */
    const data: array<int>

    ghost predicate Valid()
      reads this
    {
      data.Length == length
    }

    /** The default constructor: Length elements, contents unspecified. */
    constructor Default(length: nat, elemSize: nat)
      ensures Valid() && this.length == length && this.elemSize == elemSize && fresh(data)
      ensures nelements == length && nbytes == length * elemSize
    {
      this.length := length;
      this.elemSize := elemSize;
      nelements := length;
      nbytes := length * elemSize;
      data := new int[length];
    }

    /** The scalar-fill constructor: every element is scalar. */
    constructor Fill(length: nat, elemSize: nat, scalar: int)
      ensures Valid() && this.length == length && this.elemSize == elemSize && fresh(data)
      ensures nelements == length && nbytes == elemSize * length
      ensures forall i :: 0 <= i < data.Length ==> data[i] == scalar
    {
      this.length := length;
      this.elemSize := elemSize;
      nelements := length;
      nbytes := elemSize * length;
      data := new int[length](_ => scalar);
    }

    /** The move constructor: takes other's count and elements, recomputes
        the byte count from the count, and leaves other's counts at 0. */
    constructor Move(other: Vector)
      requires other.Valid()
      modifies other
      ensures Valid() && length == other.length && elemSize == other.elemSize && fresh(data)
      ensures nelements == old(other.nelements) && nbytes == nelements * elemSize
      ensures data[..] == other.data[..] && other.data[..] == old(other.data[..])
      ensures other.nelements == 0 && other.nbytes == 0
    {
      length := other.length;
      elemSize := other.elemSize;
      nelements := other.nelements;
      nbytes := other.nelements * other.elemSize;
      var src := other.data;
      data := new int[other.length](i requires 0 <= i < src.Length reads src => src[i]);
      new;
      other.nelements := 0;
      other.nbytes := 0;
    }

    /** Move assignment: unless other is this object, copy counts and
        elements from other and zero other's counts. */
    method MoveAssign(other: Vector)
      requires Valid() && other.Valid() && other.length == length
      requires other != this ==> other.data != data
      modifies this, other, data
      ensures other == this ==> nelements == old(nelements) && nbytes == old(nbytes) && data[..] == old(data[..])
      ensures other != this ==> nelements == old(other.nelements) && nbytes == old(other.nbytes)
      ensures other != this ==> data[..] == old(other.data[..]) && other.nelements == 0 && other.nbytes == 0
    {
      if other != this {
        nelements := other.nelements;
        other.nelements := 0;
        nbytes := other.nbytes;
        other.nbytes := 0;
        for i := 0 to data.Length
          invariant forall k :: 0 <= k < i ==> data[k] == other.data[k]
          invariant other.data[..] == old(other.data[..])
          modifies data
        {
          data[i] := other.data[i];
        }
        assert data[..] == other.data[..];
      }
    }

    function Size(): int
      reads this
    {
      nelements
    }

    function SizeInBytes(): int
      reads this
    {
      nbytes
    }

    /** apply(f) in place: every element becomes f of itself; nothing else
        changes. */
    method Apply(f: int -> int)
      modifies data
      ensures data[..] == VectorOps.Map(old(data[..]), f)
    {
      for i := 0 to data.Length
        invariant forall k :: 0 <= k < i ==> data[k] == f(old(data[k]))
        invariant forall k :: i <= k < data.Length ==> data[k] == old(data[k])
      {
        data[i] := f(data[i]);
      }
    }

    /** operator/= (lines 148-153): asserts a nonzero divisor, then divides
        every element, truncating toward zero. */
    method DivAssign(scalar: int)
      requires scalar != 0
      modifies data
      ensures data[..] == VectorOps.DivScalar(old(data[..]), scalar)
    {
      Apply(d => MatrixOps.TruncDiv(d, scalar));
    }

    method MulAssign(scalar: int)
      modifies data
      ensures data[..] == VectorOps.MulScalar(old(data[..]), scalar)
    {
      Apply(d => d * scalar);
    }

    method AddAssign(scalar: int)
      modifies data
      ensures data[..] == VectorOps.AddScalar(old(data[..]), scalar)
    {
      Apply(d => d + scalar);
    }

    method SubAssign(scalar: int)
      modifies data
      ensures data[..] == VectorOps.SubScalar(old(data[..]), scalar)
    {
      Apply(d => d - scalar);
    }

    /** apply(f) const: a new vector holding f of every element. The new
        vector is built by the scalar-fill constructor, so its counts are
        those of a full vector. */
    method ApplyCopy(f: int -> int) returns (v: Vector)
      requires Valid()
      ensures fresh(v) && fresh(v.data) && v.Valid() && v.length == length
      ensures v.nelements == length && v.nbytes == elemSize * length
      ensures v.data[..] == VectorOps.Map(data[..], f)
    {
      v := new Vector.Fill(length, elemSize, nelements);
      for i := 0 to data.Length
        invariant forall k :: 0 <= k < i ==> v.data[k] == f(data[k])
        modifies v.data
      {
        v.data[i] := f(data[i]);
      }
    }

    /** Unary minus: a new vector with every element negated. */
    method Negate() returns (v: Vector)
      requires Valid()
      ensures fresh(v) && fresh(v.data) && v.Valid() && v.length == length
      ensures v.nelements == length && v.nbytes == elemSize * length
      ensures |v.data[..]| == data.Length && forall i :: 0 <= i < data.Length ==> v.data[i] == -data[i]
    {
      v := ApplyCopy(e => -e);
    }

    /** argmax(): the index of the first maximal element. */
    function ArgMax(): (k: nat)
      reads this, data
      ensures data.Length > 0 ==> k < data.Length
    {
      ArgMaxOf(data[..])
    }

    function ArgMin(): (k: nat)
      reads this, data
      ensures data.Length > 0 ==> k < data.Length
    {
      ArgMinOf(data[..])
    }

    /** max(): the element max_element points at; undefined on an empty
        vector. */
    function Max(): (m: int)
      requires data.Length > 0
      reads this, data
      ensures m == data[ArgMax()]
      ensures (forall i :: 0 <= i < data.Length ==> data[i] <= m) && exists i :: 0 <= i < data.Length && data[i] == m
    {
      data[ArgMax()]
    }

    function Min(): (m: int)
      requires data.Length > 0
      reads this, data
      ensures m == data[ArgMin()]
      ensures (forall i :: 0 <= i < data.Length ==> m <= data[i]) && exists i :: 0 <= i < data.Length && data[i] == m
    {
      data[ArgMin()]
    }
  }

  /** The first maximum of a vector is at argmax, and no earlier element is
      as large. */
  lemma ArgMaxFirst(v: Vector)
    requires v.data.Length > 0
    ensures v.data[v.ArgMax()] == v.Max()
    ensures forall i :: 0 <= i < v.ArgMax() ==> v.data[i] < v.Max()
  {
    assert v.data[..][v.ArgMax()] == v.data[v.ArgMax()];
  }
}
