/** Order statistics. std::sort and std::nth_element are library code; the
    model stands for both by one pure sort, an insertion sort proved to
    return the sorted permutation of its input, and reads element k of it. */
module Order {

  ghost predicate Sorted(s: seq<int>) {
    forall a, b :: 0 <= a < b < |s| ==> s[a] <= s[b]
  }

  /** Inserts x into a sorted sequence. */
  function Insert(x: int, s: seq<int>): (r: seq<int>)
    requires Sorted(s)
    ensures Sorted(r) && multiset(r) == multiset(s) + multiset{x} && |r| == |s| + 1
  {
    if s == [] then [x]
    else if x <= s[0] then
      SortedCons(x, s);
      [x] + s
    else
      var rest := Insert(x, s[1..]);
      InsertBehind(x, s, rest);
      [s[0]] + rest
  }

  /** When x goes behind s[0], s[0] stays in front of the insertion into the
      tail. */
  lemma InsertBehind(x: int, s: seq<int>, rest: seq<int>)
    requires Sorted(s) && s != [] && s[0] < x
    requires Sorted(rest) && multiset(rest) == multiset(s[1..]) + multiset{x}
    ensures Sorted([s[0]] + rest) && multiset([s[0]] + rest) == multiset(s) + multiset{x}
  {
    assert s == [s[0]] + s[1..];
    forall i | 0 <= i < |rest| ensures s[0] <= rest[i] {
      assert rest[i] in multiset(rest);
    }
    SortedCons(s[0], rest);
  }

  lemma SortedCons(y: int, t: seq<int>)
    requires Sorted(t) && forall i :: 0 <= i < |t| ==> y <= t[i]
    ensures Sorted([y] + t)
  {
  }

  /** The sorted permutation of s. */
  function Sort(s: seq<int>): (r: seq<int>)
    ensures Sorted(r) && multiset(r) == multiset(s) && |r| == |s|
  {
    if s == [] then []
    else
      assert s == [s[0]] + s[1..];
      Insert(s[0], Sort(s[1..]))
  }

  /** Number of elements of s strictly below v. */
  function CountBelow(s: seq<int>, v: int): nat {
    if s == [] then 0 else (if s[0] < v then 1 else 0) + CountBelow(s[1..], v)
  }

  /** Number of elements of s at most v. */
  function CountAtMost(s: seq<int>, v: int): nat {
    if s == [] then 0 else (if s[0] <= v then 1 else 0) + CountAtMost(s[1..], v)
  }

  /** Element k of the sorted window: the k-th smallest value (0-based). */
  function KthSmallest(s: seq<int>, k: nat): int
    requires k < |s|
  {
    Sort(s)[k]
  }

  lemma {:induction false} CountsSplit(a: seq<int>, b: seq<int>, v: int)
    ensures CountBelow(a + b, v) == CountBelow(a, v) + CountBelow(b, v)
    ensures CountAtMost(a + b, v) == CountAtMost(a, v) + CountAtMost(b, v)
  {
    if a != [] {
      assert (a + b)[1..] == a[1..] + b;
      CountsSplit(a[1..], b, v);
    } else {
      assert a + b == b;
    }
  }

  /** Removing element i takes it out of the multiset and out of the counts. */
  lemma RemoveAt(t: seq<int>, i: nat, v: int)
    requires i < |t|
    ensures multiset(t[..i] + t[i + 1..]) == multiset(t) - multiset{t[i]}
    ensures CountBelow(t, v) == CountBelow(t[..i] + t[i + 1..], v) + (if t[i] < v then 1 else 0)
    ensures CountAtMost(t, v) == CountAtMost(t[..i] + t[i + 1..], v) + (if t[i] <= v then 1 else 0)
  {
    var x := t[i];
    assert t == t[..i] + ([x] + t[i + 1..]);
    assert multiset(t) == multiset(t[..i]) + multiset{x} + multiset(t[i + 1..]);
    CountsSplit(t[..i], [x] + t[i + 1..], v);
    CountsSplit([x], t[i + 1..], v);
    CountsSplit(t[..i], t[i + 1..], v);
    assert [x][1..] == [];
  }

  /** The counts depend only on the multiset of elements. */
  lemma {:induction false} CountsOfPermutation(s: seq<int>, t: seq<int>, v: int)
    requires multiset(s) == multiset(t)
    ensures CountBelow(s, v) == CountBelow(t, v) && CountAtMost(s, v) == CountAtMost(t, v)
    decreases |s|
  {
    if s == [] {
      assert |t| == |multiset(t)| == 0;
    } else {
      var x := s[0];
      assert x in multiset(t);
      var i :| 0 <= i < |t| && t[i] == x;
      RemoveAt(t, i, v);
      RemoveHead(s, t, i);
      CountsOfPermutation(s[1..], t[..i] + t[i + 1..], v);
    }
  }

  /** Taking the same value out of two permutations leaves permutations. */
  lemma RemoveHead(s: seq<int>, t: seq<int>, i: nat)
    requires multiset(s) == multiset(t) && s != [] && i < |t| && t[i] == s[0]
    requires multiset(t[..i] + t[i + 1..]) == multiset(t) - multiset{t[i]}
    ensures multiset(s[1..]) == multiset(t[..i] + t[i + 1..])
  {
    assert s == [s[0]] + s[1..];
  }

  /** In a sorted sequence, below s[k] there are at most k elements, and at
      most s[k] there are more than k. */
  lemma {:induction false} SortedRank(s: seq<int>, k: nat)
    requires Sorted(s) && k < |s|
    ensures CountBelow(s, s[k]) <= k < CountAtMost(s, s[k])
  {
    var v := s[k];
    assert s == s[..k] + s[k..];
    CountsSplit(s[..k], s[k..], v);
    CountBelowBound(s[..k], v);
    NoneBelow(s[k..], v);
    AllAtMost(s[..k + 1], v);
    assert s == s[..k + 1] + s[k + 1..];
    CountsSplit(s[..k + 1], s[k + 1..], v);
  }

  lemma {:induction false} CountBelowBound(s: seq<int>, v: int)
    ensures CountBelow(s, v) <= |s|
  {
    if s != [] { CountBelowBound(s[1..], v); }
  }

  lemma {:induction false} NoneBelow(s: seq<int>, v: int)
    requires forall i :: 0 <= i < |s| ==> v <= s[i]
    ensures CountBelow(s, v) == 0
  {
    if s != [] { NoneBelow(s[1..], v); }
  }

  lemma {:induction false} AllAtMost(s: seq<int>, v: int)
    requires forall i :: 0 <= i < |s| ==> s[i] <= v
    ensures CountAtMost(s, v) == |s|
  {
    if s != [] { AllAtMost(s[1..], v); }
  }

  /** The k-th smallest value has rank k: fewer than k+1 values lie strictly
      below it and more than k lie at or below it. */
  lemma KthSmallestRank(s: seq<int>, k: nat)
    requires k < |s|
    ensures CountBelow(s, KthSmallest(s, k)) <= k < CountAtMost(s, KthSmallest(s, k))
  {
    SortedRank(Sort(s), k);
    CountsOfPermutation(s, Sort(s), KthSmallest(s, k));
  }

  /** The k-th smallest value is one of the values, so it lies between
      their minimum and maximum. */
  lemma KthSmallestMember(s: seq<int>, k: nat)
    requires k < |s|
    ensures KthSmallest(s, k) in s
    ensures exists i :: 0 <= i < |s| && s[i] <= KthSmallest(s, k)
    ensures exists i :: 0 <= i < |s| && KthSmallest(s, k) <= s[i]
  {
    var v := Sort(s)[k];
    assert v in multiset(Sort(s));
    assert v in multiset(s);
  }

  /** The k-th smallest value of a constant sequence is that constant. */
  lemma KthSmallestConstant(s: seq<int>, k: nat, v: int)
    requires k < |s| && forall i :: 0 <= i < |s| ==> s[i] == v
    ensures KthSmallest(s, k) == v
  {
    KthSmallestMember(s, k);
  }
}
