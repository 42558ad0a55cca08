/** util::multiply: the product of a non-empty argument pack, folded from
    the right (first * multiply(rest...)). */
module Util {

  function Multiply(args: seq<int>): int
    requires |args| > 0
  {
    if |args| == 1 then args[0] else args[0] * Multiply(args[1..])
  }

  /** The single-argument overload returns its argument; the variadic one
      multiplies the first argument into the rest. */
  lemma MultiplyUnfold(first: int, rest: seq<int>)
    ensures Multiply([first]) == first
    ensures |rest| > 0 ==> Multiply([first] + rest) == first * Multiply(rest)
  {
    assert ([first] + rest)[1..] == rest;
  }

  lemma Swap(a: int, b: int, c: int)
    ensures a * (b * c) == b * (a * c)
  {
  }

  /** Taking out any one argument and multiplying it back in gives the
      same product. */
  lemma {:induction false} MultiplyPick(args: seq<int>, i: nat)
    requires 1 < |args| && i < |args|
    ensures Multiply(args) == args[i] * Multiply(args[..i] + args[i + 1..])
    decreases |args|
  {
    var others := args[..i] + args[i + 1..];
    if i == 0 {
      assert others == args[1..];
    } else {
      var rest := args[1..];
      var rest' := rest[..i - 1] + rest[i..];
      assert others == [args[0]] + rest';
      assert ([args[0]] + rest')[1..] == rest';
      if |rest| == 1 {
        assert others == [args[0]];
        assert Multiply(args) == args[0] * args[1];
      } else {
        MultiplyPick(rest, i - 1);
        var m := Multiply(rest');
        assert Multiply(rest) == args[i] * m;
        assert Multiply(others) == args[0] * m;
        Swap(args[0], args[i], m);
      }
    }
  }

  /** The product does not depend on the order of the arguments. */
  lemma {:induction false} MultiplyPermutation(a: seq<int>, b: seq<int>)
    requires |a| > 0 && multiset(a) == multiset(b)
    ensures |b| > 0 && Multiply(a) == Multiply(b)
    decreases |a|
  {
    assert |b| == |a| by {
      assert |multiset(b)| == |multiset(a)|;
    }
    assert a[0] in multiset(b) by {
      assert a[0] in multiset(a);
    }
    var i :| 0 <= i < |b| && b[i] == a[0];
    if |a| > 1 {
      var b' := b[..i] + b[i + 1..];
      assert multiset(a[1..]) == multiset(b') by {
        assert b == b[..i] + [b[i]] + b[i + 1..];
        assert multiset(b) == multiset(b[..i]) + multiset{b[i]} + multiset(b[i + 1..]);
        assert a == [a[0]] + a[1..];
        assert multiset(a) == multiset{a[0]} + multiset(a[1..]);
        assert multiset(b') == multiset(b[..i]) + multiset(b[i + 1..]);
        assert multiset(b') == multiset(b) - multiset{b[i]};
        assert multiset(a[1..]) == multiset(a) - multiset{a[0]};
      }
      MultiplyPermutation(a[1..], b');
      MultiplyPick(b, i);
    }
  }

  /** A zero argument makes the product zero. */
  lemma {:induction false} MultiplyZero(args: seq<int>, i: nat)
    requires i < |args| && args[i] == 0
    ensures Multiply(args) == 0
    decreases |args|
  {
    if |args| > 1 && i > 0 {
      MultiplyZero(args[1..], i - 1);
    }
  }
}
