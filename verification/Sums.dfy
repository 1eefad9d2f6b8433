/** Finite sums over sequences. */
module Sums {

  function SumOf<T>(f: T -> int, s: seq<T>): int {
    if s == [] then 0 else f(s[0]) + SumOf(f, s[1..])
  }

  lemma {:induction false} SumConcat<T>(f: T -> int, a: seq<T>, b: seq<T>)
    ensures SumOf(f, a + b) == SumOf(f, a) + SumOf(f, b)
    decreases |a|
  {
    if a == [] {
      assert a + b == b;
    } else {
      assert (a + b)[1..] == a[1..] + b;
      SumConcat(f, a[1..], b);
    }
  }

  lemma SumOfOne<T>(f: T -> int, x: T)
    ensures SumOf(f, [x]) == f(x)
  {
    assert [x][1..] == [];
  }

  lemma SumAppend<T>(f: T -> int, s: seq<T>, x: T)
    ensures SumOf(f, s + [x]) == SumOf(f, s) + f(x)
  {
    SumConcat(f, s, [x]);
    SumOfOne(f, x);
  }

  lemma SumTakeOut<T>(f: T -> int, before: seq<T>, x: T, after: seq<T>)
    ensures SumOf(f, before + [x] + after) == f(x) + SumOf(f, before + after)
  {
    SumAppend(f, before, x);
    SumConcat(f, before + [x], after);
    SumConcat(f, before, after);
  }

  /** Order does not matter. */
  lemma {:induction false} SumPermutation<T>(f: T -> int, a: seq<T>, b: seq<T>)
    requires multiset(a) == multiset(b)
    ensures SumOf(f, a) == SumOf(f, b)
    decreases |a|
  {
    if a == [] {
      assert |multiset(b)| == 0;
    } else {
      assert a[0] in multiset(b);
      var i :| 0 <= i < |b| && b[i] == a[0];
      var before, after := b[..i], b[i + 1..];
      assert b == before + [a[0]] + after;
      assert a == [a[0]] + a[1..];
      assert multiset(a) == multiset{a[0]} + multiset(a[1..]);
      assert multiset(b) == multiset{a[0]} + multiset(before + after);
      assert multiset(a[1..]) == multiset(a) - multiset{a[0]};
      assert multiset(before + after) == multiset(b) - multiset{a[0]};
      SumTakeOut(f, before, a[0], after);
      SumPermutation(f, a[1..], before + after);
    }
  }

  lemma {:induction false} SumSame<T>(f: T -> int, g: T -> int, s: seq<T>)
    requires forall x | x in s :: f(x) == g(x)
    ensures SumOf(f, s) == SumOf(g, s)
    decreases |s|
  {
    if s != [] { SumSame(f, g, s[1..]); }
  }

  lemma {:induction false} SumPlus<T>(f: T -> int, g: T -> int, h: T -> int, s: seq<T>)
    requires forall x | x in s :: h(x) == f(x) + g(x)
    ensures SumOf(h, s) == SumOf(f, s) + SumOf(g, s)
    decreases |s|
  {
    if s != [] { SumPlus(f, g, h, s[1..]); }
  }

  lemma {:induction false} SumConstant<T>(f: T -> int, c: int, s: seq<T>)
    requires forall x | x in s :: f(x) == c
    ensures SumOf(f, s) == c * |s|
    decreases |s|
  {
    if s != [] { SumConstant(f, c, s[1..]); }
  }

  lemma {:induction false} SumNonnegative<T>(f: T -> int, s: seq<T>)
    requires forall x | x in s :: f(x) >= 0
    ensures SumOf(f, s) >= 0
    ensures forall x | x in s :: f(x) <= SumOf(f, s)
    decreases |s|
  {
    if s != [] {
      SumNonnegative(f, s[1..]);
      assert forall x | x in s :: x == s[0] || x in s[1..];
    }
  }
}
