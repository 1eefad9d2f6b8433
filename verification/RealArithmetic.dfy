/** Rounding up and products of reals. */
module RealArithmetic {

  function Ceil(x: real): (c: int)
    ensures (c - 1) as real < x <= c as real
  {
    -(-x).Floor
  }

  lemma CeilMonotone(x: real, y: real)
    requires x <= y
    ensures Ceil(x) <= Ceil(y)
  {
  }

  lemma FloorAndCeil(x: real, n: int)
    requires 0.0 <= x <= n as real
    ensures 0 <= x.Floor <= Ceil(x) <= n
  {
    CeilMonotone(x, n as real);
    assert Ceil(n as real) == n;
  }

  lemma TimesMonotone(x: real, y: real, c: real)
    requires x <= y && c >= 0.0
    ensures x * c <= y * c
  {
  }

  lemma TimesStrict(x: real, y: real, c: real)
    requires x < y && c > 0.0
    ensures x * c < y * c
  {
  }
}
