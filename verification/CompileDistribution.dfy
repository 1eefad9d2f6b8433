/** The percentile of a native compile distribution, which rounds up by adding 0.999999 and truncating. */
module CompileDistribution {
  import opened RealArithmetic
  import opened Options
  import opened Sorting
  import NearestRank

  /** `int(n * quantile + 0.999999) - 1`, clamped to the list. Truncation and floor differ only below
      zero, where both clamp to the first place. */
  function Index(n: nat, quantile: real): (i: nat)
    requires n > 0
    ensures i < n
  {
    var i := (n as real * quantile + 0.999999).Floor - 1;
    var i' := if n - 1 < i then n - 1 else i;
    if i' < 0 then 0 else i'
  }

  function Percentile(values: seq<real>, quantile: real): real
    requires values != []
  {
    var ordered := Sort(RealLe, values);
    ordered[Index(|ordered|, quantile)]
  }

  function Fraction(x: real): real { x - x.Floor as real }

  /** Adding 0.999999 rounds up exactly where the fractional part is zero or at least a millionth. */
  lemma RoundsUpIff(x: real)
    ensures Fraction(x) == 0.0 || Fraction(x) >= 0.000001 ==> (x + 0.999999).Floor == Ceil(x)
    ensures 0.0 < Fraction(x) < 0.000001 ==> (x + 0.999999).Floor == Ceil(x) - 1
  {
    var f := x.Floor;
    if Fraction(x) == 0.0 {
      assert (x + 0.999999).Floor == f;
    } else if Fraction(x) >= 0.000001 {
      assert (x + 0.999999).Floor == f + 1;
    } else {
      assert (x + 0.999999).Floor == f;
    }
  }

  lemma Hundredfold(n: nat, quantile: real)
    ensures 100.0 * quantile * n as real / 100.0 == n as real * quantile
  {
    var x := n as real * quantile;
    assert 100.0 * quantile * n as real == 100.0 * x;
  }

  /** The place taken is the nearest-rank place exactly when the product has no fraction below a
      millionth, or the rank falls outside the list anyway. */
  lemma NearestRankIff(n: nat, quantile: real)
    requires n > 0
    ensures var x := n as real * quantile;
            Index(n, quantile) == NearestRank.Place(n, 100.0 * quantile) <==>
            Fraction(x) == 0.0 || Fraction(x) >= 0.000001 || Ceil(x) <= 1 || Ceil(x) > n
  {
    Hundredfold(n, quantile);
    RoundsUpIff(n as real * quantile);
  }

  /** The fractional part of 19 n / 20 is a multiple of a twentieth. */
  lemma TwentiethFraction(n: nat)
    ensures Fraction(n as real * 0.95) == 0.0 || Fraction(n as real * 0.95) >= 0.05
  {
    var x := n as real * 0.95;
    var q, r := 19 * n / 20, 19 * n % 20;
    assert 19 * n == 20 * q + r;
    assert x == q as real + r as real / 20.0;
    assert x.Floor == q;
  }

  /** At 0.95 the report agrees with the benchmark's 95th percentile, for every list. */
  lemma NinetyFifthAgrees(values: seq<real>)
    requires values != []
    ensures NearestRank.Percentile(Sort(RealLe, values), 95.0) == Some(Percentile(values, 0.95))
  {
    hide Sort;
    var n := |Sort(RealLe, values)|;
    TwentiethFraction(n);
    NearestRankIff(n, 0.95);
  }

  /** At other quantiles it can take the element before. */
  lemma SmallFractionsRoundDown()
    ensures Index(10, 0.1000000001) == 0 && NearestRank.Place(10, 100.0 * 0.1000000001) == 1
  {
    var x := 10.0 * 0.1000000001;
    assert x.Floor == 1;
    RoundsUpIff(x);
    Hundredfold(10, 0.1000000001);
    assert (-x).Floor == -2;
  }
}
