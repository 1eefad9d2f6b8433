/** Nearest-rank percentiles and their bootstrap intervals. */
module NearestRank {
  import opened RealArithmetic
  import opened Options
  import opened Sorting
  import opened Sums

  /** The place of the requested percentile in a list of `n` values. */
  function Place(n: nat, requested: real): (i: nat)
    requires n > 0
    ensures i < n
  {
    var rank := Ceil(requested * n as real / 100.0);
    var rank' := if rank < 1 then 1 else rank;
    if rank' - 1 < n - 1 then rank' - 1 else n - 1
  }

  /** `values` is expected in ascending order; an empty list has no percentile. */
  function Percentile(values: seq<real>, requested: real): Option<real> {
    if values == [] then None else Some(values[Place(|values|, requested)])
  }

  // ---------- The counting specification ----------

  function CountAtMost(values: seq<real>, r: real): nat {
    if values == [] then 0 else (if values[0] <= r then 1 else 0) + CountAtMost(values[1..], r)
  }

  function CountBelow(values: seq<real>, r: real): nat {
    if values == [] then 0 else (if values[0] < r then 1 else 0) + CountBelow(values[1..], r)
  }

  /** At least `requested` percent of the values are at most `r`, and fewer are below it. */
  ghost predicate IsPercentile(values: seq<real>, requested: real, r: real) {
    && r in values
    && CountAtMost(values, r) as real * 100.0 >= requested * |values| as real
    && CountBelow(values, r) as real * 100.0 < requested * |values| as real
  }

  lemma {:induction false} CountsAtPlace(values: seq<real>, k: nat)
    requires Ascending(values) && k < |values|
    ensures CountAtMost(values, values[k]) >= k + 1
    ensures CountBelow(values, values[k]) <= k
    decreases |values|
  {
    assert k > 0 ==> RealLe(values[0], values[k]);
    if k == 0 {
      NoneBelow(values[1..], values[0]) by {
        forall j | 0 <= j < |values[1..]| ensures values[0] <= values[1..][j] {
          assert RealLe(values[0], values[j + 1]);
        }
      }
    } else {
      assert Ascending(values[1..]);
      CountsAtPlace(values[1..], k - 1);
    }
  }

  lemma {:induction false} NoneBelow(values: seq<real>, r: real)
    requires forall j | 0 <= j < |values| :: r <= values[j]
    ensures CountBelow(values, r) == 0
    decreases |values|
  {
    if values != [] { NoneBelow(values[1..], r); }
  }

  lemma RankBounds(n: nat, requested: real)
    requires n > 0 && 0.0 < requested <= 100.0
    ensures var x := requested * n as real / 100.0;
            Place(n, requested) as real < x <= Place(n, requested) as real + 1.0
  {
    ShareOf(requested, n as real);
  }

  lemma ShareOf(requested: real, m: real)
    requires 0.0 < requested <= 100.0 && m > 0.0
    ensures 0.0 < requested * m / 100.0 <= m
  {
    assert requested * m > 0.0;
    assert (100.0 - requested) * m >= 0.0;
    assert (100.0 - requested) * m == 100.0 * m - requested * m;
  }

  /** The nearest-rank percentile meets the counting specification. */
  lemma PercentileCounts(values: seq<real>, requested: real)
    requires Ascending(values) && values != [] && 0.0 < requested <= 100.0
    ensures IsPercentile(values, requested, Percentile(values, requested).value)
  {
    hide Place;
    hide CountAtMost;
    hide CountBelow;
    var k := Place(|values|, requested);
    RankBounds(|values|, requested);
    CountsAtPlace(values, k);
    Hundredths(requested * |values| as real, k, CountAtMost(values, values[k]), CountBelow(values, values[k]));
  }

  lemma Hundredths(p: real, k: nat, atMost: nat, below: nat)
    requires k as real < p / 100.0 <= k as real + 1.0 && atMost >= k + 1 && below <= k
    ensures atMost as real * 100.0 >= p && below as real * 100.0 < p
  {
  }

  lemma {:induction false} CountsOrdered(values: seq<real>, r: real, s: real)
    requires r < s
    ensures CountAtMost(values, r) <= CountBelow(values, s)
    decreases |values|
  {
    if values != [] { CountsOrdered(values[1..], r, s); }
  }

  /** The counting specification determines the percentile. */
  lemma PercentileUnique(values: seq<real>, requested: real, r: real, s: real)
    requires IsPercentile(values, requested, r) && IsPercentile(values, requested, s)
    ensures r == s
  {
    if r < s { CountsOrdered(values, r, s); }
    if s < r { CountsOrdered(values, s, r); }
  }

  /** Requests out of range give the first and the last value. */
  lemma PlaceClamped(n: nat, requested: real)
    requires n > 0
    ensures requested <= 0.0 ==> Place(n, requested) == 0
    ensures requested >= 100.0 ==> Place(n, requested) == n - 1
  {
    var x := requested * n as real / 100.0;
    if requested <= 0.0 { assert requested * n as real <= 0.0; }
    if requested >= 100.0 { assert (requested - 100.0) * n as real >= 0.0; }
  }

  lemma PlaceMonotone(n: nat, p: real, q: real)
    requires n > 0 && p <= q
    ensures Place(n, p) <= Place(n, q)
  {
    assert p * n as real <= q * n as real;
    CeilMonotone(p * n as real / 100.0, q * n as real / 100.0);
  }

  /** Percentiles of a sorted list are monotone, for all requests. */
  lemma PercentileMonotone(values: seq<real>, p: real, q: real)
    requires Ascending(values) && values != [] && p <= q
    ensures Percentile(values, p).value <= Percentile(values, q).value
  {
    PlaceMonotone(|values|, p, q);
    var i, j := Place(|values|, p), Place(|values|, q);
    if i < j { assert RealLe(values[i], values[j]); }
  }

  // ---------- Bootstrap intervals ----------

  /** A sample with repetition, given by the chosen places, in ascending order. */
  function Resample(values: seq<real>, chosen: seq<nat>): seq<real>
    requires forall k | 0 <= k < |chosen| :: chosen[k] < |values|
  {
    Sort(RealLe, seq(|chosen|, k requires 0 <= k < |chosen| => values[chosen[k]]))
  }

  predicate IsChoice(values: seq<real>, chosen: seq<nat>) {
    |chosen| == |values| && forall k | 0 <= k < |chosen| :: chosen[k] < |values|
  }

  lemma ResampleMembers(values: seq<real>, chosen: seq<nat>)
    requires IsChoice(values, chosen)
    ensures Ascending(Resample(values, chosen)) && |Resample(values, chosen)| == |values|
    ensures forall x | x in Resample(values, chosen) :: x in values
  {
    var picked := seq(|chosen|, k requires 0 <= k < |chosen| => values[chosen[k]]);
    SortAscending(picked);
  }

  /** The interval between the 2.5 and the 97.5 percentile of the estimates. */
  function Interval(estimates: seq<real>): (real, real)
    requires estimates != []
  {
    var sorted := Sort(RealLe, estimates);
    (Percentile(sorted, 2.5).value, Percentile(sorted, 97.5).value)
  }

  lemma IntervalOrdered(estimates: seq<real>)
    requires estimates != []
    ensures Interval(estimates).0 <= Interval(estimates).1
    ensures Interval(estimates).0 in estimates && Interval(estimates).1 in estimates
  {
    var sorted := Sort(RealLe, estimates);
    SortAscending(estimates);
    PercentileMonotone(sorted, 2.5, 97.5);
    assert sorted[Place(|sorted|, 2.5)] in sorted && sorted[Place(|sorted|, 97.5)] in sorted;
  }

  /** The percentile of the sample a choice selects. */
  function SampleOf(values: seq<real>, requested: real, chosen: seq<nat>): real
    requires values != [] && IsChoice(values, chosen)
  {
    Percentile(Resample(values, chosen), requested).value
  }

  /** The percentile of a sample is one of the values sampled from. */
  lemma SampleIsValue(values: seq<real>, requested: real, chosen: seq<nat>)
    requires values != [] && IsChoice(values, chosen)
    ensures SampleOf(values, requested, chosen) in values
  {
    ResampleMembers(values, chosen);
    var sample := Resample(values, chosen);
    hide Resample;
    assert sample[Place(|sample|, requested)] in sample;
  }

  /** The values at the chosen places. */
  function Picked(values: seq<real>, chosen: seq<nat>): (r: seq<real>)
    requires forall k | 0 <= k < |chosen| :: chosen[k] < |values|
    ensures |r| == |chosen| && forall k | 0 <= k < |chosen| :: r[k] == values[chosen[k]]
  {
    seq(|chosen|, k requires 0 <= k < |chosen| => values[chosen[k]])
  }

  /** A sample holds the chosen values, each as often as it was chosen. */
  lemma ResampleIs(values: seq<real>, chosen: seq<nat>)
    requires forall k | 0 <= k < |chosen| :: chosen[k] < |values|
    ensures multiset(Resample(values, chosen)) == multiset(Picked(values, chosen))
  {
    assert Picked(values, chosen) == seq(|chosen|, k requires 0 <= k < |chosen| => values[chosen[k]]);
  }

  lemma {:induction false} CountsAreSums(values: seq<real>, r: real)
    ensures CountAtMost(values, r) == SumOf((v: real) => if v <= r then 1 else 0, values)
    ensures CountBelow(values, r) == SumOf((v: real) => if v < r then 1 else 0, values)
    decreases |values|
  {
    if values != [] { CountsAreSums(values[1..], r); }
  }

  lemma SamePercentile(a: seq<real>, b: seq<real>, requested: real, r: real)
    requires multiset(a) == multiset(b) && IsPercentile(a, requested, r)
    ensures IsPercentile(b, requested, r)
  {
    hide CountAtMost, CountBelow;
    SameElements(a, b);
    SameCounts(a, b, r);
    assert |a| == |multiset(a)| == |multiset(b)| == |b|;
  }

  lemma SameCounts(a: seq<real>, b: seq<real>, r: real)
    requires multiset(a) == multiset(b)
    ensures CountAtMost(a, r) == CountAtMost(b, r) && CountBelow(a, r) == CountBelow(b, r)
  {
    hide CountAtMost, CountBelow, SumOf;
    CountsAreSums(a, r);
    CountsAreSums(b, r);
    SumPermutation((v: real) => if v <= r then 1 else 0, a, b);
    SumPermutation((v: real) => if v < r then 1 else 0, a, b);
  }

  /** The estimate of a choice is the percentile of the chosen values. */
  lemma SampleCounts(values: seq<real>, requested: real, chosen: seq<nat>)
    requires values != [] && IsChoice(values, chosen) && 0.0 < requested <= 100.0
    ensures IsPercentile(Picked(values, chosen), requested, SampleOf(values, requested, chosen))
  {
    ResampleMembers(values, chosen);
    ResampleIs(values, chosen);
    var sample := Resample(values, chosen);
    hide Resample, IsPercentile, Place;
    PercentileCounts(sample, requested);
    SamePercentile(sample, Picked(values, chosen), requested, SampleOf(values, requested, chosen));
  }

  /** The interval lies between the 2.5 and the 97.5 percentile of the estimates, by count. */
  lemma IntervalCounts(estimates: seq<real>)
    requires estimates != []
    ensures IsPercentile(estimates, 2.5, Interval(estimates).0) && IsPercentile(estimates, 97.5, Interval(estimates).1)
  {
    var sorted := Sort(RealLe, estimates);
    SortAscending(estimates);
    hide Sort, IsPercentile, Place;
    PercentileCounts(sorted, 2.5);
    PercentileCounts(sorted, 97.5);
    SamePercentile(sorted, estimates, 2.5, Interval(estimates).0);
    SamePercentile(sorted, estimates, 97.5, Interval(estimates).1);
  }

  predicate AreChoices(values: seq<real>, choices: seq<seq<nat>>) {
    forall i | 0 <= i < |choices| :: IsChoice(values, choices[i])
  }

  /** The percentiles of the samples that the first `n` choices select. */
  function EstimatesOf(values: seq<real>, requested: real, choices: seq<seq<nat>>, n: nat): (r: seq<real>)
    requires values != [] && AreChoices(values, choices) && n <= |choices|
    ensures |r| == n
  {
    if n == 0 then []
    else EstimatesOf(values, requested, choices, n - 1) + [SampleOf(values, requested, choices[n - 1])]
  }

  /** The interval of a percentile: the one of the estimates, and both ends are values of the list, whatever
      is chosen. */
  method BootstrapPercentileCi(values: seq<real>, requested: real, choices: seq<seq<nat>>)
    returns (ci: Option<(real, real)>)
    requires choices != [] && AreChoices(values, choices)
    ensures ci.None? <==> values == []
    ensures ci.Some? ==> ci.value.0 <= ci.value.1 && ci.value.0 in values && ci.value.1 in values
    ensures ci.Some? ==> ci.value == Interval(EstimatesOf(values, requested, choices, |choices|))
  {
    hide SampleOf;
    hide IsChoice;
    hide Interval;
    if values == [] { return None; }
    var estimates: seq<real> := [];
    var i := 0;
    while i < |choices|
      invariant i <= |choices| && estimates == EstimatesOf(values, requested, choices, i)
      invariant forall j | 0 <= j < i :: estimates[j] in values
    {
      SampleIsValue(values, requested, choices[i]);
      estimates := estimates + [SampleOf(values, requested, choices[i])];
      i := i + 1;
    }
    IntervalOrdered(estimates);
    ci := Some(Interval(estimates));
  }

  // ---------- Ratios ----------

  ghost predicate IsRatio(numerator: seq<real>, denominator: seq<real>, r: real) {
    exists x, y :: x in numerator && y in denominator && y != 0.0 && r == x / y
  }

  /** The ratios of the first `n` pairs of samples, without those whose denominator is zero. */
  function RatiosOf(numerator: seq<real>, denominator: seq<real>, requested: real,
                    left: seq<seq<nat>>, right: seq<seq<nat>>, n: nat): seq<real>
    requires numerator != [] && denominator != [] && AreChoices(numerator, left) && AreChoices(denominator, right)
    requires n <= |left| == |right|
  {
    if n == 0 then []
    else
      var rest := RatiosOf(numerator, denominator, requested, left, right, n - 1);
      var x, y := SampleOf(numerator, requested, left[n - 1]), SampleOf(denominator, requested, right[n - 1]);
      if y != 0.0 then rest + [x / y] else rest
  }

  /** The interval of a ratio of percentiles of independent samples, as the interval of the ratios. Both ends
      are ratios of a value and a value; there is none only when no ratio is left. */
  method BootstrapPercentileRatioCi(numerator: seq<real>, denominator: seq<real>, requested: real,
                                    left: seq<seq<nat>>, right: seq<seq<nat>>)
    returns (ci: Option<(real, real)>)
    requires |left| == |right| > 0 && AreChoices(numerator, left) && AreChoices(denominator, right)
    ensures ci.None? <==>
              || numerator == [] || denominator == []
              || forall i | 0 <= i < |right| :: SampleOf(denominator, requested, right[i]) == 0.0
    ensures ci.Some? ==> RatiosOf(numerator, denominator, requested, left, right, |left|) != []
    ensures ci.Some? ==> ci.value == Interval(RatiosOf(numerator, denominator, requested, left, right, |left|))
    ensures ci.Some? ==> ci.value.0 <= ci.value.1
    ensures ci.Some? ==> IsRatio(numerator, denominator, ci.value.0) && IsRatio(numerator, denominator, ci.value.1)
  {
    hide IsChoice;
    hide Interval;
    hide SampleOf;
    if numerator == [] || denominator == [] { return None; }
    var estimates: seq<real> := [];
    var i := 0;
    while i < |left|
      invariant i <= |left| && estimates == RatiosOf(numerator, denominator, requested, left, right, i)
      invariant forall j | 0 <= j < |estimates| :: IsRatio(numerator, denominator, estimates[j])
      invariant estimates == [] <==> forall j | 0 <= j < i :: SampleOf(denominator, requested, right[j]) == 0.0
    {
      var x, y := SampleOf(numerator, requested, left[i]), SampleOf(denominator, requested, right[i]);
      SampleIsValue(numerator, requested, left[i]);
      SampleIsValue(denominator, requested, right[i]);
      if y != 0.0 {
        estimates := estimates + [x / y];
      }
      i := i + 1;
    }
    if estimates == [] { return None; }
    IntervalOrdered(estimates);
    ci := Some(Interval(estimates));
  }

  /** On positive data every ratio lies between the extreme ratios of the two lists. */
  lemma RatioWithin(numerator: seq<real>, denominator: seq<real>, r: real,
                    lowest: real, highest: real, least: real, most: real)
    requires IsRatio(numerator, denominator, r)
    requires forall x | x in numerator :: 0.0 < lowest <= x <= highest
    requires forall y | y in denominator :: 0.0 < least <= y <= most
    ensures lowest / most <= r <= highest / least
  {
    var x, y :| x in numerator && y in denominator && y != 0.0 && r == x / y;
    QuotientOrder(lowest, x, y, most);
    QuotientOrder(x, highest, least, y);
  }

  lemma QuotientOrder(a: real, b: real, c: real, d: real)
    requires 0.0 < a <= b && 0.0 < c <= d
    ensures a / d <= b / c
  {
    var p, q := a / d, b / c;
    assert p * d == a && q * c == b;
    assert p > 0.0 && q > 0.0;
    assert q * d >= q * c;
    if p > q { TimesStrict(q, p, d); }
  }
}
