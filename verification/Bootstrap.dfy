/** Bootstrap intervals of category shares over sample windows, with interpolated percentiles. */
module Bootstrap {
  import opened RealArithmetic
  import opened Sorting
  import opened Sums

  /** Interpolated percentile of a sorted list. */
  function Percentile(values: seq<real>, quantile: real): real
    requires 0.0 <= quantile <= 1.0
  {
    if values == [] then 0.0
    else
      PositionInRange(|values|, quantile);
      At(values, Position(|values|, quantile))
  }

  function Position(n: nat, quantile: real): real { quantile * (n - 1) as real }

  /** The value at a possibly fractional place. */
  function At(values: seq<real>, position: real): real
    requires 0.0 <= position <= (|values| - 1) as real
  {
    var lower, upper := position.Floor, Ceil(position);
    if lower == upper then values[lower]
    else
      var fraction := position - lower as real;
      values[lower] * (1.0 - fraction) + values[upper] * fraction
  }

  lemma UnitTimes(f: real, c: real)
    requires 0.0 <= f <= 1.0 && c >= 0.0
    ensures 0.0 <= f * c <= c
  {
    var g := 1.0 - f;
    assert g * c >= 0.0;
    assert f * c + g * c == c;
  }

  lemma PositionInRange(n: nat, quantile: real)
    requires n > 0 && 0.0 <= quantile <= 1.0
    ensures 0.0 <= Position(n, quantile) <= (n - 1) as real
  {
    UnitTimes(quantile, (n - 1) as real);
  }

  lemma PositionMonotone(n: nat, p: real, q: real)
    requires n > 0 && p <= q
    ensures Position(n, p) <= Position(n, q)
  {
    TimesMonotone(p, q, (n - 1) as real);
  }

  lemma Between(a: real, b: real, f: real)
    requires a <= b && 0.0 <= f <= 1.0
    ensures a <= a * (1.0 - f) + b * f <= b
  {
    UnitTimes(f, b - a);
    var d := f * (b - a);
    assert 0.0 <= d <= b - a;
    assert a * (1.0 - f) + b * f == a + d;
  }

  lemma Steeper(a: real, b: real, f: real, h: real)
    requires a <= b && f <= h
    ensures a * (1.0 - f) + b * f <= a * (1.0 - h) + b * h
  {
    assert a * (1.0 - f) + b * f == a + f * (b - a);
    assert a * (1.0 - h) + b * h == a + h * (b - a);
    TimesMonotone(f, h, b - a);
  }

  /** The value at a place lies between the values around it. */
  lemma AtBetween(values: seq<real>, position: real)
    requires Ascending(values) && 0.0 <= position <= (|values| - 1) as real
    ensures 0 <= position.Floor <= Ceil(position) < |values|
    ensures values[position.Floor] <= At(values, position) <= values[Ceil(position)]
  {
    FloorAndCeil(position, |values| - 1);
    var lower, upper := position.Floor, Ceil(position);
    if lower < upper {
      assert RealLe(values[lower], values[upper]);
      Between(values[lower], values[upper], position - lower as real);
    }
  }

  /** Later places have larger values. */
  lemma AtMonotone(values: seq<real>, p: real, q: real)
    requires Ascending(values) && 0.0 <= p <= q <= (|values| - 1) as real
    ensures At(values, p) <= At(values, q)
  {
    AtBetween(values, p);
    AtBetween(values, q);
    var a, b := p.Floor, q.Floor;
    if a < b {
      assert Ceil(p) <= b;
      if Ceil(p) < b { assert RealLe(values[Ceil(p)], values[b]); }
    } else if a as real < q {
      if a as real < p {
        Steeper(values[a], values[a + 1], p - a as real, q - a as real) by {
          assert RealLe(values[a], values[a + 1]);
        }
      }
    }
  }

  /** Percentiles are monotone in the quantile and stay within any bounds of the values. */
  lemma PercentileMonotone(values: seq<real>, p: real, q: real)
    requires Ascending(values) && 0.0 <= p <= q <= 1.0
    ensures Percentile(values, p) <= Percentile(values, q)
  {
    hide At, Position;
    if values != [] {
      PositionInRange(|values|, p);
      PositionInRange(|values|, q);
      PositionMonotone(|values|, p, q);
      AtMonotone(values, Position(|values|, p), Position(|values|, q));
    }
  }

  lemma PercentileWithin(values: seq<real>, q: real, lo: real, hi: real)
    requires Ascending(values) && values != [] && 0.0 <= q <= 1.0
    requires forall v | v in values :: lo <= v <= hi
    ensures lo <= Percentile(values, q) <= hi
  {
    hide At, Position;
    var position := Position(|values|, q);
    PositionInRange(|values|, q);
    AtBetween(values, position);
    assert values[position.Floor] in values && values[Ceil(position)] in values;
  }

  /** Between two neighbouring values the percentile runs straight from one to the other. */
  lemma AtInterpolates(values: seq<real>, k: nat, position: real)
    requires k + 1 < |values| && k as real <= position <= (k + 1) as real
    ensures 0.0 <= position <= (|values| - 1) as real
    ensures At(values, position) == values[k] + (position - k as real) * (values[k + 1] - values[k])
  {
    var f := position - k as real;
    if position < (k + 1) as real {
      assert position.Floor == k;
      if f > 0.0 {
        CeilIs(position, k + 1);
        assert values[k] * (1.0 - f) + values[k + 1] * f == values[k] + f * (values[k + 1] - values[k]);
      } else {
        CeilIs(position, k);
      }
    } else {
      assert position.Floor == k + 1;
      CeilIs(position, k + 1);
      assert f == 1.0;
    }
  }

  lemma CeilIs(x: real, n: int)
    requires (n - 1) as real < x <= n as real
    ensures Ceil(x) == n
  {
  }

  /** On values in arithmetic progression the percentile is the progression at the quantile. */
  lemma PercentileOfProgression(values: seq<real>, quantile: real, first: real, step: real)
    requires 1 < |values| && 0.0 <= quantile <= 1.0
    requires forall i | 0 <= i < |values| :: values[i] == first + i as real * step
    ensures Percentile(values, quantile) == first + quantile * (|values| - 1) as real * step
  {
    PositionInRange(|values|, quantile);
    var position := Position(|values|, quantile);
    var k := if position.Floor == |values| - 1 then |values| - 2 else position.Floor;
    AtInterpolates(values, k, position);
    hide At;
    assert values[k + 1] - values[k] == step;
    assert values[k] + (position - k as real) * step == first + position * step;
  }

  // ---------- Resampling windows ----------

  /** What a window contributes to one category. */
  datatype Sampled = Sampled(samples: nat, active: nat)

  function SamplesAt(windows: seq<Sampled>): nat -> int {
    (i: nat) => if i < |windows| then windows[i].samples else 0
  }
  function ActiveAt(windows: seq<Sampled>): nat -> int {
    (i: nat) => if i < |windows| then windows[i].active else 0
  }

  /** The pooled share, in percent, of the selected windows. */
  function PooledShare(windows: seq<Sampled>, selected: seq<nat>): real {
    var total := SumOf(ActiveAt(windows), selected);
    if total == 0 then 0.0 else SumOf(SamplesAt(windows), selected) as real * 100.0 / total as real
  }

  /** The pooled share times the active samples of the selected windows is a hundred times their samples; nothing active
      has no share. */
  lemma PooledShareIs(windows: seq<Sampled>, selected: seq<nat>)
    requires forall k | 0 <= k < |selected| :: selected[k] < |windows|
    ensures var active := SumOf((i: nat) => if i < |windows| then windows[i].active else 0, selected);
            var samples := SumOf((i: nat) => if i < |windows| then windows[i].samples else 0, selected);
            if active == 0 then PooledShare(windows, selected) == 0.0
            else PooledShare(windows, selected) * active as real == 100.0 * samples as real
  {
    SumSame(ActiveAt(windows), (i: nat) => if i < |windows| then windows[i].active else 0, selected);
    SumSame(SamplesAt(windows), (i: nat) => if i < |windows| then windows[i].samples else 0, selected);
  }

  function WindowShare(w: Sampled): real
    requires w.active > 0
  {
    w.samples as real * 100.0 / w.active as real
  }

  function PooledShares(windows: seq<Sampled>, choices: seq<seq<nat>>): (r: seq<real>)
    ensures |r| == |choices| && forall i | 0 <= i < |r| :: r[i] == PooledShare(windows, choices[i])
  {
    seq(|choices|, i requires 0 <= i < |choices| => PooledShare(windows, choices[i]))
  }

  /** A resampling selects as many windows as there are, with repetition. */
  ghost predicate IsResampling(windows: seq<Sampled>, selected: seq<nat>) {
    |selected| == |windows| && forall k | 0 <= k < |selected| :: selected[k] < |windows|
  }

  method BootstrapInterval(windows: seq<Sampled>, choices: seq<seq<nat>>) returns (lower: real, upper: real)
    ensures lower == Percentile(Sort(RealLe, PooledShares(windows, choices)), 0.025)
    ensures upper == Percentile(Sort(RealLe, PooledShares(windows, choices)), 0.975)
  {
    hide Sort, Percentile, PooledShare;
    var shares: seq<real> := [];
    var i := 0;
    while i < |choices|
      invariant i <= |choices| && shares == PooledShares(windows, choices)[..i]
    {
      shares := shares + [PooledShare(windows, choices[i])];
      i := i + 1;
    }
    assert shares == PooledShares(windows, choices);
    shares := Sort(RealLe, shares);
    lower := Percentile(shares, 0.025);
    upper := Percentile(shares, 0.975);
  }

  /** `lo` and `hi` bound the exact share of every window. */
  ghost predicate SharesWithin(windows: seq<Sampled>, lo: real, hi: real) {
    && (forall w | w in windows :: w.active > 0)
    && (forall w | w in windows :: lo <= WindowShare(w) <= hi)
  }

  lemma ShareTimesActive(w: Sampled, lo: real, hi: real)
    requires w.active > 0 && lo <= WindowShare(w) <= hi
    ensures lo * w.active as real <= w.samples as real * 100.0 <= hi * w.active as real
  {
    var s, a := WindowShare(w), w.active as real;
    assert s * a == w.samples as real * 100.0;
    TimesMonotone(lo, s, a);
    TimesMonotone(s, hi, a);
  }

  /** The mediant inequality: a pooled share lies between the shares that are pooled. */
  lemma {:induction false} Mediant(windows: seq<Sampled>, selected: seq<nat>, lo: real, hi: real)
    requires SharesWithin(windows, lo, hi) && forall k | 0 <= k < |selected| :: selected[k] < |windows|
    ensures var total := SumOf(ActiveAt(windows), selected) as real;
            lo * total <= SumOf(SamplesAt(windows), selected) as real * 100.0 <= hi * total
    ensures SumOf(ActiveAt(windows), selected) >= |selected|
    decreases |selected|
  {
    if selected != [] {
      var w := windows[selected[0]];
      assert w in windows;
      ShareTimesActive(w, lo, hi);
      Mediant(windows, selected[1..], lo, hi);
      var rest := SumOf(ActiveAt(windows), selected[1..]) as real;
      assert lo * (w.active as real + rest) == lo * w.active as real + lo * rest;
      assert hi * (w.active as real + rest) == hi * w.active as real + hi * rest;
    }
  }

  lemma QuotientWithin(x: real, total: real, lo: real, hi: real)
    requires total > 0.0 && lo * total <= x <= hi * total
    ensures lo <= x / total <= hi
  {
    var q := x / total;
    assert q * total == x;
    if q < lo { TimesStrict(q, lo, total); }
    if q > hi { TimesStrict(hi, q, total); }
  }

  lemma PooledShareWithin(windows: seq<Sampled>, selected: seq<nat>, lo: real, hi: real)
    requires SharesWithin(windows, lo, hi) && IsResampling(windows, selected) && windows != []
    ensures lo <= PooledShare(windows, selected) <= hi
  {
    Mediant(windows, selected, lo, hi);
    QuotientWithin(SumOf(SamplesAt(windows), selected) as real * 100.0,
                   SumOf(ActiveAt(windows), selected) as real, lo, hi);
  }

  /** For every choice of resampled windows the interval is ordered and lies between the smallest and the
      largest exact share of a window. */
  lemma IntervalWithinShares(windows: seq<Sampled>, choices: seq<seq<nat>>, lo: real, hi: real)
    requires SharesWithin(windows, lo, hi) && windows != [] && choices != []
    requires forall c | c in choices :: IsResampling(windows, c)
    ensures var shares := Sort(RealLe, PooledShares(windows, choices));
            lo <= Percentile(shares, 0.025) <= Percentile(shares, 0.975) <= hi
  {
    var all := PooledShares(windows, choices);
    var shares := Sort(RealLe, all);
    SortAscending(all);
    forall v | v in shares ensures lo <= v <= hi {
      assert v in all;
      var i :| 0 <= i < |all| && all[i] == v;
      assert choices[i] in choices;
      PooledShareWithin(windows, choices[i], lo, hi);
    }
    PercentileMonotone(shares, 0.025, 0.975);
    PercentileWithin(shares, 0.025, lo, hi);
    PercentileWithin(shares, 0.975, lo, hi);
  }
}
