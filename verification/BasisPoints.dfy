/** Largest-remainder allocation of 10,000 basis points to exclusive categories. */
module BasisPoints {
  import opened Sorting
  import opened Sums

  /** One item of the counts dictionary, which is listed in insertion order. */
  datatype Item = Item(category: string, count: nat)

  function CategoryOf(i: Item): string { i.category }
  function CountOf(i: Item): int { i.count }

  /** A dictionary has one item for each category. */
  predicate IsDictionary(counts: seq<Item>) { DistinctKeys(CategoryOf, counts) }

  /** The exact quota of a category is `floor + remainder / total` basis points. */
  datatype Quota = Quota(category: string, floor: int, remainder: int)

  function QuotaOf(i: Item, total: nat): Quota
    requires total > 0
  {
    Quota(i.category, i.count * 10_000 / total, i.count * 10_000 % total)
  }

  function Quotas(counts: seq<Item>, total: nat): (r: seq<Quota>)
    requires total > 0
    ensures |r| == |counts| && forall i | 0 <= i < |r| :: r[i] == QuotaOf(counts[i], total)
  {
    seq(|counts|, i requires 0 <= i < |counts| => QuotaOf(counts[i], total))
  }

  /** Largest remainder first, then by name. */
  predicate QuotaLe(a: Quota, b: Quota) {
    a.remainder > b.remainder || (a.remainder == b.remainder && StringLe(a.category, b.category))
  }

  lemma QuotaPreorder()
    ensures TotalPreorder(QuotaLe)
  {
    StringTotalOrder();
  }

  function FloorOf(q: Quota): int { q.floor }
  function RemainderOf(q: Quota): int { q.remainder }
  function NameOf(q: Quota): string { q.category }

  /** How many of `n` elements Python's `s[:k]` keeps; a negative `k` counts from the end. */
  function Kept(n: nat, k: int): (r: nat)
    ensures r <= n
  {
    if k >= n then n else if k >= 0 then k else if n + k >= 0 then n + k else 0
  }

  /** Python's slice `s[:k]`: the first `k`, or all but the last `-k`, as far as there are any. */
  lemma TakeIs<T>(s: seq<T>, k: int)
    ensures 0 <= k <= |s| ==> Take(s, k) == s[..k]
    ensures -|s| <= k < 0 ==> Take(s, k) == s[..|s| + k]
    ensures k > |s| ==> Take(s, k) == s
    ensures k < -|s| ==> Take(s, k) == []
  {
  }

  function Take<T>(s: seq<T>, k: int): seq<T> { s[..Kept(|s|, k)] }

  function Missing(counts: seq<Item>, total: nat): int
    requires total > 0
  {
    10_000 - SumOf(FloorOf, Quotas(counts, total))
  }

  /** The categories that get one unit more than their floor. */
  function Chosen(counts: seq<Item>, total: nat): seq<Quota>
    requires total > 0
  {
    Take(Sort(QuotaLe, Quotas(counts, total)), Missing(counts, total))
  }

  function Points(counts: seq<Item>, total: nat, i: Item): int {
    if total == 0 then 0
    else QuotaOf(i, total).floor + (if QuotaOf(i, total) in Chosen(counts, total) then 1 else 0)
  }

  ghost predicate IsAllocation(counts: seq<Item>, total: nat, points: map<string, int>) {
    && (forall c :: c in points <==> exists i :: i in counts && i.category == c)
    && (forall i | i in counts :: i.category in points && points[i.category] == Points(counts, total, i))
  }

  // ---------- The loops ----------

  method AllocateBasisPoints(counts: seq<Item>, total: nat) returns (points: map<string, int>)
    requires IsDictionary(counts)
    ensures IsAllocation(counts, total, points)
  {
    hide *;
    if total == 0 {
      points := map i | i in counts :: i.category := 0;
      NothingAllocated(counts, points);
      return;
    }
    var floors, quotas, sum := Floors(counts, total);
    var missing := 10_000 - sum;
    var chosen := Take(Sort(QuotaLe, quotas), missing);
    IsChosen(counts, total);
    ChosenListed(counts, total, floors);
    points := AddUnits(floors, chosen);
    UnitsAllocated(counts, total, floors, points);
  }

  lemma NothingAllocated(counts: seq<Item>, points: map<string, int>)
    requires points == map i | i in counts :: i.category := 0
    ensures IsAllocation(counts, 0, points)
  {
  }

  lemma IsChosen(counts: seq<Item>, total: nat)
    requires total > 0
    ensures Take(Sort(QuotaLe, Quotas(counts, total)), 10_000 - SumOf(FloorOf, Quotas(counts, total))) == Chosen(counts, total)
  {
    hide Take, Sort, Quotas;
  }

  ghost predicate IsFloors(counts: seq<Item>, total: nat, floors: map<string, int>)
    requires total > 0
  {
    && (forall c :: c in floors <==> exists i :: i in counts && i.category == c)
    && (forall i | i in counts :: i.category in floors && floors[i.category] == QuotaOf(i, total).floor)
  }

  lemma ChosenListed(counts: seq<Item>, total: nat, floors: map<string, int>)
    requires IsDictionary(counts) && total > 0 && IsFloors(counts, total, floors)
    ensures DistinctKeys(NameOf, Chosen(counts, total))
    ensures forall q | q in Chosen(counts, total) :: q.category in floors
  {
    ChosenAreQuotas(counts, total);
    hide Chosen, IsDictionary;
  }

  lemma UnitsAllocated(counts: seq<Item>, total: nat, floors: map<string, int>, points: map<string, int>)
    requires IsDictionary(counts) && total > 0 && IsFloors(counts, total, floors) && points.Keys == floors.Keys
    requires forall c | c in points ::
               points[c] == floors[c] + if exists q :: q in Chosen(counts, total) && q.category == c then 1 else 0
    ensures IsAllocation(counts, total, points)
  {
    hide Chosen, QuotaOf, IsDictionary;
    assert forall c :: c in points <==> c in floors;
    forall i | i in counts ensures i.category in points && points[i.category] == Points(counts, total, i) {
      ChosenByName(counts, total, i);
    }
  }

  /** The floor of every quota, the quotas in order, and the sum of the floors. */
  method Floors(counts: seq<Item>, total: nat) returns (floors: map<string, int>, quotas: seq<Quota>, sum: int)
    requires IsDictionary(counts) && total > 0
    ensures quotas == Quotas(counts, total) && sum == SumOf(FloorOf, quotas)
    ensures IsFloors(counts, total, floors)
  {
    hide *;
    floors, quotas, sum := map[], [], 0;
    NoFloors(counts, total);
    var i := 0;
    while i < |counts|
      invariant i <= |counts|
      invariant quotas == Quotas(counts, total)[..i] && sum == SumOf(FloorOf, quotas)
      invariant FloorsUpTo(counts, total, i, floors)
    {
      var item := counts[i];
      var numerator := item.count * 10_000;
      var q := Quota(item.category, numerator / total, numerator % total);
      IsQuota(item, total);
      FloorsStep(counts, total, i, floors);
      floors := floors[item.category := q.floor];
      SumAppend(FloorOf, quotas, q);
      assert Quotas(counts, total)[..i + 1] == quotas + [q];
      quotas := quotas + [q];
      sum := sum + FloorOf(q);
      i := i + 1;
    }
    AllFloors(counts, total, floors);
  }

  ghost predicate FloorsUpTo(counts: seq<Item>, total: nat, n: nat, floors: map<string, int>)
    requires total > 0 && n <= |counts|
  {
    && (forall c :: c in floors <==> exists j :: 0 <= j < n && counts[j].category == c)
    && (forall j | 0 <= j < n :: counts[j].category in floors && floors[counts[j].category] == QuotaOf(counts[j], total).floor)
  }

  lemma NoFloors(counts: seq<Item>, total: nat)
    requires total > 0
    ensures FloorsUpTo(counts, total, 0, map[]) && SumOf(FloorOf, []) == 0
  {
  }

  lemma FloorsStep(counts: seq<Item>, total: nat, n: nat, floors: map<string, int>)
    requires total > 0 && n < |counts| && IsDictionary(counts) && FloorsUpTo(counts, total, n, floors)
    ensures FloorsUpTo(counts, total, n + 1, floors[counts[n].category := QuotaOf(counts[n], total).floor])
  {
    hide QuotaOf;
    assert forall j | 0 <= j < n :: CategoryOf(counts[j]) != CategoryOf(counts[n]);
  }

  lemma AllFloors(counts: seq<Item>, total: nat, floors: map<string, int>)
    requires total > 0 && FloorsUpTo(counts, total, |counts|, floors)
    ensures IsFloors(counts, total, floors)
  {
    hide QuotaOf;
  }

  lemma IsQuota(i: Item, total: nat)
    requires total > 0
    ensures QuotaOf(i, total) == Quota(i.category, i.count * 10_000 / total, i.count * 10_000 % total)
  {
  }

  lemma QuotasDistinct(counts: seq<Item>, total: nat)
    requires IsDictionary(counts) && total > 0
    ensures DistinctKeys(NameOf, Quotas(counts, total)) && DistinctKeys(NameOf, Sort(QuotaLe, Quotas(counts, total)))
  {
    var quotas := Quotas(counts, total);
    forall i, j | 0 <= i < j < |quotas| ensures NameOf(quotas[i]) != NameOf(quotas[j]) {
      assert CategoryOf(counts[i]) != CategoryOf(counts[j]);
    }
    SortDistinct(QuotaLe, NameOf, quotas);
  }

  lemma ChosenAreQuotas(counts: seq<Item>, total: nat)
    requires IsDictionary(counts) && total > 0
    ensures DistinctKeys(NameOf, Chosen(counts, total))
    ensures forall q | q in Chosen(counts, total) :: exists i :: i in counts && q == QuotaOf(i, total)
  {
    QuotasDistinct(counts, total);
    var sorted := Sort(QuotaLe, Quotas(counts, total));
    SameElements(sorted, Quotas(counts, total));
    forall q | q in Chosen(counts, total) ensures exists i :: i in counts && q == QuotaOf(i, total) {
      assert q in sorted;
      var j :| 0 <= j < |counts| && Quotas(counts, total)[j] == q;
      assert counts[j] in counts;
    }
  }

  lemma ChosenByName(counts: seq<Item>, total: nat, i: Item)
    requires IsDictionary(counts) && total > 0 && i in counts
    ensures (exists q :: q in Chosen(counts, total) && q.category == i.category)
       <==> QuotaOf(i, total) in Chosen(counts, total)
  {
    ChosenAreQuotas(counts, total);
    forall q | q in Chosen(counts, total) && q.category == i.category ensures q == QuotaOf(i, total) {
      var j :| j in counts && q == QuotaOf(j, total);
      SameCategory(counts, i, j);
    }
  }

  lemma SameCategory(counts: seq<Item>, i: Item, j: Item)
    requires IsDictionary(counts) && i in counts && j in counts && i.category == j.category
    ensures i == j
  {
    var m :| 0 <= m < |counts| && counts[m] == i;
    var n :| 0 <= n < |counts| && counts[n] == j;
    assert CategoryOf(counts[m]) == CategoryOf(counts[n]);
  }

  method AddUnits(points0: map<string, int>, chosen: seq<Quota>) returns (points: map<string, int>)
    requires forall q | q in chosen :: q.category in points0
    requires DistinctKeys(NameOf, chosen)
    ensures points.Keys == points0.Keys
    ensures forall c | c in points ::
              points[c] == points0[c] + if exists q :: q in chosen && q.category == c then 1 else 0
  {
    points := points0;
    var i := 0;
    while i < |chosen|
      invariant i <= |chosen| && points.Keys == points0.Keys
      invariant forall c | c in points ::
                  points[c] == points0[c] + if exists j :: 0 <= j < i && chosen[j].category == c then 1 else 0
    {
      var c := chosen[i].category;
      assert chosen[i] in chosen;
      assert forall j | 0 <= j < i :: NameOf(chosen[j]) != NameOf(chosen[i]);
      points := points[c := points[c] + 1];
      i := i + 1;
    }
  }

  // ---------- What the allocation promises when the counts sum up to the total ----------

  ghost predicate SumsUp(counts: seq<Item>, total: nat) {
    total > 0 && SumOf(CountOf, counts) == total
  }

  lemma QuotaParts(i: Item, total: nat)
    requires total > 0
    ensures var q := QuotaOf(i, total);
            q.floor >= 0 && 0 <= q.remainder < total && q.floor * total + q.remainder == i.count * 10_000
  {
  }

  /** Floors and remainders add up to the exact quotas. */
  lemma {:induction false} QuotaSums(counts: seq<Item>, total: nat)
    requires total > 0
    ensures SumOf(FloorOf, Quotas(counts, total)) * total + SumOf(RemainderOf, Quotas(counts, total))
         == 10_000 * SumOf(CountOf, counts)
    decreases |counts|
  {
    if counts != [] {
      assert Quotas(counts, total)[1..] == Quotas(counts[1..], total);
      QuotaSums(counts[1..], total);
      QuotaParts(counts[0], total);
      var f, rest := QuotaOf(counts[0], total).floor, SumOf(FloorOf, Quotas(counts[1..], total));
      assert (f + rest) * total == f * total + rest * total;
    }
  }

  function HasRemainder(q: Quota): int { if q.remainder > 0 then 1 else 0 }

  lemma {:induction false} RemaindersBelow(quotas: seq<Quota>, total: nat)
    requires total > 0 && forall q | q in quotas :: 0 <= q.remainder < total
    ensures SumOf(RemainderOf, quotas) <= SumOf(HasRemainder, quotas) * (total - 1)
    ensures 0 <= SumOf(HasRemainder, quotas) && 0 <= SumOf(RemainderOf, quotas)
    decreases |quotas|
  {
    if quotas != [] {
      RemaindersBelow(quotas[1..], total);
      var h, rest := HasRemainder(quotas[0]), SumOf(HasRemainder, quotas[1..]);
      assert (h + rest) * (total - 1) == h * (total - 1) + rest * (total - 1);
    }
  }

  lemma TimesMonotone(a: int, b: int, c: int)
    requires a <= b && c >= 0
    ensures a * c <= b * c
  {
  }

  lemma MissingBound(sum: int, nonzero: int, total: int, remainders: int)
    requires total > 0 && sum * total + remainders == 10_000 * total
    requires 0 <= remainders <= nonzero * (total - 1) && nonzero >= 0
    ensures sum <= 10_000 && (10_000 - sum < nonzero || (sum == 10_000 && nonzero == 0))
  {
    var missing := 10_000 - sum;
    assert missing * total == remainders;
    assert nonzero * (total - 1) == nonzero * total - nonzero;
    if missing < 0 { TimesMonotone(missing, -1, total); }
    if missing >= nonzero { TimesMonotone(nonzero, missing, total); }
  }

  /** The missing units are fewer than the nonzero remainders, unless there are none of either. */
  lemma MissingIsSmall(counts: seq<Item>, total: nat)
    requires SumsUp(counts, total)
    ensures var nonzero := SumOf(HasRemainder, Quotas(counts, total));
            var missing := Missing(counts, total);
            missing >= 0 && (missing < nonzero || (missing == 0 && nonzero == 0))
  {
    var quotas := Quotas(counts, total);
    QuotaSums(counts, total);
    forall q | q in quotas ensures 0 <= q.remainder < total {
      var i :| 0 <= i < |quotas| && quotas[i] == q;
      QuotaParts(counts[i], total);
    }
    RemaindersBelow(quotas, total);
    MissingBound(SumOf(FloorOf, quotas), SumOf(HasRemainder, quotas), total, SumOf(RemainderOf, quotas));
  }

  lemma {:induction false} NonzeroAtMostLength(quotas: seq<Quota>)
    ensures 0 <= SumOf(HasRemainder, quotas) <= |quotas|
    decreases |quotas|
  {
    if quotas != [] { NonzeroAtMostLength(quotas[1..]); }
  }

  /** In sorted order the nonzero remainders come first. */
  lemma NonzeroFirst(sorted: seq<Quota>, j: nat)
    requires SortedBy(QuotaLe, sorted) && forall q | q in sorted :: q.remainder >= 0
    requires j < |sorted| && sorted[j].remainder == 0
    ensures SumOf(HasRemainder, sorted) <= j
  {
    var front, back := sorted[..j], sorted[j..];
    assert sorted == front + back;
    SumConcat(HasRemainder, front, back);
    NonzeroAtMostLength(front);
    forall q | q in back ensures HasRemainder(q) == 0 {
      var k :| 0 <= k < |back| && back[k] == q;
      assert k > 0 ==> QuotaLe(sorted[j], sorted[j + k]);
      assert sorted[j + k] in sorted;
    }
    SumConstant(HasRemainder, 0, back);
  }

  lemma SortedQuotas(counts: seq<Item>, total: nat)
    requires total > 0
    ensures SortedBy(QuotaLe, Sort(QuotaLe, Quotas(counts, total)))
    ensures forall q | q in Sort(QuotaLe, Quotas(counts, total)) :: 0 <= q.remainder < total
  {
    var quotas := Quotas(counts, total);
    QuotaPreorder();
    SortSorted(QuotaLe, quotas);
    SameElements(Sort(QuotaLe, quotas), quotas);
    forall q | q in Sort(QuotaLe, quotas) ensures 0 <= q.remainder < total {
      assert q in quotas;
      var i :| 0 <= i < |quotas| && quotas[i] == q;
      QuotaParts(counts[i], total);
    }
  }

  /** The chosen categories are the first missing ones in order, all with a nonzero remainder. */
  lemma ChosenHaveRemainders(counts: seq<Item>, total: nat)
    requires SumsUp(counts, total)
    ensures var sorted := Sort(QuotaLe, Quotas(counts, total));
            var missing := Missing(counts, total);
            0 <= missing <= |sorted| && Chosen(counts, total) == sorted[..missing]
    ensures forall q | q in Chosen(counts, total) :: q.remainder > 0
  {
    var quotas := Quotas(counts, total);
    var sorted := Sort(QuotaLe, quotas);
    MissingIsSmall(counts, total);
    SortedQuotas(counts, total);
    SumPermutation(HasRemainder, sorted, quotas);
    NonzeroAtMostLength(sorted);
    forall q | q in Chosen(counts, total) ensures q.remainder > 0 {
      var j :| 0 <= j < Missing(counts, total) && sorted[j] == q;
      if q.remainder == 0 { NonzeroFirst(sorted, j); }
      assert q in sorted;
    }
  }

  /** A category gets the floor or the ceiling of its exact quota, and nothing for nothing. */
  lemma WithinQuota(counts: seq<Item>, total: nat, i: Item)
    requires SumsUp(counts, total) && i in counts
    ensures var p := Points(counts, total, i);
            (p - 1) * total < i.count * 10_000 < (p + 1) * total && (i.count == 0 ==> p == 0)
  {
    hide Chosen, QuotaOf;
    ChosenHaveRemainders(counts, total);
    QuotaParts(i, total);
    RoundedQuota(QuotaOf(i, total), Points(counts, total, i), i.count, total);
  }

  lemma RoundedQuota(q: Quota, p: int, count: nat, total: nat)
    requires q.floor >= 0 && 0 <= q.remainder < total && q.floor * total + q.remainder == count * 10_000
    requires p == q.floor || (p == q.floor + 1 && q.remainder > 0)
    ensures (p - 1) * total < count * 10_000 < (p + 1) * total && (count == 0 ==> p == 0)
  {
    assert (p - 1) * total == p * total - total && (p + 1) * total == p * total + total;
    assert (q.floor + 1) * total == q.floor * total + total;
    if count == 0 && q.floor >= 1 { TimesMonotone(1, q.floor, total); }
  }

  lemma AllocationWithinQuota(counts: seq<Item>, total: nat, points: map<string, int>, i: Item)
    requires SumsUp(counts, total) && IsAllocation(counts, total, points) && i in counts
    ensures i.category in points
    ensures var p := points[i.category]; (p - 1) * total < i.count * 10_000 < (p + 1) * total
  {
    hide Points, SumsUp;
    WithinQuota(counts, total, i);
  }

  /** A larger count never gets fewer basis points. */
  lemma PointsMonotone(counts: seq<Item>, total: nat, a: Item, b: Item)
    requires SumsUp(counts, total) && IsDictionary(counts) && a in counts && b in counts && a.count > b.count
    ensures Points(counts, total, a) >= Points(counts, total, b)
  {
    var qa, qb := QuotaOf(a, total), QuotaOf(b, total);
    QuotaParts(a, total);
    QuotaParts(b, total);
    FloorsMonotone(qa, qb, total);
    if qa.floor == qb.floor && qb in Chosen(counts, total) {
      BeforeChosen(counts, total, a, b);
    }
  }

  lemma FloorsMonotone(a: Quota, b: Quota, total: nat)
    requires 0 <= a.remainder < total && 0 <= b.remainder < total
    requires a.floor * total + a.remainder > b.floor * total + b.remainder
    ensures a.floor >= b.floor && (a.floor == b.floor ==> a.remainder > b.remainder)
  {
    if a.floor < b.floor { TimesMonotone(a.floor + 1, b.floor, total); }
  }

  lemma EarlierInOrder(sorted: seq<Quota>, i: nat, j: nat)
    requires SortedBy(QuotaLe, sorted) && i < |sorted| && j < |sorted|
    requires sorted[i].remainder > sorted[j].remainder
    ensures i < j
  {
  }

  lemma BeforeChosen(counts: seq<Item>, total: nat, a: Item, b: Item)
    requires SumsUp(counts, total) && a in counts && b in counts
    requires QuotaOf(a, total).remainder > QuotaOf(b, total).remainder && QuotaOf(b, total) in Chosen(counts, total)
    ensures QuotaOf(a, total) in Chosen(counts, total)
  {
    var quotas := Quotas(counts, total);
    var sorted := Sort(QuotaLe, quotas);
    ChosenHaveRemainders(counts, total);
    SortedQuotas(counts, total);
    SameElements(sorted, quotas);
    hide Sort, QuotaLe;
    var m :| 0 <= m < |counts| && counts[m] == a;
    assert quotas[m] in quotas;
    var i :| 0 <= i < |sorted| && sorted[i] == QuotaOf(a, total);
    var j :| 0 <= j < Missing(counts, total) && sorted[j] == QuotaOf(b, total);
    EarlierInOrder(sorted, i, j);
    assert Chosen(counts, total)[i] == sorted[i];
  }

  // ---------- The sum ----------

  function PointsIn(counts: seq<Item>, total: nat): Item -> int { i => Points(counts, total, i) }

  function InChosen(chosen: seq<Quota>): Quota -> int { q => if q in chosen then 1 else 0 }

  lemma {:induction false} PointsSplit(all: seq<Item>, counts: seq<Item>, total: nat)
    requires total > 0
    ensures SumOf(PointsIn(all, total), counts)
         == SumOf(FloorOf, Quotas(counts, total)) + SumOf(InChosen(Chosen(all, total)), Quotas(counts, total))
    decreases |counts|
  {
    if counts != [] {
      assert Quotas(counts, total)[1..] == Quotas(counts[1..], total);
      PointsSplit(all, counts[1..], total);
    }
  }

  lemma ChosenCount(sorted: seq<Quota>, k: nat)
    requires k <= |sorted| && DistinctKeys(NameOf, sorted)
    ensures SumOf(InChosen(sorted[..k]), sorted) == k
  {
    var front, back := sorted[..k], sorted[k..];
    assert sorted == front + back;
    SumConcat(InChosen(front), front, back);
    SumConstant(InChosen(front), 1, front);
    forall q | q in back ensures q !in front {
      var j :| 0 <= j < |back| && back[j] == q;
      forall i | 0 <= i < k ensures front[i] != q {
        assert NameOf(sorted[i]) != NameOf(sorted[k + j]);
      }
    }
    SumConstant(InChosen(front), 0, back);
  }

  /** The basis points sum to exactly 10,000. */
  lemma SumIsWhole(counts: seq<Item>, total: nat)
    requires SumsUp(counts, total) && IsDictionary(counts)
    ensures SumOf(PointsIn(counts, total), counts) == 10_000
  {
    var quotas := Quotas(counts, total);
    var sorted := Sort(QuotaLe, quotas);
    ChosenHaveRemainders(counts, total);
    QuotasDistinct(counts, total);
    PointsSplit(counts, counts, total);
    SumPermutation(InChosen(Chosen(counts, total)), sorted, quotas);
    ChosenCount(sorted, Missing(counts, total));
  }

  // ---------- Who gets the units ----------

  /** The first name is the beginning of the second, or has the smaller character at the first difference. */
  ghost predicate NameBefore(a: string, b: string, k: nat) {
    && k <= |a| && k <= |b| && a[..k] == b[..k]
    && (if k == |a| then k < |b| else k < |b| && a[k] < b[k])
  }

  /** The larger remainder goes first, and of equal ones the earlier name. */
  ghost predicate GoesFirst(a: Item, b: Item, total: nat)
    requires total > 0
  {
    var ra, rb := a.count * 10_000 % total, b.count * 10_000 % total;
    ra > rb || (ra == rb && exists k: nat :: NameBefore(a.category, b.category, k))
  }

  lemma NameBeforeIs(a: string, b: string, k: nat)
    requires NameBefore(a, b, k)
    ensures StringLe(a, b) && !StringLe(b, a)
  {
    LexLeIff(CharLe, a, b, k);
    LexLeIff(CharLe, b, a, k);
  }

  lemma FirstIsStrict(a: Item, b: Item, total: nat)
    requires total > 0 && GoesFirst(a, b, total)
    ensures !QuotaLe(QuotaOf(b, total), QuotaOf(a, total))
  {
    if a.count * 10_000 % total == b.count * 10_000 % total {
      var k: nat :| NameBefore(a.category, b.category, k);
      NameBeforeIs(a.category, b.category, k);
    }
  }

  /** A category that gets a unit is never passed by one that goes before it. */
  lemma UnitOrder(counts: seq<Item>, total: nat, a: Item, b: Item)
    requires IsDictionary(counts) && total > 0 && a in counts && b in counts && GoesFirst(a, b, total)
    requires Points(counts, total, b) == b.count * 10_000 / total + 1
    ensures Points(counts, total, a) == a.count * 10_000 / total + 1
  {
    var quotas := Quotas(counts, total);
    var sorted := Sort(QuotaLe, quotas);
    SortedQuotas(counts, total);
    SameElements(sorted, quotas);
    FirstIsStrict(a, b, total);
    IsQuota(a, total);
    IsQuota(b, total);
    var qa, qb := QuotaOf(a, total), QuotaOf(b, total);
    QuotaListed(counts, total, a);
    hide QuotaOf, Sort, Quotas, QuotaLe;
    var kept := Kept(|sorted|, Missing(counts, total));
    assert Chosen(counts, total) == sorted[..kept];
    var j :| 0 <= j < kept && sorted[j] == qb;
    var i :| 0 <= i < |sorted| && sorted[i] == qa;
    assert qa in sorted[..kept];
  }

  lemma QuotaListed(counts: seq<Item>, total: nat, i: Item)
    requires total > 0 && i in counts
    ensures QuotaOf(i, total) in Quotas(counts, total)
  {
    var k :| 0 <= k < |counts| && counts[k] == i;
    assert Quotas(counts, total)[k] == QuotaOf(i, total);
  }
}
