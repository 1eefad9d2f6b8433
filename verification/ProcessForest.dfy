/** The CPU time and memory of a forest of processes: the given roots and all their descendants. */
module ProcessForest {
  import opened Lists
  import opened Sums

  datatype Process = Process(ppid: nat, ticks: int, pages: int)

  type Stats = map<nat, Process>

  /** The iteration order of a table of processes: each process once. */
  ghost predicate IsListing(order: seq<nat>, stats: Stats) {
    NoRepeats(order) && forall pid :: pid in order <==> pid in stats
  }

  // ---------- Descendants ----------

  /** `pid` reaches one of `roots` by following parents `k` times. */
  ghost predicate DescendsIn(stats: Stats, roots: set<nat>, pid: nat, k: nat)
    decreases k
  {
    if k == 0 then pid in roots else pid in stats && DescendsIn(stats, roots, stats[pid].ppid, k - 1)
  }

  ghost predicate Descends(stats: Stats, roots: set<nat>, pid: nat) {
    exists k: nat :: DescendsIn(stats, roots, pid, k)
  }

  ghost predicate IsForest(stats: Stats, roots: set<nat>, selected: set<nat>) {
    forall pid :: pid in selected <==> Descends(stats, roots, pid)
  }

  ghost predicate Closed(stats: Stats, selected: set<nat>) {
    forall pid | pid in stats && stats[pid].ppid in selected :: pid in selected
  }

  lemma {:induction false} ClosedCovers(stats: Stats, roots: set<nat>, selected: set<nat>, pid: nat, k: nat)
    requires Closed(stats, selected) && roots <= selected && DescendsIn(stats, roots, pid, k)
    ensures pid in selected
    decreases k
  {
    if k != 0 { ClosedCovers(stats, roots, selected, stats[pid].ppid, k - 1); }
  }

  lemma ChildDescends(stats: Stats, roots: set<nat>, pid: nat)
    requires pid in stats && Descends(stats, roots, stats[pid].ppid)
    ensures Descends(stats, roots, pid)
  {
    var k: nat :| DescendsIn(stats, roots, stats[pid].ppid, k);
    assert DescendsIn(stats, roots, pid, k + 1);
  }

  lemma RootsDescend(stats: Stats, roots: set<nat>)
    ensures forall pid | pid in roots :: Descends(stats, roots, pid)
  {
    forall pid | pid in roots ensures Descends(stats, roots, pid) {
      assert DescendsIn(stats, roots, pid, 0);
    }
  }

  /** One pass over the table adds children of what is selected so far, in place. It reports no change
      only when nothing is left to add. */
  method Pass(stats: Stats, order: seq<nat>, roots: set<nat>, before: set<nat>) returns (selected: set<nat>, changed: bool)
    requires IsListing(order, stats)
    requires forall pid | pid in before :: Descends(stats, roots, pid)
    ensures before <= selected <= before + stats.Keys
    ensures forall pid | pid in selected :: Descends(stats, roots, pid)
    ensures changed <==> before != selected
    ensures !changed ==> Closed(stats, selected)
  {
    hide Descends;
    selected, changed := before, false;
    for i := 0 to |order|
      invariant before <= selected <= before + stats.Keys
      invariant forall pid | pid in selected :: Descends(stats, roots, pid)
      invariant changed <==> before != selected
      invariant !changed ==> forall j | 0 <= j < i :: stats[order[j]].ppid in selected ==> order[j] in selected
    {
      var pid := order[i];
      if stats[pid].ppid in selected && pid !in selected {
        ChildDescends(stats, roots, pid);
        selected, changed := selected + {pid}, true;
      }
    }
    assert forall pid | pid in stats :: pid in order;
  }

  /** The selection is exactly the roots and their descendants, whatever the order of the table. */
  method Select(stats: Stats, order: seq<nat>, roots: set<nat>) returns (selected: set<nat>)
    requires IsListing(order, stats)
    ensures IsForest(stats, roots, selected)
  {
    RootsDescend(stats, roots);
    selected := roots;
    var changed := true;
    while changed
      invariant roots <= selected
      invariant forall pid | pid in selected :: Descends(stats, roots, pid)
      invariant !changed ==> Closed(stats, selected)
      decreases stats.Keys - selected, changed
    {
      ghost var was := selected;
      selected, changed := Pass(stats, order, roots, selected);
      if changed { Shrinks(stats.Keys, was, selected); }
    }
    ForestCovered(stats, roots, selected);
  }

  lemma Shrinks(all: set<nat>, was: set<nat>, now: set<nat>)
    requires was <= now <= was + all && was != now
    ensures all - now < all - was
  {
    var x :| x in now && x !in was;
    assert x in all - was && x !in all - now;
  }

  lemma ForestCovered(stats: Stats, roots: set<nat>, selected: set<nat>)
    requires roots <= selected && Closed(stats, selected)
    requires forall pid | pid in selected :: Descends(stats, roots, pid)
    ensures IsForest(stats, roots, selected)
  {
    forall pid | Descends(stats, roots, pid) ensures pid in selected {
      var k: nat :| DescendsIn(stats, roots, pid, k);
      ClosedCovers(stats, roots, selected, pid, k);
    }
  }

  // ---------- Totals ----------

  /** What `pid` adds to a total over `members`: processes without statistics add nothing. */
  function Share(stats: Stats, field: Process -> int, members: set<nat>): nat -> int {
    (pid: nat) => if pid in members && pid in stats then field(stats[pid]) else 0
  }

  /** The total over `members`, each listed process counted once. */
  function Total(stats: Stats, order: seq<nat>, field: Process -> int, members: set<nat>): int {
    SumOf(Share(stats, field, members), order)
  }

  lemma {:induction false} AddMember(stats: Stats, order: seq<nat>, field: Process -> int, members: set<nat>, pid: nat)
    requires NoRepeats(order) && pid !in members
    requires forall p | p in order :: p in stats
    ensures Total(stats, order, field, members + {pid}) ==
            Total(stats, order, field, members) + if pid in order then field(stats[pid]) else 0
    decreases |order|
  {
    if order == [] {
    } else {
      assert forall i, j | 0 <= i < j < |order[1..]| :: order[1..][i] == order[i + 1] && order[1..][j] == order[j + 1];
      AddMember(stats, order[1..], field, members, pid);
      assert pid == order[0] ==> pid !in order[1..];
    }
  }

  /** Adding over a set in any order of its elements. */
  method SumOver(stats: Stats, ghost order: seq<nat>, field: Process -> int, members: set<nat>) returns (total: int)
    requires IsListing(order, stats)
    ensures total == Total(stats, order, field, members)
  {
    hide Total;
    total := 0;
    var rest := members;
    NoMembers(stats, order, field);
    assert members - rest == {};
    while rest != {}
      invariant rest <= members
      invariant total == Total(stats, order, field, members - rest)
    {
      var pid :| pid in rest;
      AddMember(stats, order, field, members - rest, pid);
      assert members - (rest - {pid}) == members - rest + {pid};
      if pid in stats { total := total + field(stats[pid]); }
      rest := rest - {pid};
    }
    assert members - rest == members;
  }

  lemma NoMembers(stats: Stats, order: seq<nat>, field: Process -> int)
    ensures Total(stats, order, field, {}) == 0
  {
    SumConstant(Share(stats, field, {}), 0, order);
  }

  /** CPU seconds and resident bytes of the forest, each present process counted once. */
  method Sample(stats: Stats, order: seq<nat>, roots: set<nat>, ticksPerSecond: nat, pageSize: nat)
    returns (cpu: real, rss: int, forest: set<nat>)
    requires IsListing(order, stats) && ticksPerSecond > 0
    ensures IsForest(stats, roots, forest)
    ensures cpu * ticksPerSecond as real == Total(stats, order, (p: Process) => p.ticks, forest) as real
    ensures rss == Total(stats, order, (p: Process) => p.pages, forest) * pageSize
  {
    hide Total;
    hide IsForest;
    forest := Select(stats, order, roots);
    var ticks := SumOver(stats, order, (p: Process) => p.ticks, forest);
    var pages := SumOver(stats, order, (p: Process) => p.pages, forest);
    cpu := ticks as real / ticksPerSecond as real;
    rss := pages * pageSize;
  }

  /** Neither the order of the table nor the order of the set matters. */
  lemma OrderIrrelevant(stats: Stats, order: seq<nat>, order': seq<nat>, field: Process -> int, members: set<nat>)
    requires IsListing(order, stats) && IsListing(order', stats)
    ensures Total(stats, order, field, members) == Total(stats, order', field, members)
  {
    ListingsPermute(order, order');
    SumPermutation(Share(stats, field, members), order, order');
  }

  // ---------- Several roots ----------

  lemma {:induction false} DescendsInEither(stats: Stats, a: set<nat>, b: set<nat>, pid: nat, k: nat)
    ensures DescendsIn(stats, a + b, pid, k) <==> DescendsIn(stats, a, pid, k) || DescendsIn(stats, b, pid, k)
    decreases k
  {
    if k != 0 && pid in stats { DescendsInEither(stats, a, b, stats[pid].ppid, k - 1); }
  }

  /** The forest of two groups of roots is the union of their forests. */
  lemma UnionForest(stats: Stats, a: set<nat>, b: set<nat>, fa: set<nat>, fb: set<nat>)
    requires IsForest(stats, a, fa) && IsForest(stats, b, fb)
    ensures IsForest(stats, a + b, fa + fb)
  {
    forall pid ensures pid in fa + fb <==> Descends(stats, a + b, pid) {
      if Descends(stats, a + b, pid) {
        var k: nat :| DescendsIn(stats, a + b, pid, k);
        DescendsInEither(stats, a, b, pid, k);
      }
      if Descends(stats, a, pid) {
        var k: nat :| DescendsIn(stats, a, pid, k);
        DescendsInEither(stats, a, b, pid, k);
      }
      if Descends(stats, b, pid) {
        var k: nat :| DescendsIn(stats, b, pid, k);
        DescendsInEither(stats, a, b, pid, k);
      }
    }
  }

  /** Roots that overlap are not counted twice: the total of both groups together is the sum of their
      totals less the total of what they share. */
  lemma OverlapCountedOnce(stats: Stats, order: seq<nat>, field: Process -> int,
                           a: set<nat>, b: set<nat>, fa: set<nat>, fb: set<nat>)
    requires IsForest(stats, a, fa) && IsForest(stats, b, fb)
    ensures IsForest(stats, a + b, fa + fb)
    ensures Total(stats, order, field, fa + fb) ==
            Total(stats, order, field, fa) + Total(stats, order, field, fb) - Total(stats, order, field, fa * fb)
  {
    UnionForest(stats, a, b, fa, fb);
    InclusionExclusion(stats, order, field, fa, fb);
  }

  lemma {:induction false} InclusionExclusion(stats: Stats, order: seq<nat>, field: Process -> int, a: set<nat>, b: set<nat>)
    ensures Total(stats, order, field, a + b) + Total(stats, order, field, a * b) ==
            Total(stats, order, field, a) + Total(stats, order, field, b)
    decreases |order|
  {
    if order != [] { InclusionExclusion(stats, order[1..], field, a, b); }
  }

  /** A root that already descends from the others adds nothing to the selection. */
  lemma NestedRootAddsNothing(stats: Stats, roots: set<nat>, forest: set<nat>, root: nat)
    requires IsForest(stats, roots, forest) && root in forest
    ensures IsForest(stats, roots + {root}, forest)
  {
    assert Closed(stats, forest) by {
      forall pid | pid in stats && stats[pid].ppid in forest ensures pid in forest {
        ChildDescends(stats, roots, pid);
      }
    }
    RootsDescend(stats, roots);
    forall pid | pid in forest ensures Descends(stats, roots + {root}, pid) {
      var k: nat :| DescendsIn(stats, roots, pid, k);
      DescendsInEither(stats, roots, {root}, pid, k);
    }
    ForestCovered(stats, roots + {root}, forest);
  }
}
