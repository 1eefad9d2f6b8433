/** Dominance queries and dominance frontiers over the finished immediate-dominator table. */
module DominanceFrontier {
  import opened Options
  import opened ControlFlow
  import opened DominatorTree
  import opened Dominators

  // ---------- The dominators of a block as a set ----------

  ghost function DominatorSet(g: Graph, b: nat): set<nat> {
    set d: nat | d < |g.succ| && Dominates(g, d, b)
  }

  lemma DominatorInRange(g: Graph, d: nat, b: nat)
    requires Dominates(g, d, b)
    ensures d < |g.succ|
  {
    var p :| PathTo(g, p, b);
    assert d in p;
  }

  /** The strict dominators of a block are the dominators of its immediate dominator. */
  lemma StrictThroughImmediate(g: Graph, t: nat, b: nat, d: nat)
    requires IsImmediateDominator(g, t, b)
    ensures StrictlyDominates(g, d, b) <==> Dominates(g, d, t)
  {
    if Dominates(g, d, t) {
      DominatesTransitive(g, d, t, b);
      if d == b { DominatesAntisymmetric(g, b, t); }
    }
  }

  lemma ImmediateShrinks(g: Graph, t: nat, b: nat)
    requires IsImmediateDominator(g, t, b)
    ensures DominatorSet(g, t) < DominatorSet(g, b)
  {
    forall d | d in DominatorSet(g, t) ensures d in DominatorSet(g, b) {
      StrictThroughImmediate(g, t, b, d);
    }
    DominatesSelf(g, b);
    DominatorInRange(g, b, b);
    StrictThroughImmediate(g, t, b, b);
    assert b in DominatorSet(g, b) && b !in DominatorSet(g, t);
  }

  lemma TableStep(g: Graph, idom: Table, b: nat)
    requires ImmediateDominatorTable(g, idom) && b < |idom| && idom[b].Some?
    ensures b != 0 && Reachable(g, b) && idom[b].value < |idom|
    ensures IsImmediateDominator(g, idom[b].value, b) && Reachable(g, idom[b].value)
  {
    assert b != 0 && Reachable(g, b);
    DominatorInRange(g, idom[b].value, b);
    DominatorReachable(g, idom[b].value, b);
  }

  ghost predicate IsReachableSet(g: Graph, reachable: set<nat>) {
    forall b: nat :: b in reachable <==> Reachable(g, b)
  }

  /** The table entry of a block, none when it has no row. */
  function EntryOf(idom: Table, b: nat): Option<nat> {
    if b < |idom| then idom[b] else None
  }

  /** Where `k` steps up the table lead from `b`. */
  ghost function After(idom: Table, b: nat, k: nat): Option<nat> {
    if k == 0 then Some(b)
    else
      var c := After(idom, b, k - 1);
      if c.None? then None else EntryOf(idom, c.value)
  }

  /** The climb from `b` meets `d`. */
  ghost predicate Climbs(idom: Table, b: nat, d: nat) {
    exists k: nat :: k > 0 && After(idom, b, k) == Some(d)
  }

  /** The climb from `b` in search of `d` is over after `steps` steps. On a cyclic table it need not end. */
  ghost predicate Stops(idom: Table, b: nat, d: nat, steps: nat) {
    steps > 0 && (After(idom, b, steps).None? || After(idom, b, steps) == Some(d))
  }

  lemma {:induction false} StaysNone(idom: Table, b: nat, i: nat, k: nat)
    requires i <= k && After(idom, b, i).None?
    ensures After(idom, b, k).None?
    decreases k
  {
    if i < k { StaysNone(idom, b, i, k - 1); }
  }

  /** The query of the finished graph, on any table on which it ends. */
  method QueryDominates(reachable: set<nat>, idom: Table, dominator: nat, block: nat, ghost steps: nat) returns (r: bool)
    requires dominator == block || Stops(idom, block, dominator, steps)
    ensures r <==> if dominator == block then block in reachable else Climbs(idom, block, dominator)
  {
    if dominator == block { return block in reachable; }
    var current := EntryOf(idom, block);
    ghost var k := 1;
    assert After(idom, block, 0) == Some(block);
    while current.Some?
      invariant 0 < k <= steps && current == After(idom, block, k)
      invariant forall i: nat | 0 < i < k :: After(idom, block, i) != Some(dominator)
      decreases steps - k, current.Some?
    {
      if current.value == dominator { return true; }
      current := EntryOf(idom, current.value);
      k := k + 1;
    }
    forall i: nat | i >= k ensures After(idom, block, i).None? { StaysNone(idom, block, k, i); }
    return false;
  }

  lemma {:induction false} AfterShifts(idom: Table, b: nat, k: nat)
    requires EntryOf(idom, b).Some?
    ensures After(idom, b, k + 1) == After(idom, EntryOf(idom, b).value, k)
    decreases k
  {
    if k != 0 {
      AfterShifts(idom, b, k - 1);
    } else {
      assert After(idom, b, 0) == Some(b);
    }
  }

  lemma ClimbStep(idom: Table, b: nat, d: nat)
    requires EntryOf(idom, b).Some?
    ensures var t := EntryOf(idom, b).value; Climbs(idom, b, d) <==> d == t || Climbs(idom, t, d)
  {
    var t := EntryOf(idom, b).value;
    if Climbs(idom, b, d) {
      var k: nat :| k > 0 && After(idom, b, k) == Some(d);
      AfterShifts(idom, b, k - 1);
    }
    if d == t { AfterShifts(idom, b, 0); }
    if k: nat :| k > 0 && After(idom, t, k) == Some(d) { AfterShifts(idom, b, k); }
  }

  /** On the finished table the climb ends, and it meets exactly the strict dominators. */
  lemma {:induction false} ClimbMeetsDominators(g: Graph, idom: Table, b: nat, d: nat) returns (steps: nat)
    requires Valid(g) && ImmediateDominatorTable(g, idom)
    ensures Stops(idom, b, d, steps)
    ensures Climbs(idom, b, d) <==> StrictlyDominates(g, d, b)
    decreases DominatorSet(g, b)
  {
    if EntryOf(idom, b).None? {
      assert After(idom, b, 0) == Some(b);
      assert After(idom, b, 1).None?;
      steps := 1;
      forall k: nat | k > 0 ensures After(idom, b, k).None? { StaysNone(idom, b, 1, k); }
      NoEntryNoDominator(g, idom, b, d);
    } else {
      var t := EntryOf(idom, b).value;
      TableStep(g, idom, b);
      ImmediateShrinks(g, t, b);
      StrictThroughImmediate(g, t, b, d);
      ClimbStep(idom, b, d);
      DominatesSelf(g, t);
      steps := ClimbMeetsDominators(g, idom, t, d);
      AfterShifts(idom, b, steps);
      steps := steps + 1;
    }
  }

  lemma NoEntryNoDominator(g: Graph, idom: Table, b: nat, d: nat)
    requires Valid(g) && ImmediateDominatorTable(g, idom) && EntryOf(idom, b).None?
    ensures !StrictlyDominates(g, d, b)
  {
    if StrictlyDominates(g, d, b) {
      if b == 0 { OnlyEntryDominatesEntry(g, d); }
      DominatesSelf(g, b);
      DominatorInRange(g, b, b);
    }
  }

  /** The answer of the query on the finished table is dominance over all paths. */
  lemma QueryIsDominance(g: Graph, reachable: set<nat>, idom: Table, d: nat, b: nat)
    requires Valid(g) && ImmediateDominatorTable(g, idom) && IsReachableSet(g, reachable)
    ensures d == b || exists steps: nat :: Stops(idom, b, d, steps)
    ensures (if d == b then b in reachable else Climbs(idom, b, d)) <==> Dominates(g, d, b)
  {
    var steps := ClimbMeetsDominators(g, idom, b, d);
    if d == b && b in reachable { DominatesSelf(g, b); }
  }

  /** Asked about the very entry of a block, the query ends at its first step with yes, on every table. */
  lemma OwnEntryIsFound(idom: Table, b: nat)
    requires EntryOf(idom, b).Some?
    ensures Stops(idom, b, EntryOf(idom, b).value, 1) && Climbs(idom, b, EntryOf(idom, b).value)
  {
    assert After(idom, b, 0) == Some(b);
    assert After(idom, b, 1) == EntryOf(idom, b);
  }

  // ---------- Frontiers ----------

  /** The definition: `x` dominates a predecessor of `y` but does not strictly dominate `y`. */
  ghost predicate InFrontier(g: Graph, x: nat, y: nat) {
    (exists u: nat :: Edge(g, u, y) && Dominates(g, x, u)) && !StrictlyDominates(g, x, y)
  }

  ghost predicate TwoPredecessors(g: Graph, y: nat) {
    exists u: nat, v: nat :: u != v && Edge(g, u, y) && Edge(g, v, y)
  }

  /** The blocks that the walk from the predecessor `p` of `y` marks. */
  ghost predicate OnWalk(g: Graph, p: nat, y: nat, x: nat) {
    if Reachable(g, p) then Dominates(g, x, p) && !StrictlyDominates(g, x, y) else x == p
  }

  ghost predicate Marked(g: Graph, x: nat, y: nat) {
    Reachable(g, y) && TwoPredecessors(g, y) && exists p: nat :: Edge(g, p, y) && OnWalk(g, p, y, x)
  }

  /** A reachable block with one predecessor only is in no frontier, unless it is the entry. */
  lemma SinglePredecessor(g: Graph, x: nat, y: nat)
    requires Valid(g) && Reachable(g, y) && y != 0 && !TwoPredecessors(g, y)
    ensures !InFrontier(g, x, y)
  {
    if u: nat :| Edge(g, u, y) && Dominates(g, x, u) {
      forall v: nat | Edge(g, v, y) && Reachable(g, v) ensures Dominates(g, x, v) {
        assert u == v;
      }
      DominatesFromPredecessors(g, x, y);
      if x == y {
        var p0 :| PathTo(g, p0, y);
        var p := FirstVisit(g, p0, y);
        PathPrefix(g, p, y, |p| - 2);
        assert false;
      }
    }
  }

  /** For reachable blocks the marks are the frontier, exactly: only an entry with a single, reachable
      predecessor is left out. */
  lemma MarksAreFrontier(g: Graph, x: nat, y: nat)
    requires Valid(g) && Reachable(g, x)
    ensures Marked(g, x, y) <==> InFrontier(g, x, y) && (y == 0 ==> TwoPredecessors(g, y))
  {
    if Marked(g, x, y) {
      var p: nat :| Edge(g, p, y) && OnWalk(g, p, y, x);
      assert Reachable(g, p);
    }
    if InFrontier(g, x, y) && (y == 0 ==> TwoPredecessors(g, y)) {
      var u: nat :| Edge(g, u, y) && Dominates(g, x, u);
      var p :| PathTo(g, p, u);
      ExtendPath(g, p, u, y);
      if y != 0 && !TwoPredecessors(g, y) { SinglePredecessor(g, x, y); }
      assert OnWalk(g, u, y, x);
    }
  }

  /** The exception is real: the region whose only block jumps to itself. */
  lemma EntryLoopIsMissed()
    ensures var g := Graph([[0]]); Valid(g) && InFrontier(g, 0, 0) && !Marked(g, 0, 0)
  {
    var g := Graph([[0]]);
    EntryPath(g);
    DominatesSelf(g, 0);
    assert Edge(g, 0, 0);
  }

  type Frontiers = seq<set<nat>>

  /** What has been marked when the walk from `p` has come to `runner`. */
  ghost predicate Passed(g: Graph, p: nat, runner: Option<nat>, x: nat) {
    if Reachable(g, p) then Dominates(g, x, p) && (runner.Some? ==> !Dominates(g, x, runner.value))
    else x == p && runner.None?
  }

  /** Where the walk from `p` to `stop` can be. */
  ghost predicate RunnerOk(g: Graph, p: nat, runner: Option<nat>, stop: Option<nat>) {
    && (runner.Some? ==> runner.value < |g.succ|)
    && (if Reachable(g, p) then
          && (runner.Some? ==> Dominates(g, runner.value, p))
          && (stop.Some? ==> runner.Some? && Dominates(g, stop.value, runner.value))
        else runner.Some? ==> runner.value == p)
  }

  /** Moving on from `current` marks exactly `current`. */
  lemma WalkMarks(g: Graph, idom: Table, p: nat, current: nat, x: nat)
    requires Valid(g) && ImmediateDominatorTable(g, idom) && RunnerOk(g, p, Some(current), None)
    ensures Passed(g, p, idom[current], x) <==> Passed(g, p, Some(current), x) || x == current
  {
    if Reachable(g, p) {
      DominatorReachable(g, current, p);
      DominatesSelf(g, current);
      if idom[current].Some? {
        TableStep(g, idom, current);
        StrictThroughImmediate(g, idom[current].value, current, x);
      } else if Dominates(g, x, current) {
        OnlyEntryDominatesEntry(g, x);
      }
    }
  }

  lemma WalkMoves(g: Graph, idom: Table, p: nat, current: nat, stop: Option<nat>)
    requires Valid(g) && ImmediateDominatorTable(g, idom) && RunnerOk(g, p, Some(current), stop)
    requires stop != Some(current)
    ensures RunnerOk(g, p, idom[current], stop)
    ensures idom[current].Some? ==> DominatorSet(g, idom[current].value) < DominatorSet(g, current)
  {
    if idom[current].Some? {
      TableStep(g, idom, current);
      ImmediateShrinks(g, idom[current].value, current);
      if Reachable(g, p) {
        DominatesTransitive(g, idom[current].value, current, p);
      }
    } else if Reachable(g, p) {
      DominatorReachable(g, current, p);
      if stop.Some? { OnlyEntryDominatesEntry(g, stop.value); }
    }
  }

  lemma WalkStarts(g: Graph, idom: Table, p: nat, y: nat, x: nat)
    requires Valid(g) && ImmediateDominatorTable(g, idom)
    requires Edge(g, p, y) && Reachable(g, y) && y < |idom|
    ensures RunnerOk(g, p, Some(p), idom[y])
    ensures !Passed(g, p, Some(p), x)
  {
    if Reachable(g, p) {
      DominatesSelf(g, p);
      if idom[y].Some? {
        TableStep(g, idom, y);
        DominatesPredecessor(g, idom[y].value, p, y);
      }
    }
  }

  lemma WalkEnds(g: Graph, idom: Table, p: nat, y: nat, runner: Option<nat>, x: nat)
    requires Valid(g) && ImmediateDominatorTable(g, idom)
    requires Edge(g, p, y) && Reachable(g, y) && y < |idom|
    requires RunnerOk(g, p, runner, idom[y]) && (runner == idom[y] || runner.None?)
    ensures Passed(g, p, runner, x) <==> OnWalk(g, p, y, x)
  {
    if Reachable(g, p) {
      if idom[y].Some? {
        TableStep(g, idom, y);
        StrictThroughImmediate(g, idom[y].value, y, x);
      } else if StrictlyDominates(g, x, y) {
        OnlyEntryDominatesEntry(g, x);
      }
    } else if idom[y].Some? && runner.Some? {
      TableStep(g, idom, y);
    }
  }

  ghost predicate MarkedSoFar(g: Graph, from: Frontiers, to: Frontiers, y: nat, p: nat, runner: Option<nat>) {
    && |to| == |from|
    && forall x | 0 <= x < |to| :: to[x] == if Passed(g, p, runner, x) then from[x] + {y} else from[x]
  }

  /** Walks from one predecessor of `y` up to the immediate dominator of `y`, marking blocks. */
  method WalkUp(g: Graph, idom: Table, frontiers0: Frontiers, y: nat, p: nat) returns (frontiers: Frontiers)
    requires Valid(g) && ImmediateDominatorTable(g, idom) && |frontiers0| == |g.succ|
    requires Edge(g, p, y) && Reachable(g, y) && y < |idom|
    ensures |frontiers| == |frontiers0|
    ensures forall x | 0 <= x < |frontiers| ::
              frontiers[x] == if OnWalk(g, p, y, x) then frontiers0[x] + {y} else frontiers0[x]
  {
    frontiers := frontiers0;
    var stop := idom[y];
    var runner := Some(p);
    forall x: nat ensures !Passed(g, p, runner, x) { WalkStarts(g, idom, p, y, x); }
    WalkStarts(g, idom, p, y, 0);
    while runner != stop
      invariant RunnerOk(g, p, runner, stop)
      invariant MarkedSoFar(g, frontiers0, frontiers, y, p, runner)
      decreases runner.Some?, if runner.Some? then DominatorSet(g, runner.value) else {}
    {
      if runner.None? { break; }
      var current := runner.value;
      WalkMoves(g, idom, p, current, stop);
      forall x: nat ensures Passed(g, p, idom[current], x) <==> Passed(g, p, runner, x) || x == current {
        WalkMarks(g, idom, p, current, x);
      }
      frontiers := frontiers[current := frontiers[current] + {y}];
      runner := idom[current];
    }
    forall x | 0 <= x < |frontiers| ensures Passed(g, p, runner, x) <==> OnWalk(g, p, y, x) {
      WalkEnds(g, idom, p, y, runner, x);
    }
  }

  ghost predicate FrontierTable(g: Graph, frontiers: Frontiers) {
    |frontiers| == |g.succ| && forall x: nat, y: nat | x < |frontiers| :: y in frontiers[x] <==> Marked(g, x, y)
  }

  ghost predicate MarkedFrom(g: Graph, y: nat, preds: seq<nat>, i: nat, x: nat)
    requires i <= |preds|
  {
    exists j :: 0 <= j < i && OnWalk(g, preds[j], y, x)
  }

  /** Adds one block to the frontiers it belongs to. */
  method MarkBlock(g: Graph, idom: Table, frontiers0: Frontiers, y: nat, preds: seq<nat>) returns (frontiers: Frontiers)
    requires Valid(g) && ImmediateDominatorTable(g, idom) && |frontiers0| == |g.succ|
    requires y < |idom| && Reachable(g, y) && AscendingPredecessors(g, y, preds)
    ensures |frontiers| == |frontiers0|
    ensures forall x: nat | x < |frontiers| ::
              frontiers[x] == if MarkedFrom(g, y, preds, |preds|, x) then frontiers0[x] + {y} else frontiers0[x]
  {
    frontiers := frontiers0;
    var i := 0;
    while i < |preds|
      invariant i <= |preds| && |frontiers| == |frontiers0|
      invariant forall x: nat | x < |frontiers| ::
                  frontiers[x] == if MarkedFrom(g, y, preds, i, x) then frontiers0[x] + {y} else frontiers0[x]
    {
      assert preds[i] in preds;
      ghost var before := frontiers;
      frontiers := WalkUp(g, idom, frontiers, y, preds[i]);
      forall x: nat | x < |frontiers|
        ensures frontiers[x] == if MarkedFrom(g, y, preds, i + 1, x) then frontiers0[x] + {y} else frontiers0[x]
      {
        assert MarkedFrom(g, y, preds, i + 1, x) <==> MarkedFrom(g, y, preds, i, x) || OnWalk(g, preds[i], y, x);
        assert before[x] == if MarkedFrom(g, y, preds, i, x) then frontiers0[x] + {y} else frontiers0[x];
      }
      i := i + 1;
    }
  }

  lemma MarkedFromAll(g: Graph, y: nat, preds: seq<nat>, x: nat)
    requires AscendingPredecessors(g, y, preds) && Reachable(g, y)
    ensures |preds| >= 2 <==> TwoPredecessors(g, y)
    ensures Marked(g, x, y) <==> |preds| >= 2 && MarkedFrom(g, y, preds, |preds|, x)
  {
    if |preds| >= 2 {
      assert preds[0] in preds && preds[1] in preds;
      assert Edge(g, preds[0], y) && Edge(g, preds[1], y) && preds[0] != preds[1];
    }
    if TwoPredecessors(g, y) {
      var u: nat, v: nat :| u != v && Edge(g, u, y) && Edge(g, v, y);
      assert u in preds && v in preds;
    }
    if MarkedFrom(g, y, preds, |preds|, x) {
      var j :| 0 <= j < |preds| && OnWalk(g, preds[j], y, x);
      assert preds[j] in preds;
    }
    if p: nat :| Edge(g, p, y) && OnWalk(g, p, y, x) {
      assert p in preds;
    }
  }

  /** Dominance frontiers of all blocks. */
  method ComputeFrontiers(g: Graph, preds: seq<seq<nat>>, reachable: set<nat>, idom: Table)
    returns (frontiers: Frontiers)
    requires Valid(g) && PredecessorTable(g, preds) && ImmediateDominatorTable(g, idom)
    requires IsReachableSet(g, reachable)
    ensures FrontierTable(g, frontiers)
  {
    frontiers := seq(|g.succ|, b => {});
    var y := 0;
    while y < |g.succ|
      invariant y <= |g.succ|
      invariant FrontiersBefore(g, frontiers, y)
    {
      assert AscendingPredecessors(g, y, preds[y]);
      var updated := frontiers;
      if y in reachable && |preds[y]| >= 2 {
        updated := MarkBlock(g, idom, frontiers, y, preds[y]);
      }
      assert Reachable(g, y) <==> y in reachable;
      FrontiersStep(g, preds[y], frontiers, updated, y);
      frontiers := updated;
      y := y + 1;
    }
    forall x: nat, z: nat | x < |frontiers| && Marked(g, x, z) ensures z < |g.succ| {
      var p :| PathTo(g, p, z);
      assert p[|p| - 1] == z;
    }
  }

  ghost predicate FrontiersBefore(g: Graph, frontiers: Frontiers, y: nat) {
    && |frontiers| == |g.succ|
    && forall x: nat, z: nat | x < |frontiers| :: z in frontiers[x] <==> z < y && Marked(g, x, z)
  }

  lemma FrontiersStep(g: Graph, preds: seq<nat>, before: Frontiers, after: Frontiers, y: nat)
    requires AscendingPredecessors(g, y, preds) && FrontiersBefore(g, before, y) && |after| == |before|
    requires if Reachable(g, y) && |preds| >= 2 then
               forall x: nat | x < |after| ::
                 after[x] == if MarkedFrom(g, y, preds, |preds|, x) then before[x] + {y} else before[x]
             else after == before
    ensures FrontiersBefore(g, after, y + 1)
  {
    forall x: nat, z: nat | x < |after| ensures z in after[x] <==> z < y + 1 && Marked(g, x, z) {
      assert z in before[x] <==> z < y && Marked(g, x, z);
      if Reachable(g, y) { MarkedFromAll(g, y, preds, x); }
    }
  }
}
