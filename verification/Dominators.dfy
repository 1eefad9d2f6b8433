/** Immediate dominators by the iteration of Cooper, Harvey and Kennedy, proved against paths. */
module Dominators {
  import opened Options
  import opened ControlFlow
  import opened BlockOrder
  import opened DominatorTree

  /** `rank` numbers the blocks of the reverse postorder. */
  ghost predicate Numbered(g: Graph, order: seq<nat>, rank: seq<nat>) {
    && Valid(g) && IsReversePostorder(g, order)
    && |rank| == |g.succ|
    && forall i | 0 <= i < |order| :: order[i] < |rank| && rank[order[i]] == i
  }

  /** Every strict dominator of `b` dominates `t`. */
  ghost predicate PassesDominators(g: Graph, b: nat, t: nat) {
    forall d | StrictlyDominates(g, d, b) :: Dominates(g, d, t)
  }

  /** The table invariant: known blocks are reachable, and no candidate skips a true dominator. */
  ghost predicate TableOk(g: Graph, idom: Table, rank: seq<nat>) {
    && Valid(g) && |idom| == |g.succ|
    && Tree(idom, rank)
    && (forall b: nat | Known(idom, b) :: Reachable(g, b))
    && (forall b: nat | Known(idom, b) && b != 0 :: PassesDominators(g, b, idom[b].value))
  }

  ghost predicate AllKnown(g: Graph, idom: Table) {
    forall b: nat | Reachable(g, b) :: Known(idom, b)
  }

  /** Chains never miss a dominator. */
  lemma {:induction false} ChainHasDominators(g: Graph, idom: Table, rank: seq<nat>, b: nat, d: nat)
    requires TableOk(g, idom, rank) && Known(idom, b) && Dominates(g, d, b)
    ensures d in Chain(idom, rank, b)
    decreases rank[b]
  {
    if b == 0 {
      OnlyEntryDominatesEntry(g, d);
    } else if d != b {
      assert PassesDominators(g, b, idom[b].value);
      ChainHasDominators(g, idom, rank, idom[b].value, d);
    }
  }

  // ---------- The meet over the predecessors ----------

  ghost predicate OnAllChains(g: Graph, idom: Table, rank: seq<nat>, b: nat, c: nat)
    requires Tree(idom, rank)
  {
    forall p: nat | Known(idom, p) && Edge(g, p, b) :: c in Chain(idom, rank, p)
  }

  /** `t` is where the chains of the known predecessors of `b` meet. */
  ghost predicate IsMeet(g: Graph, idom: Table, rank: seq<nat>, b: nat, t: nat)
    requires Tree(idom, rank)
  {
    && Known(idom, t)
    && (exists p: nat :: Known(idom, p) && Edge(g, p, b))
    && (forall c: nat :: c in Chain(idom, rank, t) <==> OnAllChains(g, idom, rank, b, c))
  }

  ghost predicate AscendingPredecessors(g: Graph, b: nat, preds: seq<nat>) {
    && (forall i, j | 0 <= i < j < |preds| :: preds[i] < preds[j])
    && (forall u: nat :: u in preds <==> Edge(g, u, b))
  }

  ghost predicate OnFirstChains(idom: Table, rank: seq<nat>, preds: seq<nat>, i: nat, c: nat)
    requires Tree(idom, rank) && i <= |preds|
  {
    forall j | 0 <= j < i && Known(idom, preds[j]) :: c in Chain(idom, rank, preds[j])
  }

  /** `t` is where the chains of the known ones among the first `i` predecessors meet. */
  ghost predicate MeetsFirst(idom: Table, rank: seq<nat>, preds: seq<nat>, i: nat, t: nat)
    requires Tree(idom, rank) && i <= |preds|
  {
    Known(idom, t) && forall c: nat :: c in Chain(idom, rank, t) <==> OnFirstChains(idom, rank, preds, i, c)
  }

  lemma MeetFromList(g: Graph, idom: Table, rank: seq<nat>, b: nat, preds: seq<nat>, t: nat)
    requires Tree(idom, rank) && AscendingPredecessors(g, b, preds)
    requires exists p: nat :: Known(idom, p) && Edge(g, p, b)
    requires MeetsFirst(idom, rank, preds, |preds|, t)
    ensures IsMeet(g, idom, rank, b, t)
  {
    forall c: nat ensures c in Chain(idom, rank, t) <==> OnAllChains(g, idom, rank, b, c) {
      if OnFirstChains(idom, rank, preds, |preds|, c) {
        forall p: nat | Known(idom, p) && Edge(g, p, b) ensures c in Chain(idom, rank, p) {
          assert p in preds;
        }
      }
      if OnAllChains(g, idom, rank, b, c) {
        forall j | 0 <= j < |preds| && Known(idom, preds[j]) ensures c in Chain(idom, rank, preds[j]) {
          assert preds[j] in preds;
        }
      }
    }
  }

  lemma StartMeet(idom: Table, rank: seq<nat>, preds: seq<nat>, i: nat)
    requires Tree(idom, rank) && i < |preds| && Known(idom, preds[i])
    requires forall j | 0 <= j < i :: !Known(idom, preds[j])
    ensures MeetsFirst(idom, rank, preds, i + 1, preds[i])
  {
    forall c: nat ensures c in Chain(idom, rank, preds[i]) <==> OnFirstChains(idom, rank, preds, i + 1, c) {
    }
  }

  lemma ExtendMeet(idom: Table, rank: seq<nat>, preds: seq<nat>, i: nat, t: nat, t': nat)
    requires Tree(idom, rank) && i < |preds| && MeetsFirst(idom, rank, preds, i, t) && Known(idom, t')
    requires if Known(idom, preds[i]) then Chain(idom, rank, t') == Common(idom, rank, preds[i], t) else t' == t
    ensures MeetsFirst(idom, rank, preds, i + 1, t')
  {
    forall c: nat ensures c in Chain(idom, rank, t') <==> OnFirstChains(idom, rank, preds, i + 1, c) {
      assert OnFirstChains(idom, rank, preds, i + 1, c)
        <==> OnFirstChains(idom, rank, preds, i, c)
             && (Known(idom, preds[i]) ==> c in Chain(idom, rank, preds[i]));
    }
  }

  method FirstKnown(idom: Table, preds: seq<nat>) returns (i: nat)
    requires forall j | 0 <= j < |preds| :: preds[j] < |idom|
    requires exists j :: 0 <= j < |preds| && Known(idom, preds[j])
    ensures i < |preds| && Known(idom, preds[i])
    ensures forall j | 0 <= j < i :: !Known(idom, preds[j])
  {
    i := 0;
    while idom[preds[i]].None?
      invariant i < |preds|
      invariant forall j | 0 <= j < i :: !Known(idom, preds[j])
      decreases |preds| - i
    {
      i := i + 1;
    }
  }

  /** Folds the known predecessors of a block with the two-finger walk. */
  method MeetPredecessors(g: Graph, idom: Table, rank: seq<nat>, b: nat, preds: seq<nat>) returns (next: nat)
    requires Tree(idom, rank) && AscendingPredecessors(g, b, preds)
    requires exists j :: 0 <= j < |preds| && Known(idom, preds[j])
    requires forall j | 0 <= j < |preds| :: preds[j] < |idom|
    ensures IsMeet(g, idom, rank, b, next)
  {
    var i := FirstKnown(idom, preds);
    next := preds[i];
    assert Edge(g, next, b);
    StartMeet(idom, rank, preds, i);
    i := i + 1;
    while i < |preds|
      invariant i <= |preds| && MeetsFirst(idom, rank, preds, i, next)
    {
      var meet := next;
      if idom[preds[i]].Some? {
        meet := IntersectDominators(preds[i], next, idom, rank);
      }
      ExtendMeet(idom, rank, preds, i, next, meet);
      next := meet;
      i := i + 1;
    }
    MeetFromList(g, idom, rank, b, preds, next);
  }

  /** Going up a chain, a dominator is passed on until it is met itself. */
  lemma {:induction false} DominatorDescends(g: Graph, idom: Table, rank: seq<nat>, p: nat, t: nat, d: nat)
    requires TableOk(g, idom, rank) && Known(idom, p) && t in Chain(idom, rank, p) && Dominates(g, d, p)
    ensures Dominates(g, d, t) || (d in Chain(idom, rank, p) && Known(idom, d) && t in Chain(idom, rank, d))
    decreases rank[p]
  {
    if p != t && d != p {
      assert PassesDominators(g, p, idom[p].value);
      DominatorDescends(g, idom, rank, idom[p].value, t, d);
    }
  }

  /** The meet skips no dominator. */
  lemma MeetPassesDominators(g: Graph, idom: Table, rank: seq<nat>, b: nat, t: nat)
    requires TableOk(g, idom, rank) && IsMeet(g, idom, rank, b, t)
    ensures PassesDominators(g, b, t)
  {
    forall d | StrictlyDominates(g, d, b) ensures Dominates(g, d, t) {
      var p: nat :| Known(idom, p) && Edge(g, p, b);
      MeetBelowPredecessor(g, idom, rank, b, t, d, p);
      if !Dominates(g, d, t) {
        forall q: nat | Known(idom, q) && Edge(g, q, b) ensures d in Chain(idom, rank, q) {
          MeetBelowPredecessor(g, idom, rank, b, t, d, q);
        }
        assert OnAllChains(g, idom, rank, b, d);
        ChainMember(idom, rank, t, d);
        ChainMember(idom, rank, d, t);
        DominatesSelf(g, t);
      }
    }
  }

  lemma MeetBelowPredecessor(g: Graph, idom: Table, rank: seq<nat>, b: nat, t: nat, d: nat, p: nat)
    requires TableOk(g, idom, rank) && IsMeet(g, idom, rank, b, t)
    requires StrictlyDominates(g, d, b) && Known(idom, p) && Edge(g, p, b)
    ensures Dominates(g, d, t) || (d in Chain(idom, rank, p) && Known(idom, d) && t in Chain(idom, rank, d))
  {
    DominatesPredecessor(g, d, p, b);
    assert OnAllChains(g, idom, rank, b, t);
    DominatorDescends(g, idom, rank, p, t, d);
  }

  /** A known block other than the entry has a meet strictly earlier in the order. */
  lemma MeetIsEarlier(g: Graph, order: seq<nat>, rank: seq<nat>, idom: Table, i: nat, t: nat)
    requires Numbered(g, order, rank) && Tree(idom, rank)
    requires 0 < i < |order| && IsMeet(g, idom, rank, order[i], t)
    requires forall j | 0 <= j < i :: Known(idom, order[j])
    ensures rank[t] < i && order[i] != 0
  {
    assert HasEarlierPredecessor(g, order, i);
    var j :| 0 <= j < i && Edge(g, order[j], order[i]);
    assert OnAllChains(g, idom, rank, order[i], t);
    ChainMember(idom, rank, order[j], t);
  }

  lemma UpdateTree(g: Graph, order: seq<nat>, rank: seq<nat>, idom: Table, i: nat, t: nat)
    requires Numbered(g, order, rank) && Tree(idom, rank)
    requires forall b: nat | Known(idom, b) :: b in order
    requires 0 < i < |order| && Known(idom, t) && rank[t] < i && order[i] != 0
    ensures Tree(idom[order[i] := Some(t)], rank)
  {
    var b := order[i];
    var idom' := idom[b := Some(t)];
    forall x: nat | Known(idom', x) && x != 0
      ensures Known(idom', idom'[x].value) && rank[idom'[x].value] < rank[x]
    {
      if x != b { assert Known(idom, x); }
    }
    forall x: nat, y: nat | Known(idom', x) && Known(idom', y) && rank[x] == rank[y] ensures x == y {
      assert x in order && y in order;
    }
  }

  /** Replacing the candidate of the `i`-th block by the meet keeps the table invariant. */
  lemma UpdateTable(g: Graph, order: seq<nat>, rank: seq<nat>, idom: Table, i: nat, t: nat)
    requires Numbered(g, order, rank) && TableOk(g, idom, rank)
    requires 0 < i < |order| && IsMeet(g, idom, rank, order[i], t)
    requires forall j | 0 <= j < i :: Known(idom, order[j])
    ensures rank[t] < i && order[i] != 0
    ensures TableOk(g, idom[order[i] := Some(t)], rank)
  {
    var b := order[i];
    MeetIsEarlier(g, order, rank, idom, i, t);
    UpdateTree(g, order, rank, idom, i, t);
    MeetPassesDominators(g, idom, rank, b, t);
    var idom' := idom[b := Some(t)];
    forall x: nat | Known(idom', x) ensures Reachable(g, x) && (x != 0 ==> PassesDominators(g, x, idom'[x].value)) {
      if x == b {
        assert b in order;
      } else {
        assert Known(idom, x);
      }
    }
  }

  // ---------- What one more pass achieves: paths with one more retreating edge ----------

  function Back(rank: seq<nat>, u: nat, v: nat): nat {
    if u < |rank| && v < |rank| && rank[u] < rank[v] then 0 else 1
  }

  /** How many edges of a path do not lead forward in the order. */
  function Retreats(rank: seq<nat>, p: seq<nat>): nat {
    if |p| <= 1 then 0
    else Retreats(rank, p[..|p| - 1]) + Back(rank, p[|p| - 2], p[|p| - 1])
  }

  lemma {:induction false} RetreatsPrefix(rank: seq<nat>, p: seq<nat>, i: nat)
    requires i < |p|
    ensures Retreats(rank, p[..i + 1]) <= Retreats(rank, p)
    decreases |p|
  {
    if i + 1 == |p| {
      assert p[..i + 1] == p;
    } else {
      RetreatsPrefix(rank, p[..|p| - 1], i);
      assert p[..|p| - 1][..i + 1] == p[..i + 1];
    }
  }

  lemma {:induction false} RetreatsBound(rank: seq<nat>, p: seq<nat>)
    requires |p| > 0
    ensures Retreats(rank, p) < |p|
    decreases |p|
  {
    if |p| > 1 { RetreatsBound(rank, p[..|p| - 1]); }
  }

  ghost predicate Covered(idom: Table, rank: seq<nat>, b: nat, p: seq<nat>)
    requires Tree(idom, rank) && Known(idom, b)
  {
    forall c | c in Chain(idom, rank, b) :: c in p
  }

  /** Chains lie on all paths with fewer than `k` retreating edges; for the blocks before place `i`,
      which the current pass has already treated, one more such edge is allowed. */
  ghost predicate CoveredUpTo(g: Graph, idom: Table, rank: seq<nat>, k: nat, i: nat)
    requires Tree(idom, rank)
  {
    forall b: nat, p | Known(idom, b) && PathTo(g, p, b)
                       && Retreats(rank, p) < (if rank[b] < i then k + 1 else k) :: Covered(idom, rank, b, p)
  }

  /** The new chain of the block just treated. */
  lemma CoverTreated(g: Graph, order: seq<nat>, rank: seq<nat>, idom: Table, k: nat, i: nat, t: nat, p: seq<nat>)
    requires Numbered(g, order, rank) && TableOk(g, idom, rank)
    requires 0 < i < |order| && IsMeet(g, idom, rank, order[i], t)
    requires forall j | 0 <= j < i :: Known(idom, order[j])
    requires k > 0 ==> AllKnown(g, idom)
    requires CoveredUpTo(g, idom, rank, k, i)
    requires PathTo(g, p, order[i]) && Retreats(rank, p) <= k
    requires Tree(idom[order[i] := Some(t)], rank)
    ensures Covered(idom[order[i] := Some(t)], rank, order[i], p)
  {
    var b := order[i];
    var idom' := idom[b := Some(t)];
    MeetIsEarlier(g, order, rank, idom, i, t);
    var u := p[|p| - 2];
    var q := p[..|p| - 1];
    PathPrefix(g, p, b, |p| - 2);
    assert Edge(g, p[|p| - 2], p[|p| - 2 + 1]);
    assert Reachable(g, u);
    assert u in order;
    assert Known(idom, u);
    assert Covered(idom, rank, u, q);
    forall c | c in Chain(idom', rank, b) ensures c in p {
      if c != b {
        if b in Chain(idom, rank, t) { ChainMember(idom, rank, t, b); }
        ChainUnaffected(idom, rank, b, t, t);
        assert OnAllChains(g, idom, rank, b, c);
        assert c in Chain(idom, rank, u);
      }
    }
  }

  /** Blocks whose chain runs through the block just treated stay covered. */
  lemma CoverOther(g: Graph, order: seq<nat>, rank: seq<nat>, idom: Table, k: nat, i: nat, t: nat, x: nat, p: seq<nat>)
    requires Numbered(g, order, rank) && TableOk(g, idom, rank)
    requires 0 < i < |order| && IsMeet(g, idom, rank, order[i], t)
    requires forall j | 0 <= j < i :: Known(idom, order[j])
    requires k > 0 ==> AllKnown(g, idom)
    requires CoveredUpTo(g, idom, rank, k, i)
    requires Tree(idom[order[i] := Some(t)], rank)
    requires Known(idom, x) && x != order[i] && PathTo(g, p, x)
    requires Retreats(rank, p) < (if rank[x] < i then k + 1 else k)
    ensures Covered(idom[order[i] := Some(t)], rank, x, p)
  {
    var b := order[i];
    var idom' := idom[b := Some(t)];
    MeetIsEarlier(g, order, rank, idom, i, t);
    assert Covered(idom, rank, x, p);
    if b in Chain(idom, rank, x) {
      ChainMember(idom, rank, x, b);
      var j :| 0 <= j < |p| && p[j] == b;
      PathPrefix(g, p, x, j);
      RetreatsPrefix(rank, p, j);
      CoverTreated(g, order, rank, idom, k, i, t, p[..j + 1]);
      forall c | c in Chain(idom', rank, x) ensures c in p {
        ChainRedirected(idom, rank, b, t, x, c);
      }
    } else {
      ChainUnaffected(idom, rank, b, t, x);
    }
  }

  lemma CoverStep(g: Graph, order: seq<nat>, rank: seq<nat>, idom: Table, k: nat, i: nat, t: nat)
    requires Numbered(g, order, rank) && TableOk(g, idom, rank)
    requires 0 < i < |order| && IsMeet(g, idom, rank, order[i], t)
    requires forall j | 0 <= j < i :: Known(idom, order[j])
    requires k > 0 ==> AllKnown(g, idom)
    requires CoveredUpTo(g, idom, rank, k, i)
    requires TableOk(g, idom[order[i] := Some(t)], rank)
    ensures CoveredUpTo(g, idom[order[i] := Some(t)], rank, k, i + 1)
  {
    var b := order[i];
    var idom' := idom[b := Some(t)];
    forall x: nat, p | Known(idom', x) && PathTo(g, p, x)
                       && Retreats(rank, p) < (if rank[x] < i + 1 then k + 1 else k)
      ensures Covered(idom', rank, x, p)
    {
      if x == b {
        CoverTreated(g, order, rank, idom, k, i, t, p);
      } else {
        assert Known(idom', b) && rank[b] == i;
        CoverOther(g, order, rank, idom, k, i, t, x, p);
      }
    }
  }

  // ---------- When the table is exact ----------

  /** Chains contain dominators only. */
  ghost predicate Exact(g: Graph, idom: Table, rank: seq<nat>)
    requires Tree(idom, rank)
  {
    forall b: nat, c: nat | Known(idom, b) && c in Chain(idom, rank, b) :: Dominates(g, c, b)
  }

  /** As many passes as there are blocks reach every path without repetition, hence every path. */
  lemma ManyPassesExact(g: Graph, idom: Table, rank: seq<nat>, k: nat)
    requires TableOk(g, idom, rank) && k >= |g.succ| && CoveredUpTo(g, idom, rank, k, 0)
    ensures Exact(g, idom, rank)
  {
    forall b: nat, c: nat | Known(idom, b) && c in Chain(idom, rank, b) ensures Dominates(g, c, b) {
      forall p | PathTo(g, p, b) ensures c in p {
        var q := SimplePath(g, p, b);
        DistinctLength(q, |g.succ|);
        RetreatsBound(rank, q);
        assert Covered(idom, rank, b, q);
      }
    }
  }

  lemma ExactMeetInChain(g: Graph, idom: Table, rank: seq<nat>, b: nat, c: nat)
    requires TableOk(g, idom, rank) && AllKnown(g, idom) && Exact(g, idom, rank)
    requires Known(idom, b) && b != 0 && c != b && OnAllChains(g, idom, rank, b, c)
    ensures c in Chain(idom, rank, idom[b].value)
  {
    forall u: nat | Edge(g, u, b) && Reachable(g, u) ensures Dominates(g, c, u) {
      assert Known(idom, u);
    }
    DominatesFromPredecessors(g, c, b);
    ChainHasDominators(g, idom, rank, b, c);
  }

  lemma ExactChainInMeet(g: Graph, idom: Table, rank: seq<nat>, b: nat, c: nat)
    requires TableOk(g, idom, rank) && Exact(g, idom, rank)
    requires Known(idom, b) && b != 0 && c in Chain(idom, rank, idom[b].value)
    ensures OnAllChains(g, idom, rank, b, c)
  {
    ChainMember(idom, rank, idom[b].value, c);
    assert c in Chain(idom, rank, b);
    forall p: nat | Known(idom, p) && Edge(g, p, b) ensures c in Chain(idom, rank, p) {
      DominatesPredecessor(g, c, p, b);
      ChainHasDominators(g, idom, rank, p, c);
    }
  }

  /** An exact table is not changed by a further meet. */
  lemma ExactIsStable(g: Graph, idom: Table, rank: seq<nat>, b: nat, t: nat)
    requires TableOk(g, idom, rank) && AllKnown(g, idom) && Exact(g, idom, rank)
    requires Known(idom, b) && b != 0 && IsMeet(g, idom, rank, b, t) && rank[t] < rank[b]
    ensures idom[b] == Some(t)
  {
    var s := idom[b].value;
    forall c: nat | c in Chain(idom, rank, t) ensures c in Chain(idom, rank, s) {
      ChainMember(idom, rank, t, c);
      ExactMeetInChain(g, idom, rank, b, c);
    }
    forall c: nat | c in Chain(idom, rank, s) ensures c in Chain(idom, rank, t) {
      ExactChainInMeet(g, idom, rank, b, c);
    }
    assert Chain(idom, rank, s) == Chain(idom, rank, t);
    ChainInjective(idom, rank, s, t);
  }

  ghost predicate Settled(g: Graph, idom: Table, rank: seq<nat>, b: nat)
    requires Tree(idom, rank)
  {
    Known(idom, b) && IsMeet(g, idom, rank, b, idom[b].value)
  }

  /** A table in which every candidate is the meet of its predecessors is exact. */
  lemma {:induction false} SettledOnPath(g: Graph, idom: Table, rank: seq<nat>, b: nat, c: nat, p: seq<nat>)
    requires TableOk(g, idom, rank) && AllKnown(g, idom)
    requires forall x: nat | Known(idom, x) && x != 0 :: Settled(g, idom, rank, x)
    requires Known(idom, b) && c in Chain(idom, rank, b) && PathTo(g, p, b)
    ensures c in p
    decreases |p|
  {
    if |p| == 1 || c == b {
      assert p[|p| - 1] == b;
    } else {
      var u := p[|p| - 2];
      PathPrefix(g, p, b, |p| - 2);
      assert Edge(g, p[|p| - 2], p[|p| - 2 + 1]);
      assert Reachable(g, u);
      assert b != 0 && Settled(g, idom, rank, b);
      assert OnAllChains(g, idom, rank, b, c);
      SettledOnPath(g, idom, rank, u, c, p[..|p| - 1]);
    }
  }

  lemma SettledExact(g: Graph, idom: Table, rank: seq<nat>)
    requires TableOk(g, idom, rank) && AllKnown(g, idom)
    requires forall x: nat | Known(idom, x) && x != 0 :: Settled(g, idom, rank, x)
    ensures Exact(g, idom, rank)
  {
    forall b: nat, c: nat | Known(idom, b) && c in Chain(idom, rank, b) ensures Dominates(g, c, b) {
      forall p | PathTo(g, p, b) ensures c in p {
        SettledOnPath(g, idom, rank, b, c, p);
      }
    }
  }

  /** In an exact table the candidates are the immediate dominators. */
  lemma ExactImmediate(g: Graph, idom: Table, rank: seq<nat>, b: nat)
    requires TableOk(g, idom, rank) && Exact(g, idom, rank)
    requires Known(idom, b) && b != 0
    ensures IsImmediateDominator(g, idom[b].value, b)
  {
    var t := idom[b].value;
    assert t in Chain(idom, rank, t);
    assert t in Chain(idom, rank, b);
    forall d | StrictlyDominates(g, d, b) ensures Dominates(g, d, t) {
      assert PassesDominators(g, b, t);
    }
  }

  // ---------- The iteration ----------

  ghost predicate PredecessorTable(g: Graph, preds: seq<seq<nat>>) {
    |preds| == |g.succ| && forall b: nat | b < |preds| :: AscendingPredecessors(g, b, preds[b])
  }

  lemma CoverEntry(g: Graph, idom: Table, rank: seq<nat>, k: nat)
    requires TableOk(g, idom, rank) && CoveredUpTo(g, idom, rank, k, 0)
    ensures CoveredUpTo(g, idom, rank, k, 1)
  {
    forall b: nat, p | Known(idom, b) && PathTo(g, p, b)
                       && Retreats(rank, p) < (if rank[b] < 1 then k + 1 else k)
      ensures Covered(idom, rank, b, p)
    {
      if rank[b] == 0 {
        assert b == 0 && p[0] == 0;
      }
    }
  }

  lemma AllTreated(g: Graph, order: seq<nat>, rank: seq<nat>, idom: Table, k: nat)
    requires Numbered(g, order, rank) && TableOk(g, idom, rank)
    requires forall j | 0 <= j < |order| :: Known(idom, order[j])
    requires CoveredUpTo(g, idom, rank, k, |order|)
    ensures AllKnown(g, idom) && CoveredUpTo(g, idom, rank, k + 1, 0)
  {
    forall b: nat | Reachable(g, b) ensures Known(idom, b) {
      assert b in order;
    }
    forall b: nat, p | Known(idom, b) && PathTo(g, p, b) && Retreats(rank, p) < k + 1
      ensures Covered(idom, rank, b, p)
    {
      assert Reachable(g, b);
      assert b in order;
    }
  }

  lemma KnownPredecessor(g: Graph, order: seq<nat>, idom: Table, preds: seq<seq<nat>>, i: nat)
    requires Valid(g) && IsReversePostorder(g, order) && PredecessorTable(g, preds) && |idom| == |g.succ|
    requires 0 < i < |order| && order[i] < |preds|
    requires forall j | 0 <= j < i :: Known(idom, order[j])
    ensures exists j :: 0 <= j < |preds[order[i]]| && Known(idom, preds[order[i]][j])
    ensures forall j | 0 <= j < |preds[order[i]]| :: preds[order[i]][j] < |idom|
  {
    var b := order[i];
    assert AscendingPredecessors(g, b, preds[b]);
    assert HasEarlierPredecessor(g, order, i);
    var j :| 0 <= j < i && Edge(g, order[j], order[i]);
    assert order[j] in preds[b];
    forall m | 0 <= m < |preds[b]| ensures preds[b][m] < |idom| {
      assert preds[b][m] in preds[b];
    }
  }

  /** The state of pass `k + 1` when it has treated the blocks before place `i`. */
  ghost predicate PassOk(g: Graph, order: seq<nat>, rank: seq<nat>, idom: Table, k: nat, i: nat) {
    && TableOk(g, idom, rank) && CoveredUpTo(g, idom, rank, k, i)
    && i <= |order| && (forall j | 0 <= j < i :: Known(idom, order[j]))
    && (k > 0 ==> AllKnown(g, idom))
  }

  lemma PassStep(g: Graph, order: seq<nat>, rank: seq<nat>, idom: Table, k: nat, i: nat, t: nat)
    requires Numbered(g, order, rank) && PassOk(g, order, rank, idom, k, i)
    requires 0 < i < |order| && IsMeet(g, idom, rank, order[i], t)
    ensures PassOk(g, order, rank, idom[order[i] := Some(t)], k, i + 1)
  {
    UpdateTable(g, order, rank, idom, i, t);
    CoverStep(g, order, rank, idom, k, i, t);
    StaysKnown(g, idom, order[i], t);
  }

  lemma StaysKnown(g: Graph, idom: Table, b: nat, t: nat)
    requires b < |idom|
    ensures AllKnown(g, idom) ==> AllKnown(g, idom[b := Some(t)])
  {
    assert forall x: nat | Known(idom, x) :: Known(idom[b := Some(t)], x);
  }

  lemma PassStable(g: Graph, order: seq<nat>, rank: seq<nat>, idom: Table, k: nat, i: nat, t: nat)
    requires Numbered(g, order, rank) && PassOk(g, order, rank, idom, k, i)
    requires 0 < i < |order| && IsMeet(g, idom, rank, order[i], t)
    requires k > 0 && Exact(g, idom, rank)
    ensures idom[order[i]] == Some(t)
  {
    assert order[i] in order;
    MeetIsEarlier(g, order, rank, idom, i, t);
    ExactIsStable(g, idom, rank, order[i], t);
  }

  ghost predicate SettledBefore(g: Graph, order: seq<nat>, rank: seq<nat>, idom: Table, i: nat)
    requires Tree(idom, rank) && i <= |order|
  {
    forall j | 0 < j < i :: Settled(g, idom, rank, order[j])
  }

  lemma SettledNext(g: Graph, order: seq<nat>, rank: seq<nat>, idom: Table, i: nat, t: nat)
    requires Tree(idom, rank) && 0 < i < |order| && SettledBefore(g, order, rank, idom, i)
    requires order[i] < |idom| && idom[order[i]] == Some(t) && IsMeet(g, idom, rank, order[i], t)
    ensures SettledBefore(g, order, rank, idom, i + 1)
  {
  }

  lemma PassUnchanged(g: Graph, order: seq<nat>, rank: seq<nat>, idom: Table)
    requires Numbered(g, order, rank) && TableOk(g, idom, rank) && AllKnown(g, idom)
    requires SettledBefore(g, order, rank, idom, |order|)
    ensures Exact(g, idom, rank)
  {
    forall x: nat | Known(idom, x) && x != 0 ensures Settled(g, idom, rank, x) {
      assert Reachable(g, x);
      assert x in order;
    }
    SettledExact(g, idom, rank);
  }

  lemma SameEntry(idom: Table, b: nat, t: nat)
    requires b < |idom| && idom[b] == Some(t)
    ensures idom[b := Some(t)] == idom
  {
  }

  /** The new candidate of the `i`-th block. */
  method Treat(g: Graph, preds: seq<seq<nat>>, order: seq<nat>, rank: seq<nat>, idom: Table, i: nat, ghost k: nat)
    returns (next: nat)
    requires Numbered(g, order, rank) && PredecessorTable(g, preds)
    requires 0 < i < |order| && PassOk(g, order, rank, idom, k, i)
    ensures IsMeet(g, idom, rank, order[i], next)
    ensures PassOk(g, order, rank, idom[order[i] := Some(next)], k, i + 1)
    ensures k > 0 && Exact(g, idom, rank) ==> idom[order[i]] == Some(next)
  {
    var block := order[i];
    KnownPredecessor(g, order, idom, preds, i);
    assert AscendingPredecessors(g, block, preds[block]);
    next := MeetPredecessors(g, idom, rank, block, preds[block]);
    PassStep(g, order, rank, idom, k, i, next);
    if k > 0 && Exact(g, idom, rank) { PassStable(g, order, rank, idom, k, i, next); }
  }

  /** One pass over the blocks in reverse postorder. */
  method Pass(g: Graph, preds: seq<seq<nat>>, order: seq<nat>, rank: seq<nat>, idom0: Table, ghost k: nat)
    returns (idom: Table, changed: bool)
    requires Numbered(g, order, rank) && PredecessorTable(g, preds)
    requires PassOk(g, order, rank, idom0, k, 0)
    ensures PassOk(g, order, rank, idom, k + 1, 0)
    ensures !changed ==> Exact(g, idom, rank)
    ensures k > 0 && Exact(g, idom0, rank) ==> !changed
  {
    idom, changed := idom0, false;
    CoverEntry(g, idom0, rank, k);
    var i := 1;
    while i < |order|
      invariant 1 <= i <= |order|
      invariant PassOk(g, order, rank, idom, k, i)
      invariant !changed ==> idom == idom0 && SettledBefore(g, order, rank, idom, i)
      invariant k > 0 && Exact(g, idom0, rank) ==> !changed
    {
      var block := order[i];
      var next := Treat(g, preds, order, rank, idom, i, k);
      if idom[block] != Some(next) {
        idom := idom[block := Some(next)];
        changed := true;
      } else {
        SameEntry(idom, block, next);
        if !changed { SettledNext(g, order, rank, idom, i, next); }
      }
      i := i + 1;
    }
    AllTreated(g, order, rank, idom, k);
    if !changed { PassUnchanged(g, order, rank, idom); }
  }

  ghost predicate ImmediateDominatorTable(g: Graph, idom: Table) {
    && |idom| == |g.succ|
    && (forall b: nat | b < |idom| && (b == 0 || !Reachable(g, b)) :: idom[b] == None)
    && (forall b: nat | b < |idom| && b != 0 && Reachable(g, b) ::
          idom[b].Some? && IsImmediateDominator(g, idom[b].value, b))
  }

  lemma StartTable(g: Graph, order: seq<nat>, rank: seq<nat>, idom: Table)
    requires Numbered(g, order, rank) && |idom| == |g.succ|
    requires forall b | 0 <= b < |idom| :: idom[b] == if b == 0 then Some(0) else None
    ensures PassOk(g, order, rank, idom, 0, 0)
  {
    assert order[0] == 0;
    EntryPath(g);
    assert forall b: nat | Known(idom, b) :: b == 0;
  }

  lemma FinishTable(g: Graph, idom: Table, rank: seq<nat>)
    requires TableOk(g, idom, rank) && AllKnown(g, idom) && Exact(g, idom, rank)
    ensures ImmediateDominatorTable(g, idom[0 := None])
  {
    forall b: nat | b < |idom| && b != 0 && Reachable(g, b)
      ensures idom[b].Some? && IsImmediateDominator(g, idom[b].value, b)
    {
      assert Known(idom, b);
      ExactImmediate(g, idom, rank, b);
    }
    forall b: nat | b < |idom| && b != 0 && !Reachable(g, b) ensures idom[b] == None {
      assert !Known(idom, b);
    }
  }

  /** The table is exact when the passes stop, and they stop after at most one pass more than
      there are blocks. */
  method ImmediateDominators(g: Graph, preds: seq<seq<nat>>, order: seq<nat>, rank: seq<nat>)
    returns (idom: Table, ghost passes: nat)
    requires Numbered(g, order, rank) && PredecessorTable(g, preds)
    ensures ImmediateDominatorTable(g, idom)
    ensures passes <= |g.succ| + 1
  {
    idom := seq(|g.succ|, b => if b == 0 then Some(0) else None);
    StartTable(g, order, rank, idom);
    passes := 0;
    var changed := true;
    while changed
      invariant PassOk(g, order, rank, idom, passes, 0)
      invariant if changed then passes <= |g.succ| else passes <= |g.succ| + 1
      invariant !changed ==> passes > 0 && Exact(g, idom, rank)
      decreases |g.succ| + 1 - passes
    {
      if passes >= |g.succ| { ManyPassesExact(g, idom, rank, passes); }
      idom, changed := Pass(g, preds, order, rank, idom, passes);
      passes := passes + 1;
    }
    FinishTable(g, idom, rank);
    idom := idom[0 := None];
  }
}
