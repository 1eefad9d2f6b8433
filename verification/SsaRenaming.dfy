/** What the plan means: reading a local through the dominator tree gives its last stored value. */
module SsaRenaming {
  import opened Options
  import opened ControlFlow
  import opened Dominators
  import opened DominanceFrontier
  import opened PhiPlacement
  import opened SsaBuilder
  import opened BlockOrder

  /** The names a local has in SSA form: its value at the start, the one a block stores, and the one a phi
      joins. */
  datatype Name = Initial | Def(block: nat) | Phi(block: nat)

  /** Parameters have their value before the entry runs, so the entry does not store them again. */
  ghost predicate Stores(r: Region, local: nat, b: nat) {
    b < |r.defs| && local in r.defs[b]
  }

  ghost predicate Ready(r: Region, plan: SsaPlan) {
    ValidRegion(r) && ImmediateDominatorTable(r.graph, plan.idom)
  }

  // ---------- Renaming and reaching ----------

  /** The name at the start of a block: its phi, else the name that leaves its immediate dominator. */
  ghost function Renamed(r: Region, plan: SsaPlan, local: nat, b: nat): Name
    requires Ready(r, plan) && Reachable(r.graph, b)
    decreases DominatorSet(r.graph, b), 0
  {
    if HasPhi(plan, b, local) then Phi(b)
    else if b >= |plan.idom| || plan.idom[b].None? then Initial
    else
      TableStep(r.graph, plan.idom, b);
      ImmediateShrinks(r.graph, plan.idom[b].value, b);
      RenamedOut(r, plan, local, plan.idom[b].value)
  }

  /** The name at the end of a block. */
  ghost function RenamedOut(r: Region, plan: SsaPlan, local: nat, b: nat): Name
    requires Ready(r, plan) && Reachable(r.graph, b)
    decreases DominatorSet(r.graph, b), 1
  {
    if Stores(r, local, b) then Def(b) else Renamed(r, plan, local, b)
  }

  /** The last definition or phi on a path, at the start of its last block. */
  ghost function Reaching(r: Region, plan: SsaPlan, local: nat, p: seq<nat>): Name
    requires p != []
    decreases |p|, 0
  {
    if HasPhi(plan, p[|p| - 1], local) then Phi(p[|p| - 1])
    else if |p| == 1 then Initial
    else ReachingOut(r, plan, local, p[..|p| - 1])
  }

  ghost function ReachingOut(r: Region, plan: SsaPlan, local: nat, p: seq<nat>): Name
    requires p != []
    decreases |p|, 1
  {
    if Stores(r, local, p[|p| - 1]) then Def(p[|p| - 1]) else Reaching(r, plan, local, p)
  }

  /** A stretch of path without definitions and phis hands on what leaves its first block. */
  lemma {:induction false} ReachesAcross(r: Region, plan: SsaPlan, local: nat, p: seq<nat>, j: nat)
    requires j < |p| - 1 && !HasPhi(plan, p[|p| - 1], local)
    requires forall i | j < i < |p| - 1 :: !Stores(r, local, p[i]) && !HasPhi(plan, p[i], local)
    ensures Reaching(r, plan, local, p) == ReachingOut(r, plan, local, p[..j + 1])
    decreases |p|
  {
    var q := p[..|p| - 1];
    if j < |p| - 2 {
      assert forall i | 0 <= i < |q| :: q[i] == p[i];
      ReachesAcross(r, plan, local, q, j);
      assert q[..j + 1] == p[..j + 1];
    } else {
      assert q == p[..j + 1];
    }
  }

  // ---------- The entry ----------

  /** The condition on the graph: the entry is a join, or control never comes back to it. */
  ghost predicate EntryJoins(g: Graph) {
    TwoPredecessors(g, 0) || forall u: nat | Edge(g, u, 0) :: !Reachable(g, u)
  }

  /** Where the entry is a join and has no phi, nothing is defined on the way back to it. */
  lemma {:induction false} NoDefinitionBeforeEntry(r: Region, eligible: set<nat>, plan: SsaPlan, local: nat,
                                                   p: seq<nat>, i: nat)
    requires ValidRegion(r) && IsPlan(r, eligible, plan) && local in eligible
    requires PathTo(r.graph, p, 0) && TwoPredecessors(r.graph, 0) && !HasPhi(plan, 0, local)
    requires i < |p| - 1
    ensures !Stores(r, local, p[i]) && !HasPhi(plan, p[i], local)
    decreases |p| - i
  {
    if Stores(r, local, p[i]) || HasPhi(plan, p[i], local) {
      var j := ReturnForcesPhi(r, eligible, plan, local, p, i);
      if j < |p| - 1 { NoDefinitionBeforeEntry(r, eligible, plan, local, p, j); }
      assert false;
    }
  }

  /** A definition or phi on the way back to an entry that is a join forces a phi later on the way. */
  lemma {:induction false} ReturnForcesPhi(r: Region, eligible: set<nat>, plan: SsaPlan, local: nat, p: seq<nat>, i: nat)
    returns (j: nat)
    requires ValidRegion(r) && IsPlan(r, eligible, plan) && local in eligible
    requires PathTo(r.graph, p, 0) && TwoPredecessors(r.graph, 0) && i < |p| - 1
    requires Stores(r, local, p[i]) || HasPhi(plan, p[i], local)
    ensures i < j < |p| && HasPhi(plan, p[j], local)
  {
    var g := r.graph;
    j := ReturnCrosses(g, p, i);
    hide InFrontier, IsPlan, TwoPredecessors, Marked;
    MarksAreFrontier(g, p[i], p[j]);
    PhiOnFrontier(r, eligible, plan, local, p[i], p[j]);
  }

  lemma ReturnCrosses(g: Graph, p: seq<nat>, i: nat) returns (j: nat)
    requires Valid(g) && PathTo(g, p, 0) && i < |p| - 1
    ensures i < j < |p| && Reachable(g, p[i]) && InFrontier(g, p[i], p[j])
  {
    PathPrefix(g, p, 0, i);
    if StrictlyDominates(g, p[i], 0) { OnlyEntryDominatesEntry(g, p[i]); }
    j := CrossesFrontier(g, p, i);
  }

  lemma EntryRenamed(r: Region, eligible: set<nat>, plan: SsaPlan, local: nat, p: seq<nat>)
    requires ValidRegion(r) && IsPlan(r, eligible, plan) && local in eligible && EntryJoins(r.graph)
    requires PathTo(r.graph, p, 0) && !HasPhi(plan, 0, local)
    ensures Reaching(r, plan, local, p) == Initial
  {
    var g := r.graph;
    if |p| > 1 {
      PathPrefix(g, p, 0, |p| - 2);
      assert Edge(g, p[|p| - 2], p[|p| - 2 + 1]);
      forall i | 0 <= i < |p| - 1 ensures !Stores(r, local, p[i]) && !HasPhi(plan, p[i], local) {
        NoDefinitionBeforeEntry(r, eligible, plan, local, p, i);
      }
      ReachesAcross(r, plan, local, p, 0);
      assert p[..1] == [0];
    }
  }

  // ---------- Renaming is right ----------

  /** Where the entry is a join or never returned to, the last definition or phi on every path to a block is
      the name that climbing the dominator tree gives. */
  lemma {:induction false} ReachingIsRenamed(r: Region, eligible: set<nat>, plan: SsaPlan, local: nat,
                                             b: nat, p: seq<nat>)
    requires ValidRegion(r) && IsPlan(r, eligible, plan) && local in eligible && EntryJoins(r.graph)
    requires PathTo(r.graph, p, b)
    ensures Reachable(r.graph, b) && Reaching(r, plan, local, p) == Renamed(r, plan, local, b)
    decreases |p|
  {
    if !HasPhi(plan, b, local) {
      if b == 0 {
        EntryRenamed(r, eligible, plan, local, p);
        if b < |plan.idom| && plan.idom[b].Some? { TableStep(r.graph, plan.idom, b); }
      } else {
        var j := DefinitionReachesThroughDominator(r, eligible, plan, local, b, p);
        ReachesAcross(r, plan, local, p, j);
        PathPrefix(r.graph, p, b, j);
        ReachingIsRenamed(r, eligible, plan, local, p[j], p[..j + 1]);
      }
    }
  }

  // ---------- Meaning ----------

  /** The last store on a path before its last block; `None` is the value at the start. */
  ghost function LastStore(r: Region, local: nat, p: seq<nat>): Option<nat>
    requires p != []
    decreases |p|
  {
    if |p| == 1 then None
    else if Stores(r, local, p[|p| - 2]) then Some(|p| - 2)
    else LastStore(r, local, p[..|p| - 1])
  }

  /** What the name `n` holds when the renamed program has run along `p` and evaluated the phi of its last
      block: a block that stores the local sets its own name, and a phi takes over the name that leaves the
      block control comes from. */
  ghost function Held(r: Region, plan: SsaPlan, local: nat, p: seq<nat>, n: Name): Option<nat>
    requires Ready(r, plan) && p != [] && PathTo(r.graph, p, p[|p| - 1])
    decreases |p|, 1
  {
    var b := p[|p| - 1];
    if n == Phi(b) && HasPhi(plan, b, local) then
      if |p| == 1 then None
      else
        PathPrefix(r.graph, p, b, |p| - 2);
        HeldOut(r, plan, local, p, RenamedOut(r, plan, local, p[|p| - 2]))
    else HeldOut(r, plan, local, p, n)
  }

  /** What `n` holds when control leaves the block before the last of `p`. */
  ghost function HeldOut(r: Region, plan: SsaPlan, local: nat, p: seq<nat>, n: Name): Option<nat>
    requires Ready(r, plan) && p != [] && PathTo(r.graph, p, p[|p| - 1])
    decreases |p|, 0
  {
    if |p| == 1 then None
    else
      PathPrefix(r.graph, p, p[|p| - 1], |p| - 2);
      if n == Def(p[|p| - 2]) && Stores(r, local, p[|p| - 2]) then Some(|p| - 2)
      else Held(r, plan, local, p[..|p| - 1], n)
  }

  /** Renaming along the dominator tree keeps the meaning of the program: along every execution path the
      name a block reads holds the last value stored. */
  lemma {:induction false} RenamingKeepsMeaning(r: Region, eligible: set<nat>, plan: SsaPlan, local: nat,
                                                b: nat, p: seq<nat>)
    requires ValidRegion(r) && IsPlan(r, eligible, plan) && local in eligible && EntryJoins(r.graph)
    requires PathTo(r.graph, p, b)
    ensures Reachable(r.graph, b)
    ensures Held(r, plan, local, p, Renamed(r, plan, local, b)) == LastStore(r, local, p)
    decreases |p|
  {
    ReachingIsRenamed(r, eligible, plan, local, b, p);
    if |p| > 1 {
      var q := p[..|p| - 1];
      PathPrefix(r.graph, p, b, |p| - 2);
      RenamingKeepsMeaning(r, eligible, plan, local, p[|p| - 2], q);
      ReachingIsRenamed(r, eligible, plan, local, p[|p| - 2], q);
    }
  }

  // ---------- The exception ----------

  /** A region in which only `u` stores the local. */
  function StoredIn(g: Graph, u: nat): Region {
    Region(g, [], seq(|g.succ|, b => if b == u then [0] else []), 1)
  }

  /** Every graph whose entry has a single predecessor, and a reachable one, admits a region that renaming
      gets wrong: after a turn through that predecessor the entry reads the value at the start. */
  lemma LoopedEntryMisread(g: Graph, u: nat, plan: SsaPlan, p: seq<nat>)
    requires Valid(g) && Edge(g, u, 0) && PathTo(g, p, u) && !TwoPredecessors(g, 0)
    requires IsPlan(StoredIn(g, u), {0}, plan)
    ensures PathTo(g, p + [0], 0)
    ensures Held(StoredIn(g, u), plan, 0, p + [0], Renamed(StoredIn(g, u), plan, 0, 0)) == None
    ensures LastStore(StoredIn(g, u), 0, p + [0]) == Some(|p| - 1)
  {
    var r, q := StoredIn(g, u), p + [0];
    ExtendPath(g, p, u, 0);
    if HasPhi(plan, 0, 0) { PhiNeedsPredecessors(r, {0}, plan, 0, 0); }
    if plan.idom[0].Some? { TableStep(g, plan.idom, 0); }
    InitialIsHeld(r, plan, 0, q);
  }

  lemma {:induction false} InitialIsHeld(r: Region, plan: SsaPlan, local: nat, p: seq<nat>)
    requires Ready(r, plan) && p != [] && PathTo(r.graph, p, p[|p| - 1])
    ensures Held(r, plan, local, p, Initial) == None
    decreases |p|
  {
    if |p| > 1 {
      PathPrefix(r.graph, p, p[|p| - 1], |p| - 2);
      InitialIsHeld(r, plan, local, p[..|p| - 1]);
    }
  }

  /** Renaming is right for all regions over a graph. */
  ghost predicate Renames(g: Graph) {
    forall r: Region, eligible: set<nat>, plan: SsaPlan, local: nat, p: seq<nat> |
      && r.graph == g && ValidRegion(r) && IsPlan(r, eligible, plan) && local in eligible
      && p != [] && PathTo(g, p, p[|p| - 1]) ::
      Held(r, plan, local, p, Renamed(r, plan, local, p[|p| - 1])) == LastStore(r, local, p)
  }

  /** The condition on the entry is exact, and can be read off the predecessors and the order of blocks. */
  method RenamesIff(g: Graph) returns (joins: bool)
    requires Valid(g)
    ensures joins <==> EntryJoins(g)
    ensures joins <==> Renames(g)
  {
    var preds := PredecessorLists(g);
    var order := ReversePostorder(g);
    assert AscendingPredecessors(g, 0, preds[0]);
    EntryPath(g);
    MarkedFromAll(g, 0, preds[0], 0);
    joins := |preds[0]| != 1 || preds[0][0] !in order;
    if joins {
      JoinedEntryRenames(g);
    } else {
      var u := preds[0][0];
      assert Edge(g, u, 0) && Reachable(g, u);
      var plan := BuildExecutableSsa(StoredIn(g, u), {0});
      LoopedEntryFails(g, u, plan);
    }
  }

  lemma JoinedEntryRenames(g: Graph)
    requires Valid(g) && EntryJoins(g)
    ensures Renames(g)
  {
    forall r: Region, eligible: set<nat>, plan: SsaPlan, local: nat, p: seq<nat> |
      && r.graph == g && ValidRegion(r) && IsPlan(r, eligible, plan) && local in eligible
      && p != [] && PathTo(g, p, p[|p| - 1])
      ensures Held(r, plan, local, p, Renamed(r, plan, local, p[|p| - 1])) == LastStore(r, local, p)
    {
      RenamingKeepsMeaning(r, eligible, plan, local, p[|p| - 1], p);
    }
  }

  lemma LoopedEntryFails(g: Graph, u: nat, plan: SsaPlan)
    requires Valid(g) && Edge(g, u, 0) && Reachable(g, u) && !TwoPredecessors(g, 0)
    requires IsPlan(StoredIn(g, u), {0}, plan)
    ensures !EntryJoins(g) && !Renames(g)
  {
    var p :| PathTo(g, p, u);
    LoopedEntryMisread(g, u, plan, p);
    var r, q := StoredIn(g, u), p + [0];
    assert ValidRegion(r) && 0 in {0} && PathTo(g, q, q[|q| - 1]);
    assert Held(r, plan, 0, q, Renamed(r, plan, 0, q[|q| - 1])) != LastStore(r, 0, q);
  }

  /** A loop through block 1, which stores the local, that leaves for block 2. */
  const LOOP: Region := Region(Graph([[1, 2], [0], []]), [], [[], [7], []], 8)

  /** The misread value also reaches blocks other than the entry. */
  lemma MisreadBeyondEntry(plan: SsaPlan)
    requires IsPlan(LOOP, {7}, plan)
    ensures ValidRegion(LOOP) && PathTo(LOOP.graph, [0, 1, 0, 2], 2)
    ensures Renamed(LOOP, plan, 7, 2) == Initial && Reaching(LOOP, plan, 7, [0, 1, 0, 2]) == Def(1)
    ensures Held(LOOP, plan, 7, [0, 1, 0, 2], Initial) == None && LastStore(LOOP, 7, [0, 1, 0, 2]) == Some(1)
  {
    var g, p := LOOP.graph, [0, 1, 0, 2];
    LoopPaths();
    NoPhiInLoop(plan);
    LoopDominator(plan);
    assert p[..3] == [0, 1, 0] && [0, 1, 0][..2] == [0, 1];
    assert LOOP.defs[1] == [7] && LOOP.defs[1][0] == 7;
    assert ReachingOut(LOOP, plan, 7, [0, 1]) == Def(1);
    assert Reaching(LOOP, plan, 7, [0, 1, 0]) == Def(1);
    InitialIsHeld(LOOP, plan, 7, p);
  }

  lemma LoopPaths()
    ensures ValidRegion(LOOP) && PathTo(LOOP.graph, [0, 2], 2) && PathTo(LOOP.graph, [0, 1, 0, 2], 2)
  {
    var g := LOOP.graph;
    assert g.succ[0] == [1, 2] && g.succ[1] == [0] && g.succ[2] == [];
    assert g.succ[0][0] == 1 && g.succ[0][1] == 2 && g.succ[1][0] == 0;
    assert Edge(g, 0, 1) && Edge(g, 1, 0) && Edge(g, 0, 2);
  }

  lemma NoPhiInLoop(plan: SsaPlan)
    requires IsPlan(LOOP, {7}, plan)
    ensures forall b: nat :: !HasPhi(plan, b, 7)
  {
    LoopPaths();
    forall b: nat ensures !HasPhi(plan, b, 7) {
      if HasPhi(plan, b, 7) {
        PhiNeedsPredecessors(LOOP, {7}, plan, 7, b);
        OnePredecessorEach(b);
      }
    }
  }

  lemma OnePredecessorEach(b: nat)
    ensures !TwoPredecessors(LOOP.graph, b)
  {
    var g := LOOP.graph;
    assert g.succ[0] == [1, 2] && g.succ[1] == [0] && g.succ[2] == [];
    forall u: nat | Edge(g, u, b) ensures u == if b == 0 then 1 else 0 {
    }
  }

  lemma LoopDominator(plan: SsaPlan)
    requires IsPlan(LOOP, {7}, plan)
    ensures |plan.idom| == 3 && plan.idom[2] == Some(0) && plan.idom[0].None?
  {
    LoopPaths();
    assert Reachable(LOOP.graph, 2);
    TableStep(LOOP.graph, plan.idom, 2);
    assert plan.idom[2].value in [0, 2];
  }
}
