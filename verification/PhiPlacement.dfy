/** The executable SSA plan: local phis on iterated dominance frontiers, and what a missing phi means. */
module PhiPlacement {
  import opened Options
  import opened ControlFlow
  import opened DominatorTree
  import opened Dominators
  import opened DominanceFrontier

  // ---------- Iterated frontiers ----------

  /** `phis` holds the frontier of every definition and of every phi. */
  ghost predicate ClosedUnderFrontier(frontiers: Frontiers, definitions: set<nat>, phis: set<nat>) {
    forall d | d in definitions + phis && 0 <= d < |frontiers| :: frontiers[d] <= phis
  }

  /** The iterated dominance frontier: the least such set. */
  ghost predicate IsIteratedFrontier(frontiers: Frontiers, definitions: set<nat>, phis: set<nat>) {
    && ClosedUnderFrontier(frontiers, definitions, phis)
    && forall other: set<nat> | ClosedUnderFrontier(frontiers, definitions, other) :: phis <= other
  }

  lemma IteratedFrontierUnique(frontiers: Frontiers, definitions: set<nat>, a: set<nat>, b: set<nat>)
    requires IsIteratedFrontier(frontiers, definitions, a) && IsIteratedFrontier(frontiers, definitions, b)
    ensures a == b
  {
  }

  /** Lists a set of blocks in ascending order. */
  method Ascending(s: set<nat>) returns (r: seq<nat>)
    ensures forall x :: x in r <==> x in s
    ensures forall i, j | 0 <= i < j < |r| :: r[i] < r[j]
  {
    r := [];
    var rest := s;
    while rest != {}
      invariant rest <= s
      invariant forall x :: x in r <==> x in s - rest
      invariant forall i, j | 0 <= i < j < |r| :: r[i] < r[j]
      invariant forall i, x | 0 <= i < |r| && x in rest :: r[i] < x
      decreases |rest|
    {
      var least := Least(rest);
      rest := rest - {least};
      r := r + [least];
    }
  }

  method Least(s: set<nat>) returns (least: nat)
    requires s != {}
    ensures least in s && forall x | x in s :: least <= x
  {
    least :| least in s;
    var rest := s - {least};
    while rest != {}
      invariant rest <= s && least in s
      invariant forall x | x in s && x !in rest :: least <= x
      decreases |rest|
    {
      var x :| x in rest;
      rest := rest - {x};
      if x < least { least := x; }
    }
  }

  /** The blocks still to be expanded, and those already expanded, account for every definition and phi. */
  ghost predicate WorkOk(frontiers: Frontiers, definitions: set<nat>, visited: set<nat>, work: seq<nat>, phis: set<nat>) {
    && visited == definitions + phis
    && (forall d | d in work :: d in visited)
    && (forall b | b in visited :: b < |frontiers|)
    && (forall d | d in visited && d !in work :: d < |frontiers| && frontiers[d] <= phis)
    && (forall other: set<nat> | ClosedUnderFrontier(frontiers, definitions, other) :: phis <= other)
  }

  /** Expands one block: places a phi at each block of its frontier and queues the new ones. */
  method Expand(frontiers: Frontiers, definitions: set<nat>, definition: nat,
                visited0: set<nat>, work0: seq<nat>, phis0: set<nat>)
    returns (visited: set<nat>, work: seq<nat>, phis: set<nat>)
    requires definition in visited0 && definition < |frontiers| && forall x | x in frontiers[definition] :: x < |frontiers|
    requires WorkOk(frontiers, definitions, visited0, [definition] + work0, phis0)
    ensures WorkOk(frontiers, definitions, visited, work, phis)
    ensures |visited| + |work0| == |visited0| + |work| && |work0| <= |work|
    ensures visited0 <= visited && forall b | b in visited :: b < |frontiers|
  {
    visited, work, phis := visited0, work0, phis0;
    var targets := Ascending(frontiers[definition]);
    var i := 0;
    while i < |targets|
      invariant i <= |targets|
      invariant visited == definitions + phis && visited0 <= visited
      invariant forall d | d in work :: d in visited
      invariant forall b | b in visited :: b < |frontiers|
      invariant forall d | d in visited && d !in work && d != definition :: d < |frontiers| && frontiers[d] <= phis
      invariant forall other: set<nat> | ClosedUnderFrontier(frontiers, definitions, other) :: phis <= other
      invariant forall j | 0 <= j < i :: targets[j] in phis
      invariant |visited| + |work0| == |visited0| + |work| && |work0| <= |work|
    {
      var frontier := targets[i];
      assert frontier in frontiers[definition];
      if frontier !in phis {
        phis := phis + {frontier};
        if frontier !in visited {
          visited := visited + {frontier};
          work := work + [frontier];
        }
      }
      i := i + 1;
    }
    assert frontiers[definition] <= phis by {
      forall x | x in frontiers[definition] ensures x in phis {
        assert x in targets;
      }
    }
  }

  lemma WorkStart(frontiers: Frontiers, definitions: set<nat>, work: seq<nat>)
    requires forall d | d in definitions :: d < |frontiers|
    requires forall x :: x in work <==> x in definitions
    ensures WorkOk(frontiers, definitions, definitions, work, {})
  {
  }

  lemma WorkDone(frontiers: Frontiers, definitions: set<nat>, visited: set<nat>, phis: set<nat>)
    requires WorkOk(frontiers, definitions, visited, [], phis)
    ensures IsIteratedFrontier(frontiers, definitions, phis)
  {
  }

  lemma WorkBound(frontiers: Frontiers, definitions: set<nat>, visited: set<nat>, work: seq<nat>, phis: set<nat>)
    requires WorkOk(frontiers, definitions, visited, work, phis)
    ensures |visited| <= |frontiers|
  {
    SubsetSize(visited, Range(|frontiers|));
  }

  lemma WorkHead(frontiers: Frontiers, definitions: set<nat>, visited: set<nat>, work: seq<nat>, phis: set<nat>)
    requires WorkOk(frontiers, definitions, visited, work, phis) && |work| > 0
    ensures work[0] in visited && work[0] < |frontiers|
    ensures WorkOk(frontiers, definitions, visited, [work[0]] + work[1..], phis)
  {
    assert work == [work[0]] + work[1..];
    assert work[0] in work;
  }

  /** Phi blocks of one local, by a work list over the frontiers of its definitions. */
  method PlacePhis(frontiers: Frontiers, definitions: set<nat>) returns (phis: set<nat>)
    requires forall d | d in definitions :: d < |frontiers|
    requires forall b, x | 0 <= b < |frontiers| && x in frontiers[b] :: x < |frontiers|
    ensures IsIteratedFrontier(frontiers, definitions, phis)
  {
    var work := Ascending(definitions);
    var visited := definitions;
    phis := {};
    WorkStart(frontiers, definitions, work);
    while |work| > 0
      invariant WorkOk(frontiers, definitions, visited, work, phis)
      decreases |frontiers| - |visited|, |work|
    {
      var definition := work[0];
      WorkHead(frontiers, definitions, visited, work, phis);
      WorkBound(frontiers, definitions, visited, work, phis);
      visited, work, phis := Expand(frontiers, definitions, definition, visited, work[1..], phis);
      WorkBound(frontiers, definitions, visited, work, phis);
    }
    WorkDone(frontiers, definitions, visited, phis);
  }

  // ---------- The plan for a whole region ----------

  /** What the plan reads of a region: the graph, the locals of the parameters, and for each block
      the locals that its instructions store, assign or unset. */
  datatype Region = Region(graph: Graph, params: seq<nat>, defs: seq<seq<nat>>, localCount: nat)

  ghost predicate ValidRegion(r: Region) {
    Valid(r.graph) && |r.defs| == |r.graph.succ|
  }

  /** The blocks that define an eligible local. */
  ghost predicate DefinedIn(r: Region, local: nat, b: nat) {
    (b == 0 && local in r.params) || (b < |r.defs| && local in r.defs[b])
  }

  datatype SsaPlan = SsaPlan(
    predecessors: seq<seq<nat>>, reachable: set<nat>, idom: Table, frontiers: Frontiers,
    phis: map<nat, set<nat>>)  // block -> locals

  ghost predicate HasPhi(plan: SsaPlan, b: nat, local: nat) {
    b in plan.phis && local in plan.phis[b]
  }

  ghost predicate IsPhiSet(plan: SsaPlan, local: nat, phis: set<nat>) {
    forall b: nat :: b in phis <==> HasPhi(plan, b, local)
  }

  ghost predicate IsDefinitionSet(r: Region, local: nat, definitions: set<nat>) {
    forall b: nat :: b in definitions <==> DefinedIn(r, local, b)
  }

  ghost predicate PhisPlaced(r: Region, plan: SsaPlan, local: nat) {
    exists definitions: set<nat>, phis: set<nat> ::
      && IsDefinitionSet(r, local, definitions)
      && IsPhiSet(plan, local, phis)
      && IsIteratedFrontier(plan.frontiers, definitions, phis)
  }

  /** What the builder promises. */
  ghost predicate IsPlan(r: Region, eligible: set<nat>, plan: SsaPlan) {
    && PredecessorTable(r.graph, plan.predecessors)
    && IsReachableSet(r.graph, plan.reachable)
    && ImmediateDominatorTable(r.graph, plan.idom)
    && FrontierTable(r.graph, plan.frontiers)
    && (forall local | local in eligible :: PhisPlaced(r, plan, local))
    && (forall b: nat, local: nat | HasPhi(plan, b, local) :: local in eligible)
    && (forall b | b in plan.phis :: plan.phis[b] != {})
  }

  /** `q` leaves the immediate dominator `q[0]` of `b` for the last time and ends in `b`. */
  ghost predicate LastApproach(g: Graph, idom: Table, b: nat, q: seq<nat>) {
    && IsPath(g, q) && |q| > 1 && q[|q| - 1] == b
    && b < |idom| && idom[b] == Some(q[0])
    && forall j | 0 < j < |q| - 1 :: q[j] != q[0]
  }

  /** No block of the approach, taken after `q[0]`, strictly dominates `b`. */
  lemma ApproachNotDominating(g: Graph, idom: Table, b: nat, q: seq<nat>, i: nat)
    requires Valid(g) && ImmediateDominatorTable(g, idom) && LastApproach(g, idom, b, q) && 0 < i < |q| - 1
    ensures !StrictlyDominates(g, q[i], b)
  {
    var t, x := q[0], q[i];
    TableStep(g, idom, b);
    if StrictlyDominates(g, x, b) {
      StrictThroughImmediate(g, t, b, x);
      DominatorReachable(g, x, b);
      if Dominates(g, t, x) { DominatesAntisymmetric(g, t, x); }
      var p :| PathTo(g, p, x) && t !in p;
      SplicePath(g, p, q, i);
      assert false;
    }
  }

  lemma ApproachReachable(g: Graph, idom: Table, b: nat, q: seq<nat>, i: nat)
    requires Valid(g) && ImmediateDominatorTable(g, idom) && LastApproach(g, idom, b, q) && i < |q|
    ensures Reachable(g, q[i])
    decreases i
  {
    if i == 0 {
      TableStep(g, idom, b);
    } else {
      ApproachReachable(g, idom, b, q, i - 1);
      var p :| PathTo(g, p, q[i - 1]);
      assert Edge(g, q[i - 1], q[i - 1 + 1]);
      ExtendPath(g, p, q[i - 1], q[i]);
    }
  }

  lemma ApproachAvoidsEntry(g: Graph, idom: Table, b: nat, q: seq<nat>, i: nat)
    requires Valid(g) && ImmediateDominatorTable(g, idom) && LastApproach(g, idom, b, q) && 0 < i < |q|
    ensures q[i] != 0
  {
    TableStep(g, idom, b);
    if q[i] == 0 && i < |q| - 1 {
      EntryPath(g);
      SplicePath(g, [0], q, i);
      assert false;
    }
  }

  /** A path that ends where `q[i]` does not strictly dominate crosses the frontier of `q[i]`. */
  lemma CrossesFrontier(g: Graph, q: seq<nat>, i: nat) returns (j: nat)
    requires IsPath(g, q) && i < |q| - 1 && Reachable(g, q[i])
    requires !StrictlyDominates(g, q[i], q[|q| - 1])
    ensures i < j < |q| && InFrontier(g, q[i], q[j])
  {
    DominatesSelf(g, q[i]);
    j := i + 1;
    while StrictlyDominates(g, q[i], q[j])
      invariant i < j < |q|
      invariant Dominates(g, q[i], q[j - 1])
      decreases |q| - j
    {
      j := j + 1;
    }
    assert Edge(g, q[j - 1], q[j - 1 + 1]);
  }

  /** A definition or phi has a phi at every reachable block of its frontier. */
  lemma PhiOnFrontier(r: Region, eligible: set<nat>, plan: SsaPlan, local: nat, x: nat, y: nat)
    requires ValidRegion(r) && IsPlan(r, eligible, plan) && local in eligible
    requires DefinedIn(r, local, x) || HasPhi(plan, x, local)
    requires x < |r.graph.succ| && Marked(r.graph, x, y)
    ensures HasPhi(plan, y, local)
  {
    assert PhisPlaced(r, plan, local);
    var definitions: set<nat>, phis: set<nat> :|
      && IsDefinitionSet(r, local, definitions)
      && IsPhiSet(plan, local, phis)
      && IsIteratedFrontier(plan.frontiers, definitions, phis);
    assert x in definitions + phis;
    assert y in plan.frontiers[x];
  }

  /** A definition or phi on the approach to `b` forces a phi later on the approach. */
  lemma ApproachForcesPhi(r: Region, eligible: set<nat>, plan: SsaPlan, local: nat, b: nat, q: seq<nat>, i: nat)
    returns (j: nat)
    requires ValidRegion(r) && IsPlan(r, eligible, plan) && local in eligible
    requires LastApproach(r.graph, plan.idom, b, q) && 0 < i < |q| - 1
    requires DefinedIn(r, local, q[i]) || HasPhi(plan, q[i], local)
    ensures i < j < |q| && HasPhi(plan, q[j], local)
  {
    var g := r.graph;
    ApproachReachable(g, plan.idom, b, q, i);
    ApproachNotDominating(g, plan.idom, b, q, i);
    j := CrossesFrontier(g, q, i);
    ApproachAvoidsEntry(g, plan.idom, b, q, j);
    MarksAreFrontier(g, q[i], q[j]);
    PhiOnFrontier(r, eligible, plan, local, q[i], q[j]);
  }

  /** If `b` has no phi for the local, no definition and no phi of it lies on the approach to `b`. */
  lemma {:induction false} NoDefinitionOnApproach(r: Region, eligible: set<nat>, plan: SsaPlan, local: nat,
                                                  b: nat, q: seq<nat>, i: nat)
    requires ValidRegion(r) && IsPlan(r, eligible, plan) && local in eligible
    requires LastApproach(r.graph, plan.idom, b, q) && !HasPhi(plan, b, local)
    requires 0 < i < |q| - 1
    ensures !DefinedIn(r, local, q[i]) && !HasPhi(plan, q[i], local)
    decreases |q| - i
  {
    if DefinedIn(r, local, q[i]) || HasPhi(plan, q[i], local) {
      var j := ApproachForcesPhi(r, eligible, plan, local, b, q, i);
      if j < |q| - 1 {
        NoDefinitionOnApproach(r, eligible, plan, local, b, q, j);
      }
      assert false;
    }
  }

  /** One step up the dominator tree is right: on every execution path to a block without a phi for the local,
      the last definition or phi before the block is met no later than the last visit of the immediate
      dominator. */
  lemma DefinitionReachesThroughDominator(r: Region, eligible: set<nat>, plan: SsaPlan, local: nat,
                                          b: nat, p: seq<nat>) returns (j: nat)
    requires ValidRegion(r) && IsPlan(r, eligible, plan) && local in eligible
    requires PathTo(r.graph, p, b) && b != 0 && !HasPhi(plan, b, local)
    ensures b < |plan.idom| && j < |p| - 1 && plan.idom[b] == Some(p[j])
    ensures forall i | j < i < |p| - 1 :: !DefinedIn(r, local, p[i]) && !HasPhi(plan, p[i], local)
  {
    var g := r.graph;
    assert Reachable(g, b);
    TableStep(g, plan.idom, b);
    var t := plan.idom[b].value;
    assert t in p;
    j := |p| - 2;
    while p[j] != t
      invariant j < |p| - 1
      invariant exists k :: 0 <= k <= j && p[k] == t
      invariant forall k | j < k < |p| - 1 :: p[k] != t
      decreases j
    {
      j := j - 1;
    }
    var q := p[j..];
    assert IsPath(g, q) by {
      forall k | 0 <= k < |q| - 1 ensures Edge(g, q[k], q[k + 1]) {
        assert q[k] == p[j + k] && q[k + 1] == p[j + k + 1];
        assert Edge(g, p[j + k], p[j + k + 1]);
      }
    }
    assert LastApproach(g, plan.idom, b, q);
    forall i | j < i < |p| - 1 ensures !DefinedIn(r, local, p[i]) && !HasPhi(plan, p[i], local) {
      NoDefinitionOnApproach(r, eligible, plan, local, b, q, i - j);
      assert q[i - j] == p[i];
    }
  }
}
