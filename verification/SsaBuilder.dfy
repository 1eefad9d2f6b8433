/** Building the executable SSA plan of a region, checking it, and finding natural loops with it. */
module SsaBuilder {
  import opened Options
  import opened ControlFlow
  import opened BlockOrder
  import opened Dominators
  import opened DominanceFrontier
  import opened PhiPlacement
  import Sorting

  // ---------- Predecessor lists ----------

  /** Removes repeated neighbours. */
  function Dedup(s: seq<nat>): (r: seq<nat>)
    ensures forall x :: x in r <==> x in s
    ensures |s| > 0 ==> |r| > 0 && r[0] == s[0]
  {
    if |s| < 2 then s
    else
      assert s == [s[0]] + s[1..];
      if s[0] == s[1] then Dedup(s[1..]) else [s[0]] + Dedup(s[1..])
  }

  lemma {:induction false} DedupAscending(s: seq<nat>)
    requires forall i, j | 0 <= i < j < |s| :: s[i] <= s[j]
    ensures forall i, j | 0 <= i < j < |Dedup(s)| :: Dedup(s)[i] < Dedup(s)[j]
    decreases |s|
  {
    if |s| >= 2 {
      var t := s[1..];
      DedupAscending(t);
      if s[0] != s[1] {
        forall j | 0 <= j < |Dedup(t)| ensures s[0] < Dedup(t)[j] {
          assert Dedup(t)[j] in t;
        }
      }
    }
  }

  predicate NotAfter(a: nat, b: nat) { a <= b }

  method PredecessorLists(g: Graph) returns (preds: seq<seq<nat>>)
    requires Valid(g)
    ensures PredecessorTable(g, preds)
  {
    var n := |g.succ|;
    var pushed: seq<seq<nat>> := seq(n, b => []);
    var u := 0;
    while u < n
      invariant u <= n == |pushed|
      invariant forall v: nat, x: nat | v < n :: x in pushed[v] <==> Edge(g, x, v) && x < u
    {
      pushed := PushTargetsOf(g, pushed, u);
      u := u + 1;
    }
    preds := [];
    while |preds| < n
      invariant |preds| <= n
      invariant forall b: nat | b < |preds| :: AscendingPredecessors(g, b, preds[b])
    {
      SortDedupPredecessors(g, |preds|, pushed[|preds|]);
      preds := preds + [Dedup(Sorting.Sort(NotAfter, pushed[|preds|]))];
    }
  }

  lemma SortDedupPredecessors(g: Graph, b: nat, incoming: seq<nat>)
    requires forall x: nat :: x in incoming <==> Edge(g, x, b)
    ensures AscendingPredecessors(g, b, Dedup(Sorting.Sort(NotAfter, incoming)))
  {
    Sorting.SortSorted(NotAfter, incoming);
    Sorting.SameElements(Sorting.Sort(NotAfter, incoming), incoming);
    DedupAscending(Sorting.Sort(NotAfter, incoming));
  }

  method PushTargetsOf(g: Graph, pushed0: seq<seq<nat>>, u: nat) returns (pushed: seq<seq<nat>>)
    requires Valid(g) && u < |g.succ| == |pushed0|
    requires forall v: nat, x: nat | v < |pushed0| :: x in pushed0[v] <==> Edge(g, x, v) && x < u
    ensures |pushed| == |g.succ|
    ensures forall v: nat, x: nat | v < |pushed| :: x in pushed[v] <==> Edge(g, x, v) && x < u + 1
  {
    pushed := pushed0;
    var targets := g.succ[u];
    var i := 0;
    while i < |targets|
      invariant i <= |targets| && |pushed| == |g.succ|
      invariant forall v: nat, x: nat | v < |pushed| ::
                  x in pushed[v] <==> x in pushed0[v] || (x == u && v in targets[..i])
    {
      var t := targets[i];
      assert targets[..i + 1] == targets[..i] + [t];
      pushed := pushed[t := pushed[t] + [u]];
      i := i + 1;
    }
    assert targets[..|targets|] == targets;
  }

  /** The place of every reachable block in the order; unreachable blocks keep the sentinel. */
  method NumberBlocks(g: Graph, order: seq<nat>) returns (rank: seq<nat>)
    requires Valid(g) && IsReversePostorder(g, order)
    ensures Numbered(g, order, rank)
  {
    rank := seq(|g.succ|, b => 0xFFFF_FFFF_FFFF_FFFF);
    forall j | 0 <= j < |order| ensures order[j] < |g.succ| {
      assert order[j] in order;
      var p :| PathTo(g, p, order[j]);
      assert p[|p| - 1] == order[j];
    }
    var i := 0;
    while i < |order|
      invariant i <= |order| && |rank| == |g.succ|
      invariant forall j | 0 <= j < i :: rank[order[j]] == j
    {
      rank := rank[order[i] := i];
      i := i + 1;
    }
  }

  // ---------- Definitions and phis ----------

  type Definitions = map<nat, set<nat>>

  ghost predicate Defines(d: Definitions, local: nat, b: nat) {
    local in d && b in d[local]
  }

  function AddDefinition(d: Definitions, local: nat, b: nat): (r: Definitions)
    ensures forall l: nat, x: nat :: Defines(r, l, x) <==> Defines(d, l, x) || (l == local && x == b)
  {
    d[local := (if local in d then d[local] else {}) + {b}]
  }

  /** Adds the eligible ones of `locals` as definitions of block `b`. */
  method DefineAll(d0: Definitions, eligible: set<nat>, locals: seq<nat>, b: nat) returns (d: Definitions)
    requires d0.Keys <= eligible
    ensures d.Keys <= eligible
    ensures forall l: nat, x: nat ::
              Defines(d, l, x) <==> Defines(d0, l, x) || (x == b && l in eligible && l in locals)
  {
    d := d0;
    var i := 0;
    while i < |locals|
      invariant i <= |locals| && d.Keys <= eligible
      invariant forall l: nat, x: nat ::
                  Defines(d, l, x) <==> Defines(d0, l, x) || (x == b && l in eligible && l in locals[..i])
    {
      assert locals[..i + 1] == locals[..i] + [locals[i]];
      if locals[i] in eligible {
        d := AddDefinition(d, locals[i], b);
      }
      i := i + 1;
    }
    assert locals[..|locals|] == locals;
  }

  method DefinitionBlocks(r: Region, eligible: set<nat>) returns (d: Definitions)
    requires ValidRegion(r)
    ensures d.Keys <= eligible
    ensures forall l: nat, b: nat :: Defines(d, l, b) <==> l in eligible && DefinedIn(r, l, b)
  {
    d := DefineAll(map[], eligible, r.params, 0);
    var b := 0;
    while b < |r.defs|
      invariant b <= |r.defs| && d.Keys <= eligible
      invariant forall l: nat, x: nat :: Defines(d, l, x) <==>
                  l in eligible && ((x == 0 && l in r.params) || (x < b && l in r.defs[x]))
    {
      d := DefineAll(d, eligible, r.defs[b], b);
      b := b + 1;
    }
  }

  type Phis = map<nat, set<nat>>

  ghost predicate PhiAt(phis: Phis, b: nat, local: nat) {
    b in phis && local in phis[b]
  }

  ghost predicate NoEmptyEntry(phis: Phis) {
    forall b | b in phis :: phis[b] != {}
  }

  method AddPhis(phis0: Phis, local: nat, blocks: set<nat>) returns (phis: Phis)
    requires NoEmptyEntry(phis0)
    ensures NoEmptyEntry(phis)
    ensures forall b: nat, l: nat :: PhiAt(phis, b, l) <==> PhiAt(phis0, b, l) || (l == local && b in blocks)
  {
    phis := phis0;
    var list := Ascending(blocks);
    var i := 0;
    while i < |list|
      invariant i <= |list| && NoEmptyEntry(phis)
      invariant forall b: nat, l: nat ::
                  PhiAt(phis, b, l) <==> PhiAt(phis0, b, l) || (l == local && b in list[..i])
    {
      assert list[..i + 1] == list[..i] + [list[i]];
      var b := list[i];
      ghost var before := phis;
      phis := phis[b := (if b in phis then phis[b] else {}) + {local}];
      forall c: nat, l: nat ensures PhiAt(phis, c, l) <==> PhiAt(before, c, l) || (l == local && c == b) {
      }
      i := i + 1;
    }
    assert list[..|list|] == list;
  }

  /** `sets[l]` is the phi set of each local `l` treated so far. */
  ghost predicate PlacedSoFar(frontiers: Frontiers, d: Definitions, phis: Phis, sets: map<nat, set<nat>>) {
    && sets.Keys <= d.Keys && NoEmptyEntry(phis)
    && (forall l | l in sets :: IsIteratedFrontier(frontiers, d[l], sets[l]))
    && (forall b: nat, l: nat :: PhiAt(phis, b, l) <==> l in sets && b in sets[l])
  }

  method PlaceAll(frontiers: Frontiers, d: Definitions) returns (phis: Phis, sets: map<nat, set<nat>>)
    requires forall l, b | l in d && b in d[l] :: b < |frontiers|
    requires forall b, x | 0 <= b < |frontiers| && x in frontiers[b] :: x < |frontiers|
    ensures PlacedSoFar(frontiers, d, phis, sets) && sets.Keys == d.Keys
  {
    phis, sets := map[], map[];
    var locals := Ascending(d.Keys);
    var i := 0;
    while i < |locals|
      invariant i <= |locals| && PlacedSoFar(frontiers, d, phis, sets)
      invariant forall l :: l in sets <==> l in locals[..i]
    {
      var local := locals[i];
      assert local in locals;
      var blocks := PlacePhis(frontiers, d[local]);
      phis := AddPhis(phis, local, blocks);
      assert local !in locals[..i];
      assert locals[..i + 1] == locals[..i] + [local];
      sets := sets[local := blocks];
      i := i + 1;
    }
    assert locals[..|locals|] == locals;
  }

  lemma PlanComplete(r: Region, eligible: set<nat>, plan: SsaPlan, d: Definitions, sets: map<nat, set<nat>>)
    requires forall l: nat, b: nat :: Defines(d, l, b) <==> l in eligible && DefinedIn(r, l, b)
    requires PlacedSoFar(plan.frontiers, d, plan.phis, sets) && sets.Keys == d.Keys
    ensures forall local | local in eligible :: PhisPlaced(r, plan, local)
  {
    forall local | local in eligible ensures PhisPlaced(r, plan, local) {
      var definitions: set<nat> := if local in d then d[local] else {};
      var phis: set<nat> := if local in d then sets[local] else {};
      forall b: nat ensures b in definitions <==> DefinedIn(r, local, b) {
        assert b in definitions <==> Defines(d, local, b);
      }
      forall b: nat ensures b in phis <==> HasPhi(plan, b, local) {
        assert PhiAt(plan.phis, b, local) <==> HasPhi(plan, b, local);
      }
      assert IsDefinitionSet(r, local, definitions) && IsPhiSet(plan, local, phis);
      assert IsIteratedFrontier(plan.frontiers, definitions, phis);
    }
  }

  lemma FrontierInRange(g: Graph, frontiers: Frontiers)
    requires Valid(g) && FrontierTable(g, frontiers)
    ensures forall b, x | 0 <= b < |frontiers| && x in frontiers[b] :: x < |frontiers|
  {
    forall b, x | 0 <= b < |frontiers| && x in frontiers[b] ensures x < |frontiers| {
      assert Marked(g, b, x);
      var p :| PathTo(g, p, x);
      assert p[|p| - 1] == x;
    }
  }

  /** The plan of a region; a region without blocks gets an empty one. */
  method BuildExecutableSsa(r: Region, eligible: set<nat>) returns (plan: SsaPlan)
    requires r.graph.succ == [] || ValidRegion(r)
    ensures r.graph.succ != [] ==> IsPlan(r, eligible, plan)
    ensures r.graph.succ == [] ==> plan == SsaPlan([], {}, [], [], map[])
  {
    var g := r.graph;
    if g.succ == [] { return SsaPlan([], {}, [], [], map[]); }
    var preds := PredecessorLists(g);
    var order := ReversePostorder(g);
    var reachable := set b | b in order;
    var rank := NumberBlocks(g, order);
    var idom, passes := ImmediateDominators(g, preds, order, rank);
    var frontiers := ComputeFrontiers(g, preds, reachable, idom);
    var d := DefinitionBlocks(r, eligible);
    FrontierInRange(g, frontiers);
    forall l, b | l in d && b in d[l] ensures b < |frontiers| { assert Defines(d, l, b); }
    var phis, sets := PlaceAll(frontiers, d);
    plan := SsaPlan(preds, reachable, idom, frontiers, phis);
    PlanComplete(r, eligible, plan, d, sets);
    forall b: nat, local: nat | HasPhi(plan, b, local) ensures local in eligible {
      assert PhiAt(plan.phis, b, local);
    }
  }

  // ---------- The consistency check and natural loops ----------

  /** A block with a phi has several predecessors. */
  lemma PhiNeedsPredecessors(r: Region, eligible: set<nat>, plan: SsaPlan, local: nat, b: nat)
    requires ValidRegion(r) && IsPlan(r, eligible, plan) && HasPhi(plan, b, local)
    ensures Reachable(r.graph, b) && TwoPredecessors(r.graph, b)
  {
    assert PhisPlaced(r, plan, local);
    var definitions: set<nat>, phis: set<nat> :|
      && IsDefinitionSet(r, local, definitions)
      && IsPhiSet(plan, local, phis)
      && IsIteratedFrontier(plan.frontiers, definitions, phis);
    // The phis that have several predecessors are already closed, so they are all the phis.
    var joins := set x | x in phis && Reachable(r.graph, x) && TwoPredecessors(r.graph, x);
    forall d | d in definitions + joins && 0 <= d < |plan.frontiers| ensures plan.frontiers[d] <= joins {
      forall y | y in plan.frontiers[d] ensures y in joins {
        assert Marked(r.graph, d, y);
        assert plan.frontiers[d] <= phis;
      }
    }
    assert ClosedUnderFrontier(plan.frontiers, definitions, joins);
    assert b in phis;
  }

  /** Phis stand at blocks with several predecessors and are of known locals. */
  ghost predicate PhisFit(r: Region, plan: SsaPlan, b: nat)
    requires b < |plan.predecessors| && b in plan.phis
  {
    |plan.predecessors[b]| >= 2 && forall local | local in plan.phis[b] :: local < r.localCount
  }

  /** The tables of a plan have a row for each block; nothing is said of what they hold. */
  ghost predicate Shaped(r: Region, plan: SsaPlan) {
    |plan.predecessors| == |r.graph.succ| && |plan.idom| == |r.graph.succ|
  }

  ghost predicate PassesCheck(r: Region, plan: SsaPlan, b: nat)
    requires Shaped(r, plan) && b < |r.graph.succ|
  {
    b in plan.reachable ==> (b != 0 ==> plan.idom[b].Some?) && (b in plan.phis ==> PhisFit(r, plan, b))
  }

  /** The check that the code generator relies on, for any plan: a reachable block needs a table entry and
      phis that fit. Which block the entry names is not checked. */
  method Verify(r: Region, plan: SsaPlan) returns (ok: bool)
    requires Shaped(r, plan)
    ensures ok <==> forall b: nat | b < |r.graph.succ| :: PassesCheck(r, plan, b)
  {
    var b := 0;
    while b < |r.graph.succ|
      invariant b <= |r.graph.succ|
      invariant forall c: nat | c < b :: PassesCheck(r, plan, c)
    {
      if b in plan.reachable {
        if b != 0 {
          if plan.idom[b].None? {
            assert !PassesCheck(r, plan, b);
            return false;
          }
          OwnEntryIsFound(plan.idom, b);
          var dominated := QueryDominates(plan.reachable, plan.idom, plan.idom[b].value, b, 1);
          if !dominated { return false; }
        }
        if b in plan.phis {
          var phisOk := VerifyPhis(r, plan, b);
          if !phisOk {
            assert !PassesCheck(r, plan, b);
            return false;
          }
        }
      }
      b := b + 1;
    }
    return true;
  }

  method VerifyPhis(r: Region, plan: SsaPlan, b: nat) returns (ok: bool)
    requires b < |plan.predecessors| && b in plan.phis
    ensures ok <==> PhisFit(r, plan, b)
  {
    if |plan.predecessors[b]| < 2 { return false; }
    var locals := plan.phis[b];
    while locals != {}
      invariant locals <= plan.phis[b]
      invariant forall local | local in plan.phis[b] && local !in locals :: local < r.localCount
      decreases |locals|
    {
      var local :| local in locals;
      if local >= r.localCount { return false; }
      locals := locals - {local};
    }
    return true;
  }

  /** Every plan that is built passes the check. */
  lemma BuiltPlanFits(r: Region, eligible: set<nat>, plan: SsaPlan, b: nat)
    requires ValidRegion(r) && IsPlan(r, eligible, plan) && b < |r.graph.succ|
    requires forall local | local in eligible :: local < r.localCount
    ensures Shaped(r, plan) && PassesCheck(r, plan, b)
  {
    if b in plan.phis {
      assert AscendingPredecessors(r.graph, b, plan.predecessors[b]);
      var some :| some in plan.phis[b];
      PhiNeedsPredecessors(r, eligible, plan, some, b);
      MarkedFromAll(r.graph, b, plan.predecessors[b], b);
      forall local | local in plan.phis[b] ensures local < r.localCount {
        assert HasPhi(plan, b, local);
      }
    }
  }

  /** The check does not notice a wrong dominator: any block may stand in the table. */
  lemma WrongDominatorPasses(r: Region, plan: SsaPlan, b: nat, t: nat)
    requires Shaped(r, plan) && b < |r.graph.succ| && plan.idom[b].Some?
    requires forall c: nat | c < |r.graph.succ| :: PassesCheck(r, plan, c)
    ensures var wrong := plan.(idom := plan.idom[b := Some(t)]);
            Shaped(r, wrong) && forall c: nat | c < |r.graph.succ| :: PassesCheck(r, wrong, c)
  {
    var wrong := plan.(idom := plan.idom[b := Some(t)]);
    forall c: nat | c < |r.graph.succ| ensures PassesCheck(r, wrong, c) {
      assert PassesCheck(r, plan, c);
    }
  }

  /** `b` reaches `source` without going through `header`. */
  ghost predicate ReachesAround(g: Graph, b: nat, source: nat, header: nat) {
    exists q :: IsPath(g, q) && q[0] == b && q[|q| - 1] == source && header !in q
  }

  ghost predicate LoopWorkOk(g: Graph, source: nat, header: nat, blocks: set<nat>, work: seq<nat>) {
    && {header, source} <= blocks && (forall b | b in blocks :: b < |g.succ|)
    && (forall b | b in work :: b in blocks && b != header)
    && (forall b | b in blocks && b != header :: ReachesAround(g, b, source, header))
    && (forall u: nat, b: nat | b in blocks && b != header && b !in work && Edge(g, u, b) :: u in blocks)
  }

  lemma ReachesFromPredecessor(g: Graph, u: nat, b: nat, source: nat, header: nat)
    requires Valid(g) && Edge(g, u, b) && u != header && ReachesAround(g, b, source, header)
    ensures ReachesAround(g, u, source, header)
  {
    var q :| IsPath(g, q) && q[0] == b && q[|q| - 1] == source && header !in q;
    var q' := [u] + q;
    forall i | 0 <= i < |q'| - 1 ensures Edge(g, q'[i], q'[i + 1]) {
      if i > 0 {
        assert q'[i] == q[i - 1] && q'[i + 1] == q[i - 1 + 1];
        assert Edge(g, q[i - 1], q[i - 1 + 1]);
      }
    }
    assert IsPath(g, q');
  }

  /** Adds the predecessors of one loop block. */
  method AddLoopPredecessors(g: Graph, preds: seq<nat>, source: nat, header: nat, block: nat,
                             blocks0: set<nat>, work0: seq<nat>)
    returns (blocks: set<nat>, work: seq<nat>)
    requires Valid(g) && AscendingPredecessors(g, block, preds)
    requires block in blocks0 && block != header
    requires LoopWorkOk(g, source, header, blocks0, work0 + [block])
    ensures LoopWorkOk(g, source, header, blocks, work)
    ensures blocks0 <= blocks && (|blocks| > |blocks0| || (work == work0 && blocks == blocks0))
  {
    blocks, work := blocks0, work0;
    assert forall b | b in work :: b in work0 + [block];
    var i := 0;
    while i < |preds|
      invariant i <= |preds| && blocks0 <= blocks && (forall b | b in blocks :: b < |g.succ|)
      invariant forall b | b in work :: b in blocks && b != header
      invariant forall b | b in blocks && b != header :: ReachesAround(g, b, source, header)
      invariant forall u: nat, b: nat | b in blocks && b != header && b !in work && b != block && Edge(g, u, b) :: u in blocks
      invariant forall j | 0 <= j < i :: preds[j] in blocks
      invariant |blocks| > |blocks0| || (work == work0 && blocks == blocks0)
    {
      var predecessor := preds[i];
      assert predecessor in preds;
      if predecessor !in blocks {
        if predecessor != header {
          ReachesFromPredecessor(g, predecessor, block, source, header);
          work := work + [predecessor];
        }
        blocks := blocks + {predecessor};
      }
      i := i + 1;
    }
    forall u: nat, b: nat | b in blocks && b != header && b !in work && Edge(g, u, b) ensures u in blocks {
      if b == block { assert u in preds; }
    }
  }

  /** The natural loop of an edge from `source` back to `header`. */
  method NaturalLoop(g: Graph, plan: SsaPlan, source: nat, header: nat) returns (blocks: set<nat>)
    requires Valid(g) && PredecessorTable(g, plan.predecessors)
    requires source < |g.succ| && header < |g.succ|
    ensures forall b: nat :: b in blocks <==> b == header || ReachesAround(g, b, source, header)
  {
    blocks := {header, source};
    var work := if source == header then [] else [source];
    assert source != header ==> IsPath(g, [source]) && header !in [source];
    SubsetSize(blocks, Range(|g.succ|));
    while |work| > 0
      invariant LoopWorkOk(g, source, header, blocks, work) && |blocks| <= |g.succ|
      decreases |g.succ| - |blocks|, |work|
    {
      var n := |work| - 1;
      var block := work[n];
      assert work == work[..n] + [block];
      assert block in work;
      assert AscendingPredecessors(g, block, plan.predecessors[block]);
      blocks, work := AddLoopPredecessors(g, plan.predecessors[block], source, header, block, blocks, work[..n]);
      SubsetSize(blocks, Range(|g.succ|));
    }
    forall b: nat | ReachesAround(g, b, source, header) ensures b in blocks {
      var q :| IsPath(g, q) && q[0] == b && q[|q| - 1] == source && header !in q;
      LoopComplete(g, source, header, blocks, q);
    }
  }

  lemma {:induction false} LoopComplete(g: Graph, source: nat, header: nat, blocks: set<nat>, q: seq<nat>)
    requires LoopWorkOk(g, source, header, blocks, [])
    requires IsPath(g, q) && q[|q| - 1] == source && header !in q
    ensures q[0] in blocks
    decreases |q|
  {
    if |q| > 1 {
      var q' := q[1..];
      forall i | 0 <= i < |q'| - 1 ensures Edge(g, q'[i], q'[i + 1]) {
        assert Edge(g, q[i + 1], q[i + 1 + 1]);
      }
      LoopComplete(g, source, header, blocks, q');
      assert Edge(g, q[0], q[0 + 1]);
      assert q'[0] != header;
    }
  }

  /** The header of the natural loop of a back edge dominates every reachable block of the loop, so
      the loop is entered through its header only. */
  lemma HeaderDominatesLoop(g: Graph, source: nat, header: nat, b: nat)
    requires Dominates(g, header, source) && Reachable(g, b) && ReachesAround(g, b, source, header)
    ensures Dominates(g, header, b)
  {
    var q :| IsPath(g, q) && q[0] == b && q[|q| - 1] == source && header !in q;
    forall p | PathTo(g, p, b) ensures header in p {
      SplicePath(g, p, q, 0);
      assert header in p + q[1..];
    }
  }
}
