/** Chains of a partial immediate-dominator table, and the walk that intersects two of them. */
module DominatorTree {
  import opened Options

  /** The table while it is being computed: `idom[b]` is the current candidate of block `b`, the
      entry points to itself, and `rank[b]` is the place of `b` in the reverse postorder. */
  type Table = seq<Option<nat>>

  ghost predicate Known(idom: Table, b: nat) {
    b < |idom| && idom[b].Some?
  }

  /** Candidates lead strictly back in the order, through known blocks, to the entry. */
  ghost predicate Tree(idom: Table, rank: seq<nat>) {
    && |idom| == |rank| > 0
    && idom[0] == Some(0) && rank[0] == 0
    && (forall b: nat | Known(idom, b) && b != 0 ::
          Known(idom, idom[b].value) && rank[idom[b].value] < rank[b])
    && (forall a: nat, b: nat | Known(idom, a) && Known(idom, b) && rank[a] == rank[b] :: a == b)
  }

  /** `b` and everything its candidates lead to. */
  ghost function Chain(idom: Table, rank: seq<nat>, b: nat): (c: set<nat>)
    requires Tree(idom, rank) && Known(idom, b)
    ensures b in c
    decreases rank[b]
  {
    if b == 0 then {0} else {b} + Chain(idom, rank, idom[b].value)
  }

  lemma {:induction false} ChainMember(idom: Table, rank: seq<nat>, b: nat, c: nat)
    requires Tree(idom, rank) && Known(idom, b) && c in Chain(idom, rank, b)
    ensures Known(idom, c) && rank[c] <= rank[b]
    ensures c != b ==> rank[c] < rank[b]
    ensures Chain(idom, rank, c) <= Chain(idom, rank, b)
    decreases rank[b]
  {
    if b != 0 && c != b {
      ChainMember(idom, rank, idom[b].value, c);
    }
  }

  lemma {:induction false} EntryInChain(idom: Table, rank: seq<nat>, b: nat)
    requires Tree(idom, rank) && Known(idom, b)
    ensures 0 in Chain(idom, rank, b)
    decreases rank[b]
  {
    if b != 0 {
      EntryInChain(idom, rank, idom[b].value);
    }
  }

  /** Of two blocks on one chain, the lower-ranked one is on the chain of the other. */
  lemma {:induction false} ChainOrder(idom: Table, rank: seq<nat>, b: nat, c: nat, d: nat)
    requires Tree(idom, rank) && Known(idom, b)
    requires c in Chain(idom, rank, b) && d in Chain(idom, rank, b)
    requires Known(idom, c) && Known(idom, d) && rank[c] <= rank[d]
    ensures c in Chain(idom, rank, d)
    decreases rank[b]
  {
    ChainMember(idom, rank, b, c);
    ChainMember(idom, rank, b, d);
    if b != 0 && d != b {
      ChainOrder(idom, rank, idom[b].value, c, d);
    }
  }

  /** A chain determines the block it starts from. */
  lemma ChainInjective(idom: Table, rank: seq<nat>, a: nat, b: nat)
    requires Tree(idom, rank) && Known(idom, a) && Known(idom, b)
    requires Chain(idom, rank, a) == Chain(idom, rank, b)
    ensures a == b
  {
    ChainMember(idom, rank, a, b);
    ChainMember(idom, rank, b, a);
  }

  /** The common part of two chains. */
  ghost function Common(idom: Table, rank: seq<nat>, a: nat, b: nat): set<nat>
    requires Tree(idom, rank) && Known(idom, a) && Known(idom, b)
  {
    Chain(idom, rank, a) * Chain(idom, rank, b)
  }

  lemma CommonSymmetric(idom: Table, rank: seq<nat>, a: nat, b: nat)
    requires Tree(idom, rank) && Known(idom, a) && Known(idom, b)
    ensures Common(idom, rank, a, b) == Common(idom, rank, b, a)
  {
  }

  /** One step of the climb keeps the common part of the two chains. */
  lemma ClimbStep(idom: Table, rank: seq<nat>, left: nat, right: nat)
    requires Tree(idom, rank) && Known(idom, left) && Known(idom, right)
    requires rank[left] > rank[right]
    ensures left != 0 && Known(idom, idom[left].value)
    ensures Common(idom, rank, idom[left].value, right) == Common(idom, rank, left, right)
  {
    if left in Chain(idom, rank, right) {
      ChainMember(idom, rank, right, left);
    }
  }

  /** Climbs from `from` to the first candidate that is not later than `other` in the order. */
  method Climb(from: nat, other: nat, idom: Table, rank: seq<nat>) returns (r: nat)
    requires Tree(idom, rank) && Known(idom, from) && Known(idom, other)
    ensures Known(idom, r) && rank[r] <= rank[other]
    ensures if rank[from] > rank[other] then rank[r] < rank[from] else r == from
    ensures Common(idom, rank, r, other) == Common(idom, rank, from, other)
  {
    r := from;
    while rank[r] > rank[other]
      invariant Known(idom, r)
      invariant r == from || rank[r] < rank[from]
      invariant Common(idom, rank, r, other) == Common(idom, rank, from, other)
      invariant rank[from] <= rank[other] ==> r == from
      decreases rank[r]
    {
      ClimbStep(idom, rank, r, other);
      r := idom[r].value;
    }
  }

  /** The two-finger walk: the result is the nearest common block of the two chains. */
  method IntersectDominators(left0: nat, right0: nat, idom: Table, rank: seq<nat>) returns (left: nat)
    requires Tree(idom, rank) && Known(idom, left0) && Known(idom, right0)
    ensures Known(idom, left)
    ensures Chain(idom, rank, left) == Common(idom, rank, left0, right0)
  {
    left := left0;
    var right := right0;
    while left != right
      invariant Known(idom, left) && Known(idom, right)
      invariant Common(idom, rank, left, right) == Common(idom, rank, left0, right0)
      decreases rank[left] + rank[right]
    {
      left := Climb(left, right, idom, rank);
      CommonSymmetric(idom, rank, left, right);
      right := Climb(right, left, idom, rank);
      CommonSymmetric(idom, rank, right, left);
    }
  }

  // ---------- Changing one entry of the table ----------

  /** Blocks whose chain does not go through `v` keep their chain. */
  lemma {:induction false} ChainUnaffected(idom: Table, rank: seq<nat>, v: nat, t: nat, b: nat)
    requires Tree(idom, rank) && Known(idom, t) && v < |idom| && v != 0 && rank[t] < rank[v]
    requires Tree(idom[v := Some(t)], rank)
    requires Known(idom, b) && v !in Chain(idom, rank, b)
    ensures Chain(idom[v := Some(t)], rank, b) == Chain(idom, rank, b)
    decreases rank[b]
  {
    if b != 0 {
      ChainUnaffected(idom, rank, v, t, idom[b].value);
    }
  }

  /** Blocks below `v` keep the part of their chain below `v` and continue with the new chain of `v`. */
  lemma {:induction false} ChainRedirected(idom: Table, rank: seq<nat>, v: nat, t: nat, b: nat, c: nat)
    requires Tree(idom, rank) && Known(idom, t) && v < |idom| && v != 0 && rank[t] < rank[v]
    requires Tree(idom[v := Some(t)], rank)
    requires Known(idom, b) && v in Chain(idom, rank, b)
    requires c in Chain(idom[v := Some(t)], rank, b)
    ensures c in Chain(idom, rank, b) || c in Chain(idom[v := Some(t)], rank, v)
    decreases rank[b]
  {
    if b != v && c != b {
      ChainRedirected(idom, rank, v, t, idom[b].value, c);
    }
  }
}
