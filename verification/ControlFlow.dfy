/** Control-flow graphs of executable regions: paths, reachability and dominance. */
module ControlFlow {
  import opened Lists

  /** A block is named by its index in the region; block 0 is the entry.
      `succ[b]` lists the targets of the terminator of block `b`, in order. */
  datatype Graph = Graph(succ: seq<seq<nat>>)

  /** The region is not empty and every terminator targets a block of the region. */
  ghost predicate Valid(g: Graph) {
    && |g.succ| > 0
    && forall u, i | 0 <= u < |g.succ| && 0 <= i < |g.succ[u]| :: g.succ[u][i] < |g.succ|
  }

  ghost predicate Edge(g: Graph, u: nat, v: nat) {
    u < |g.succ| && v in g.succ[u]
  }

  ghost predicate IsPath(g: Graph, p: seq<nat>) {
    && |p| > 0
    && (forall i | 0 <= i < |p| :: p[i] < |g.succ|)
    && forall i | 0 <= i < |p| - 1 :: Edge(g, p[i], p[i + 1])
  }

  /** `p` is a path from the entry to `b`. */
  ghost predicate PathTo(g: Graph, p: seq<nat>, b: nat) {
    IsPath(g, p) && p[0] == 0 && p[|p| - 1] == b
  }

  ghost predicate Reachable(g: Graph, b: nat) {
    exists p :: PathTo(g, p, b)
  }

  /** Every path from the entry to the reachable block `b` goes through `d`. */
  ghost predicate Dominates(g: Graph, d: nat, b: nat) {
    Reachable(g, b) && forall p | PathTo(g, p, b) :: d in p
  }

  ghost predicate StrictlyDominates(g: Graph, d: nat, b: nat) {
    Dominates(g, d, b) && d != b
  }

  /** `t` is the immediate dominator of `b`: the strict dominator that all the others dominate. */
  ghost predicate IsImmediateDominator(g: Graph, t: nat, b: nat) {
    && StrictlyDominates(g, t, b)
    && forall d | StrictlyDominates(g, d, b) :: Dominates(g, d, t)
  }

  lemma ExtendPath(g: Graph, p: seq<nat>, u: nat, v: nat)
    requires Valid(g) && PathTo(g, p, u) && Edge(g, u, v)
    ensures PathTo(g, p + [v], v)
  {
    var q := p + [v];
    forall i | 0 <= i < |q| - 1 ensures Edge(g, q[i], q[i + 1]) {
      if i == |p| - 1 {
        assert q[i] == u && q[i + 1] == v;
      }
    }
  }

  lemma PathPrefix(g: Graph, p: seq<nat>, b: nat, i: nat)
    requires PathTo(g, p, b) && i < |p|
    ensures PathTo(g, p[..i + 1], p[i])
  {
    var q := p[..i + 1];
    forall j | 0 <= j < |q| - 1 ensures Edge(g, q[j], q[j + 1]) {
      assert q[j] == p[j] && q[j + 1] == p[j + 1];
    }
  }

  /** A path to `p[i]` can replace the first part of `p`. */
  lemma SplicePath(g: Graph, q: seq<nat>, p: seq<nat>, i: nat)
    requires IsPath(g, p) && i < |p| && PathTo(g, q, p[i])
    ensures PathTo(g, q + p[i + 1..], p[|p| - 1])
  {
    var r := q + p[i + 1..];
    forall j | 0 <= j < |r| - 1 ensures Edge(g, r[j], r[j + 1]) {
      if j < |q| - 1 {
        assert r[j] == q[j] && r[j + 1] == q[j + 1];
      } else {
        var k := j - |q| + i + 1;
        assert r[j] == p[k] && r[j + 1] == p[k + 1];
      }
    }
    if i + 1 == |p| {
      assert r == q;
    } else {
      assert r[|r| - 1] == p[|p| - 1];
    }
  }

  lemma EntryPath(g: Graph)
    requires Valid(g)
    ensures PathTo(g, [0], 0)
  {
  }

  lemma DominatesSelf(g: Graph, b: nat)
    requires Reachable(g, b)
    ensures Dominates(g, b, b)
  {
    forall p | PathTo(g, p, b) ensures b in p {
      assert p[|p| - 1] == b;
    }
  }

  lemma OnlyEntryDominatesEntry(g: Graph, d: nat)
    requires Valid(g) && Dominates(g, d, 0)
    ensures d == 0
  {
    EntryPath(g);
    assert d in [0];
  }

  /** A strict dominator of a block dominates each reachable predecessor of the block. */
  lemma DominatesPredecessor(g: Graph, d: nat, u: nat, b: nat)
    requires Valid(g) && StrictlyDominates(g, d, b) && Edge(g, u, b) && Reachable(g, u)
    ensures Dominates(g, d, u)
  {
    forall p | PathTo(g, p, u) ensures d in p {
      ExtendPath(g, p, u, b);
      assert d in p + [b];
    }
  }

  /** A block that dominates every reachable predecessor of `b` dominates `b`. */
  lemma DominatesFromPredecessors(g: Graph, d: nat, b: nat)
    requires Reachable(g, b) && b != 0
    requires forall u: nat | Edge(g, u, b) && Reachable(g, u) :: Dominates(g, d, u)
    ensures Dominates(g, d, b)
  {
    forall p | PathTo(g, p, b) ensures d in p {
      PathPrefix(g, p, b, |p| - 2);
      assert Edge(g, p[|p| - 2], p[|p| - 2 + 1]);
      assert d in p[..|p| - 2 + 1];
    }
  }

  lemma DominatorReachable(g: Graph, d: nat, b: nat)
    requires Dominates(g, d, b)
    ensures Reachable(g, d)
  {
    var p :| PathTo(g, p, b);
    var i :| 0 <= i < |p| && p[i] == d;
    PathPrefix(g, p, b, i);
  }

  lemma DominatesTransitive(g: Graph, a: nat, d: nat, b: nat)
    requires Dominates(g, a, d) && Dominates(g, d, b)
    ensures Dominates(g, a, b)
  {
    forall p | PathTo(g, p, b) ensures a in p {
      var i :| 0 <= i < |p| && p[i] == d;
      PathPrefix(g, p, b, i);
      assert a in p[..i + 1];
    }
  }

  /** Cutting a path at the first visit of its last block. */
  lemma FirstVisit(g: Graph, p: seq<nat>, b: nat) returns (q: seq<nat>)
    requires PathTo(g, p, b)
    ensures PathTo(g, q, b) && |q| <= |p| && q == p[..|q|]
    ensures b !in q[..|q| - 1]
  {
    var i := 0;
    while p[i] != b
      invariant 0 <= i < |p|
      invariant forall j | 0 <= j < i :: p[j] != b
      decreases |p| - i
    {
      assert p[|p| - 1] == b;
      i := i + 1;
    }
    PathPrefix(g, p, b, i);
    q := p[..i + 1];
  }

  lemma {:induction false} DominatesAntisymmetric(g: Graph, a: nat, b: nat)
    requires Dominates(g, a, b) && Dominates(g, b, a)
    ensures a == b
  {
    if a != b {
      var p0 :| PathTo(g, p0, b);
      var p := FirstVisit(g, p0, b);
      var i :| 0 <= i < |p| && p[i] == a;
      PathPrefix(g, p, b, i);
      assert false;
    }
  }

  /** The immediate dominator is unique. */
  lemma ImmediateDominatorUnique(g: Graph, s: nat, t: nat, b: nat)
    requires IsImmediateDominator(g, s, b) && IsImmediateDominator(g, t, b)
    ensures s == t
  {
    DominatesAntisymmetric(g, s, t);
  }

  // ---------- Paths without repetition ----------

  /** Every path can be shortened to one that repeats no block and visits no new block. */
  lemma {:induction false} SimplePath(g: Graph, p: seq<nat>, b: nat) returns (q: seq<nat>)
    requires PathTo(g, p, b)
    ensures PathTo(g, q, b) && NoRepeats(q)
    ensures forall x | x in q :: x in p
    decreases |p|
  {
    if NoRepeats(p) {
      q := p;
    } else {
      var i, j :| 0 <= i < j < |p| && p[i] == p[j];
      PathPrefix(g, p, b, i);
      SplicePath(g, p[..i + 1], p, j);
      q := SimplePath(g, p[..i + 1] + p[j + 1..], b);
    }
  }

  function Range(n: nat): (r: set<nat>)
    ensures |r| == n && forall x: nat :: x in r <==> x < n
  {
    if n == 0 then {} else Range(n - 1) + {n - 1}
  }

  lemma SubsetSize(a: set<nat>, b: set<nat>)
    requires a <= b
    ensures |a| <= |b|
  {
    if a != {} {
      var x :| x in a;
      SubsetSize(a - {x}, b - {x});
    }
  }

  lemma {:induction false} ElementCount(p: seq<nat>, s: set<nat>)
    requires NoRepeats(p) && forall x :: x in s <==> x in p
    ensures |s| == |p|
    decreases |p|
  {
    if p == [] {
      assert s == {};
    } else {
      var x := p[|p| - 1];
      var q := p[..|p| - 1];
      assert x in s && x !in q;
      assert forall y :: y in s - {x} <==> y in q;
      ElementCount(q, s - {x});
    }
  }

  /** A path without repetition is no longer than the region. */
  lemma DistinctLength(p: seq<nat>, n: nat)
    requires NoRepeats(p) && forall i | 0 <= i < |p| :: p[i] < n
    ensures |p| <= n
  {
    var s := set x | x in p;
    ElementCount(p, s);
    SubsetSize(s, Range(n));
  }
}
