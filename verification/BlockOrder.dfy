/** The reverse postorder that the dominator computation iterates over. */
module BlockOrder {
  import opened Lists
  import opened ControlFlow

  /** What the reverse postorder promises: the reachable blocks, each once, entry first,
      and before every other block one of its predecessors. */
  ghost predicate IsReversePostorder(g: Graph, order: seq<nat>) {
    && |order| > 0 && order[0] == 0
    && NoRepeats(order)
    && (forall b: nat :: b in order <==> Reachable(g, b))
    && forall k | 0 < k < |order| :: HasEarlierPredecessor(g, order, k)
  }

  ghost predicate HasEarlierPredecessor(g: Graph, order: seq<nat>, k: nat)
    requires k < |order|
  {
    exists j :: 0 <= j < k && Edge(g, order[j], order[k])
  }

  // ---------- The depth-first walk ----------

  /** A work item: a block, and whether its successors have already been pushed. */
  type Item = (nat, bool)

  ghost predicate OpenParent(g: Graph, work: seq<Item>, k: nat)
    requires k < |work|
  {
    exists j :: 0 <= j < k && work[j].1 && Edge(g, work[j].0, work[k].0)
  }

  /** The work stack: entry at the bottom, and under every other item an opened predecessor of it. */
  ghost predicate StackOk(g: Graph, visited: seq<bool>, work: seq<Item>) {
    && (forall k | 0 <= k < |work| :: work[k].0 < |visited|)
    && (forall k | 0 <= k < |work| :: work[k].1 ==> visited[work[k].0])
    && (forall k | 0 < k < |work| :: OpenParent(g, work, k))
    && (forall j, k | 0 <= j < k < |work| && work[j].1 && work[k].1 :: work[j].0 != work[k].0)
    && (|work| > 0 ==> work[0].0 == 0)
  }

  ghost predicate LaterPredecessor(g: Graph, visited: seq<bool>, post: seq<nat>, k: nat)
    requires k < |post|
  {
    exists p: nat :: p < |visited| && visited[p] && p !in post[..k + 1] && Edge(g, p, post[k])
  }

  /** The finished blocks: each once, and for every one but the entry a predecessor that finishes later. */
  ghost predicate PostOk(g: Graph, visited: seq<bool>, post: seq<nat>) {
    && NoRepeats(post)
    && (forall k | 0 <= k < |post| :: post[k] < |visited| && visited[post[k]])
    && (forall k | 0 <= k < |post| && post[k] != 0 :: LaterPredecessor(g, visited, post, k))
  }

  /** A visited block is either finished or still open on the stack, never both. */
  ghost predicate Accounted(visited: seq<bool>, work: seq<Item>, post: seq<nat>) {
    && (forall b | 0 <= b < |visited| && visited[b] :: b in post || (b, true) in work)
    && (forall k | 0 <= k < |work| && work[k].1 :: work[k].0 !in post)
  }

  ghost predicate VisitedReachable(g: Graph, visited: seq<bool>) {
    forall b | 0 <= b < |visited| && visited[b] :: Reachable(g, b)
  }

  ghost predicate SuccessorsSeen(g: Graph, visited: seq<bool>, work: seq<Item>) {
    forall u: nat, v: nat | u < |visited| && visited[u] && Edge(g, u, v) && v < |visited| ::
      visited[v] || (v, false) in work
  }

  function Unvisited(visited: seq<bool>): nat {
    if visited == [] then 0
    else (if visited[|visited| - 1] then 0 else 1) + Unvisited(visited[..|visited| - 1])
  }

  lemma {:induction false} VisitCounts(visited: seq<bool>, b: nat)
    requires b < |visited| && !visited[b]
    ensures Unvisited(visited[b := true]) < Unvisited(visited)
    decreases |visited|
  {
    var n := |visited| - 1;
    if b == n {
      assert visited[b := true][..n] == visited[..n];
    } else {
      assert visited[b := true][..n] == visited[..n][b := true];
      VisitCounts(visited[..n], b);
    }
  }

  /** Pushes the not yet visited targets, last target first. */
  method PushTargets(visited: seq<bool>, targets: seq<nat>, work: seq<Item>) returns (r: seq<Item>)
    requires forall i | 0 <= i < |targets| :: targets[i] < |visited|
    ensures |work| <= |r| && r[..|work|] == work
    ensures forall k | |work| <= k < |r| :: !r[k].1 && r[k].0 in targets
    ensures forall t | t in targets :: visited[t] || (t, false) in r
  {
    r := work;
    var i := |targets|;
    while i > 0
      invariant 0 <= i <= |targets|
      invariant |work| <= |r| && r[..|work|] == work
      invariant forall k | |work| <= k < |r| :: !r[k].1 && r[k].0 in targets
      invariant forall j | i <= j < |targets| :: visited[targets[j]] || (targets[j], false) in r
    {
      i := i - 1;
      if !visited[targets[i]] {
        r := r + [(targets[i], false)];
        assert r[|r| - 1] == (targets[i], false);
      }
    }
  }

  /** Closing a block: its open parent further down the stack finishes later. */
  lemma FinishPost(g: Graph, visited: seq<bool>, work: seq<Item>, post: seq<nat>)
    requires StackOk(g, visited, work) && PostOk(g, visited, post) && Accounted(visited, work, post)
    requires |work| > 0 && work[|work| - 1].1
    ensures PostOk(g, visited, post + [work[|work| - 1].0])
  {
    var n := |work| - 1;
    var post' := post + [work[n].0];
    forall k | 0 <= k < |post'| && post'[k] != 0 ensures LaterPredecessor(g, visited, post', k) {
      if k < |post| {
        assert LaterPredecessor(g, visited, post, k);
        assert post'[..k + 1] == post[..k + 1];
      } else {
        assert OpenParent(g, work, n);
        var j :| 0 <= j < n && work[j].1 && Edge(g, work[j].0, work[n].0);
        assert post'[..k + 1] == post';
        assert work[j].0 !in post';
      }
    }
  }

  lemma FinishAccounted(visited: seq<bool>, work: seq<Item>, post: seq<nat>)
    requires Accounted(visited, work, post) && |work| > 0 && work[|work| - 1].1
    requires forall j | 0 <= j < |work| - 1 && work[j].1 :: work[j].0 != work[|work| - 1].0
    ensures Accounted(visited, work[..|work| - 1], post + [work[|work| - 1].0])
  {
    var n := |work| - 1;
    forall c | 0 <= c < |visited| && visited[c]
      ensures c in post + [work[n].0] || (c, true) in work[..n]
    {
      if c !in post && c != work[n].0 {
        var j :| 0 <= j < |work| && work[j] == (c, true);
        assert work[..n][j] == (c, true);
      }
    }
  }

  lemma PopOk(g: Graph, visited: seq<bool>, work: seq<Item>)
    requires StackOk(g, visited, work) && |work| > 0
    ensures StackOk(g, visited, work[..|work| - 1])
  {
    var w := work[..|work| - 1];
    forall k | 0 < k < |w| ensures OpenParent(g, w, k) {
      assert OpenParent(g, work, k);
      var j :| 0 <= j < k && work[j].1 && Edge(g, work[j].0, work[k].0);
      assert w[j] == work[j];
    }
  }

  /** Opening a block: mark it, push it back as opened, and push its targets above it. */
  lemma OpenStack(g: Graph, visited: seq<bool>, work: seq<Item>, b: nat, work': seq<Item>)
    requires Valid(g) && |visited| == |g.succ| && StackOk(g, visited, work)
    requires |work| > 0 && work[|work| - 1] == (b, false) && !visited[b]
    requires |work| <= |work'| && work'[..|work|] == work[..|work| - 1] + [(b, true)]
    requires forall k | |work| <= k < |work'| :: !work'[k].1 && work'[k].0 in g.succ[b]
    ensures StackOk(g, visited[b := true], work')
  {
    var n := |work| - 1;
    assert forall k | 0 <= k < n :: work'[k] == work'[..|work|][k] == work[k];
    assert work'[n] == work'[..|work|][n] == (b, true);
    forall k | 0 < k < |work'| ensures OpenParent(g, work', k) {
      if k <= n {
        assert OpenParent(g, work, k);
        var j :| 0 <= j < k && work[j].1 && Edge(g, work[j].0, work[k].0);
        assert work'[j] == work[j] && work'[k].0 == work[k].0;
      } else {
        assert Edge(g, work'[n].0, work'[k].0);
      }
    }
    forall j, k | 0 <= j < k < |work'| && work'[j].1 && work'[k].1 ensures work'[j].0 != work'[k].0 {
      assert j < n && k <= n;
    }
  }

  lemma OpenPost(g: Graph, visited: seq<bool>, post: seq<nat>, b: nat)
    requires PostOk(g, visited, post) && b < |visited|
    ensures PostOk(g, visited[b := true], post)
  {
    var visited' := visited[b := true];
    forall k | 0 <= k < |post| && post[k] != 0 ensures LaterPredecessor(g, visited', post, k) {
      assert LaterPredecessor(g, visited, post, k);
      var p: nat :| p < |visited| && visited[p] && p !in post[..k + 1] && Edge(g, p, post[k]);
      assert visited'[p];
    }
  }

  lemma OpenAccounted(visited: seq<bool>, work: seq<Item>, post: seq<nat>, b: nat, work': seq<Item>)
    requires Accounted(visited, work, post) && b < |visited| && b !in post
    requires |work| > 0 && work[|work| - 1] == (b, false)
    requires |work| <= |work'| && work'[..|work|] == work[..|work| - 1] + [(b, true)]
    requires forall k | |work| <= k < |work'| :: !work'[k].1
    ensures Accounted(visited[b := true], work', post)
  {
    var n := |work| - 1;
    assert forall k | 0 <= k < n :: work'[k] == work'[..|work|][k] == work[k];
    assert work'[n] == work'[..|work|][n] == (b, true);
    forall c | 0 <= c < |visited| && visited[b := true][c] ensures c in post || (c, true) in work' {
      if c != b && c !in post {
        var j :| 0 <= j < |work| && work[j] == (c, true);
        assert work'[j] == (c, true);
      }
    }
  }

  /** After opening a block its successors are visited or pushed, and the others stay covered. */
  lemma OpenSeen(g: Graph, visited: seq<bool>, work: seq<Item>, rest: seq<Item>, b: nat, work': seq<Item>)
    requires |visited| == |g.succ| && b < |visited|
    requires work == rest + [(b, false)]
    requires SuccessorsSeen(g, visited, work)
    requires |rest| <= |work'| && work'[..|rest|] == rest
    requires forall t | t in g.succ[b] :: t < |visited| && (visited[b := true][t] || (t, false) in work')
    ensures SuccessorsSeen(g, visited[b := true], work')
  {
    var visited' := visited[b := true];
    forall u: nat, v: nat | u < |visited'| && visited'[u] && Edge(g, u, v) && v < |visited'|
      ensures visited'[v] || (v, false) in work'
    {
      if u != b && !visited'[v] {
        var k :| 0 <= k < |work| && work[k] == (v, false);
        assert k < |rest|;
        assert work'[k] == work'[..|rest|][k] == rest[k];
      }
    }
  }

  lemma SkipSeen(g: Graph, visited: seq<bool>, work: seq<Item>)
    requires |work| > 0 && SuccessorsSeen(g, visited, work)
    requires work[|work| - 1].0 < |visited| && visited[work[|work| - 1].0]
    ensures SuccessorsSeen(g, visited, work[..|work| - 1])
  {
    var n := |work| - 1;
    forall u: nat, v: nat | u < |visited| && visited[u] && Edge(g, u, v) && v < |visited|
      ensures visited[v] || (v, false) in work[..n]
    {
      if !visited[v] {
        var k :| 0 <= k < |work| && work[k] == (v, false);
        assert work[..n][k] == work[k];
      }
    }
  }

  lemma SkipAccounted(visited: seq<bool>, work: seq<Item>, post: seq<nat>)
    requires |work| > 0 && Accounted(visited, work, post) && !work[|work| - 1].1
    ensures Accounted(visited, work[..|work| - 1], post)
  {
    var n := |work| - 1;
    forall b | 0 <= b < |visited| && visited[b] ensures b in post || (b, true) in work[..n] {
      if b !in post {
        var k :| 0 <= k < |work| && work[k] == (b, true);
        assert work[..n][k] == work[k];
      }
    }
  }

  /** With nothing left on the stack, everything reachable has been visited. */
  lemma {:induction false} VisitedClosed(g: Graph, visited: seq<bool>, p: seq<nat>, b: nat)
    requires Valid(g) && |visited| == |g.succ| && visited[0]
    requires SuccessorsSeen(g, visited, [])
    requires PathTo(g, p, b)
    ensures visited[b]
    decreases |p|
  {
    if |p| > 1 {
      var u := p[|p| - 2];
      PathPrefix(g, p, b, |p| - 2);
      VisitedClosed(g, visited, p[..|p| - 1], u);
      assert Edge(g, u, p[|p| - 2 + 1]);
    }
  }

  /** Reachability of a block about to be opened, from its open parent. */
  lemma TopReachable(g: Graph, visited: seq<bool>, work: seq<Item>)
    requires Valid(g) && |visited| == |g.succ|
    requires StackOk(g, visited, work) && VisitedReachable(g, visited) && |work| > 0
    ensures Reachable(g, work[|work| - 1].0)
  {
    var n := |work| - 1;
    if n == 0 {
      EntryPath(g);
    } else {
      assert OpenParent(g, work, n);
      var j :| 0 <= j < n && work[j].1 && Edge(g, work[j].0, work[n].0);
      var p :| PathTo(g, p, work[j].0);
      ExtendPath(g, p, work[j].0, work[n].0);
    }
  }

  function Reversed(s: seq<nat>): seq<nat> {
    seq(|s|, i requires 0 <= i < |s| => s[|s| - 1 - i])
  }

  lemma ReversedReachable(g: Graph, visited: seq<bool>, post: seq<nat>, b: nat)
    requires Valid(g) && |visited| == |g.succ|
    requires forall k | 0 <= k < |post| :: post[k] < |visited| && visited[post[k]]
    requires forall c | 0 <= c < |visited| && visited[c] :: c in post
    requires VisitedReachable(g, visited) && SuccessorsSeen(g, visited, []) && visited[0]
    ensures b in Reversed(post) <==> Reachable(g, b)
  {
    var order := Reversed(post);
    var n := |post|;
    if b in order {
      var i :| 0 <= i < n && order[i] == b;
      assert post[n - 1 - i] == b;
    }
    if Reachable(g, b) {
      var p :| PathTo(g, p, b);
      VisitedClosed(g, visited, p, b);
      var i :| 0 <= i < n && post[i] == b;
      assert order[n - 1 - i] == b;
    }
  }

  /** A finished block that is not among the first ones comes after them. */
  lemma FinishedLater(post: seq<nat>, i: nat, p: nat) returns (j: nat)
    requires i < |post| && p in post && p !in post[..i + 1]
    ensures i < j < |post| && post[j] == p
  {
    assert post == post[..i + 1] + post[i + 1..];
    assert p in post[i + 1..];
    var k :| 0 <= k < |post[i + 1..]| && post[i + 1..][k] == p;
    j := i + 1 + k;
  }

  /** When all visited blocks are finished, a later predecessor has a later place. */
  lemma LaterParent(g: Graph, visited: seq<bool>, post: seq<nat>, i: nat) returns (j: nat)
    requires i < |post| && LaterPredecessor(g, visited, post, i)
    requires forall b | 0 <= b < |visited| && visited[b] :: b in post
    ensures i < j < |post| && Edge(g, post[j], post[i])
  {
    var p: nat :| p < |visited| && visited[p] && p !in post[..i + 1] && Edge(g, p, post[i]);
    j := FinishedLater(post, i, p);
  }

  /** The invariant of the walk. */
  ghost predicate WalkOk(g: Graph, visited: seq<bool>, work: seq<Item>, post: seq<nat>) {
    && |visited| == |g.succ| && |visited| > 0
    && StackOk(g, visited, work) && PostOk(g, visited, post)
    && Accounted(visited, work, post)
    && VisitedReachable(g, visited) && SuccessorsSeen(g, visited, work)
    && (visited[0] || work == [(0, false)])
    && (visited[0] && |work| > 0 ==> work[0] == (0, true))
    && (|work| == 0 ==> |post| > 0 && post[|post| - 1] == 0)
  }

  lemma ReversedNoRepeats(post: seq<nat>)
    requires NoRepeats(post)
    ensures NoRepeats(Reversed(post))
  {
    var order := Reversed(post);
    forall i, j | 0 <= i < j < |order| ensures order[i] != order[j] {
      assert order[i] == post[|post| - 1 - i] && order[j] == post[|post| - 1 - j];
    }
  }

  lemma ReversedParent(g: Graph, visited: seq<bool>, post: seq<nat>, k: nat)
    requires 0 < k < |post| && LaterPredecessor(g, visited, post, |post| - 1 - k)
    requires forall b | 0 <= b < |visited| && visited[b] :: b in post
    ensures HasEarlierPredecessor(g, Reversed(post), k)
  {
    var order, n := Reversed(post), |post|;
    var j := LaterParent(g, visited, post, n - 1 - k);
    assert order[k] == post[n - 1 - k] && order[n - 1 - j] == post[j];
  }

  lemma PostorderReversed(g: Graph, visited: seq<bool>, post: seq<nat>)
    requires Valid(g) && WalkOk(g, visited, [], post)
    ensures IsReversePostorder(g, Reversed(post))
  {
    ReversedNoRepeats(post);
    forall b: nat ensures b in Reversed(post) <==> Reachable(g, b) {
      ReversedReachable(g, visited, post, b);
    }
    forall k | 0 < k < |post| ensures HasEarlierPredecessor(g, Reversed(post), k) {
      assert post[|post| - 1 - k] != post[|post| - 1];
      ReversedParent(g, visited, post, k);
    }
  }

  lemma WalkFinish(g: Graph, visited: seq<bool>, work: seq<Item>, post: seq<nat>)
    requires WalkOk(g, visited, work, post) && |work| > 0 && work[|work| - 1].1
    ensures WalkOk(g, visited, work[..|work| - 1], post + [work[|work| - 1].0])
  {
    SkipSeen(g, visited, work);
    FinishPost(g, visited, work, post);
    FinishAccounted(visited, work, post);
    PopOk(g, visited, work);
  }

  lemma WalkSkip(g: Graph, visited: seq<bool>, work: seq<Item>, post: seq<nat>)
    requires WalkOk(g, visited, work, post)
    requires |work| > 0 && !work[|work| - 1].1 && visited[work[|work| - 1].0]
    ensures WalkOk(g, visited, work[..|work| - 1], post)
  {
    SkipSeen(g, visited, work);
    SkipAccounted(visited, work, post);
    PopOk(g, visited, work);
  }

  lemma WalkOpen(g: Graph, visited: seq<bool>, work: seq<Item>, post: seq<nat>, work': seq<Item>)
    requires Valid(g) && WalkOk(g, visited, work, post)
    requires |work| > 0 && !work[|work| - 1].1 && !visited[work[|work| - 1].0]
    requires var n := |work| - 1;
             var b := work[n].0;
             && |work| <= |work'| && work'[..|work|] == work[..n] + [(b, true)]
             && (forall k | |work| <= k < |work'| :: !work'[k].1 && work'[k].0 in g.succ[b])
             && (forall t | t in g.succ[b] :: t < |visited| && (visited[b := true][t] || (t, false) in work'))
    ensures WalkOk(g, visited[work[|work| - 1].0 := true], work', post)
  {
    var n := |work| - 1;
    var b := work[n].0;
    TopReachable(g, visited, work);
    assert work == work[..n] + [(b, false)];
    assert work'[..n] == work'[..|work|][..n] == work[..n];
    assert work'[n] == work'[..|work|][n] == (b, true);
    OpenSeen(g, visited, work, work[..n], b, work');
    OpenStack(g, visited, work, b, work');
    OpenPost(g, visited, post, b);
    OpenAccounted(visited, work, post, b, work');
  }

  method ReversePostorder(g: Graph) returns (order: seq<nat>)
    requires Valid(g)
    ensures IsReversePostorder(g, order)
  {
    var visited: seq<bool> := seq(|g.succ|, i => false);
    var postorder: seq<nat> := [];
    var work: seq<Item> := [(0, false)];
    while |work| > 0
      invariant WalkOk(g, visited, work, postorder)
      decreases Unvisited(visited), |work|
    {
      var n := |work| - 1;
      var (block, expanded) := work[n];
      if expanded {
        WalkFinish(g, visited, work, postorder);
        postorder := postorder + [block];
        work := work[..n];
      } else if visited[block] {
        WalkSkip(g, visited, work, postorder);
        work := work[..n];
      } else {
        VisitCounts(visited, block);
        ghost var before, unvisited := work, visited;
        visited := visited[block := true];
        work := PushTargets(visited, g.succ[block], work[..n] + [(block, true)]);
        WalkOpen(g, unvisited, before, postorder, work);
      }
    }
    PostorderReversed(g, visited, postorder);
    order := Reversed(postorder);
  }
}
