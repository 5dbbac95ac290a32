/** Directed graphs by successor lists: walks, reachability, cycles, orders and
    strongly connected classes. Everything here is about `seq<seq<nat>>`, the
    shape of the adjacency lists of `DependencyGraph`. An edge runs from a
    dependent to one of its dependencies. */
module Digraph {
  type Graph = seq<seq<nat>>

  ghost predicate Wf(g: Graph) {
    forall u, v: nat :: 0 <= u < |g| && v in g[u] ==> v < |g|
  }

  ghost predicate Edge(g: Graph, u: nat, v: nat) {
    u < |g| && v < |g| && v in g[u]
  }

  /** A non-empty sequence of nodes, each with an edge to the next. */
  ghost predicate Walk(g: Graph, p: seq<nat>) {
    && p != []
    && (forall i :: 0 <= i < |p| ==> p[i] < |g|)
    && (forall i, j :: 0 <= i && j == i + 1 < |p| ==> Edge(g, p[i], p[j]))
  }

  ghost predicate WalkBetween(g: Graph, p: seq<nat>, u: nat, v: nat) {
    Walk(g, p) && p[0] == u && p[|p| - 1] == v
  }

  /** Reflexive-transitive reachability along edges. */
  ghost predicate Reach(g: Graph, u: nat, v: nat) {
    exists p :: WalkBetween(g, p, u, v)
  }

  ghost predicate Mutual(g: Graph, u: nat, v: nat) {
    Reach(g, u, v) && Reach(g, v, u)
  }

  lemma ReachRefl(g: Graph, u: nat)
    requires u < |g|
    ensures Reach(g, u, u)
  {
    assert WalkBetween(g, [u], u, u);
  }

  lemma ReachTrans(g: Graph, u: nat, v: nat, w: nat)
    requires Reach(g, u, v) && Reach(g, v, w)
    ensures Reach(g, u, w)
  {
    var p :| WalkBetween(g, p, u, v);
    var q :| WalkBetween(g, q, v, w);
    var r := p + q[1..];
    forall i, j | 0 <= i && j == i + 1 < |r|
      ensures Edge(g, r[i], r[j])
    {
      if j >= |p| {
        assert r[j] == q[j - |p| + 1] && r[i] == q[i - |p| + 1];
      }
    }
    assert WalkBetween(g, r, u, w);
  }

  lemma ReachEdge(g: Graph, u: nat, v: nat)
    requires Edge(g, u, v)
    ensures Reach(g, u, v)
  {
    assert WalkBetween(g, [u, v], u, v);
  }

  /** Reachability stays inside any set of nodes closed under edges. */
  lemma ReachClosed(g: Graph, s: set<nat>, u: nat, v: nat)
    requires forall x: nat, y: nat :: x in s && Edge(g, x, y) ==> y in s
    requires u in s && Reach(g, u, v)
    ensures v in s
  {
    var p :| WalkBetween(g, p, u, v);
    var i := 0;
    while i < |p| - 1
      invariant 0 <= i < |p| && p[i] in s
    {
      assert Edge(g, p[i], p[i + 1]);
      i := i + 1;
    }
  }

  lemma ReachNodes(g: Graph, u: nat, v: nat)
    requires Reach(g, u, v)
    ensures u < |g| && v < |g|
  {
    var p :| WalkBetween(g, p, u, v);
  }

  /** Every node of a walk is reached from its start and reaches its end. */
  lemma WalkReach(g: Graph, p: seq<nat>, i: nat, j: nat)
    requires Walk(g, p) && i <= j < |p|
    ensures Reach(g, p[i], p[j])
  {
    var q := p[i..j + 1];
    assert forall k :: 0 <= k < |q| ==> q[k] == p[i + k];
    assert WalkBetween(g, q, p[i], p[j]);
  }

  // Cycles and orders

  ghost predicate OnCycle(g: Graph, v: nat) {
    exists w: nat :: Edge(g, v, w) && Reach(g, w, v)
  }

  ghost predicate Acyclic(g: Graph) {
    forall v: nat :: !OnCycle(g, v)
  }

  ghost predicate Distinct<T>(s: seq<T>) {
    forall i, j :: 0 <= i < j < |s| ==> s[i] != s[j]
  }

  /** A simple cycle: distinct nodes, each depending on the next, the last on
      the first. */
  ghost predicate SimpleCycle(g: Graph, c: seq<nat>) {
    Walk(g, c) && Distinct(c) && Edge(g, c[|c| - 1], c[0])
  }

  /** All nodes, each once. */
  ghost predicate Permutation(n: nat, order: seq<nat>) {
    |order| == n && Distinct(order) && forall v: nat :: v < n <==> v in order
  }

  /** Every listed node is listed after all of its dependencies. */
  ghost predicate DependenciesFirst(g: Graph, order: seq<nat>) {
    forall j, v: nat :: 0 <= j < |order| && Edge(g, order[j], v) ==> v in order[..j]
  }

  ghost predicate TopologicalOrder(g: Graph, order: seq<nat>) {
    Permutation(|g|, order) && DependenciesFirst(g, order)
  }

  lemma CycleNodesMutual(g: Graph, c: seq<nat>, i: nat, j: nat)
    requires Walk(g, c) && Edge(g, c[|c| - 1], c[0]) && i < |c| && j < |c|
    ensures Reach(g, c[i], c[j])
  {
    if i <= j {
      WalkReach(g, c, i, j);
    } else {
      WalkReach(g, c, i, |c| - 1);
      ReachEdge(g, c[|c| - 1], c[0]);
      WalkReach(g, c, 0, j);
      ReachTrans(g, c[i], c[|c| - 1], c[0]);
      ReachTrans(g, c[i], c[0], c[j]);
    }
  }

  lemma SimpleCycleOnCycle(g: Graph, c: seq<nat>)
    requires SimpleCycle(g, c)
    ensures forall i :: 0 <= i < |c| ==> OnCycle(g, c[i])
    ensures !Acyclic(g)
  {
    forall i | 0 <= i < |c|
      ensures OnCycle(g, c[i])
    {
      var next := if i + 1 < |c| then i + 1 else 0;
      CycleNodesMutual(g, c, next, i);
    }
    assert OnCycle(g, c[0]);
  }

  /** A prefix of an order lists every dependency of its nodes. */
  lemma OrderPrefixClosed(g: Graph, order: seq<nat>, k: nat, u: nat, v: nat)
    requires DependenciesFirst(g, order) && k <= |order|
    requires u in order[..k] && Reach(g, u, v)
    ensures v in order[..k]
  {
    var s := set x: nat | x in order[..k];
    forall x: nat, y: nat | x in s && Edge(g, x, y)
      ensures y in s
    {
      var j :| 0 <= j < k && order[j] == x;
      assert y in order[..j];
      assert order[..j] <= order[..k];
    }
    ReachClosed(g, s, u, v);
  }

  lemma TopologicalOrderAcyclic(g: Graph, order: seq<nat>)
    requires TopologicalOrder(g, order)
    ensures Acyclic(g)
  {
    forall v: nat
      ensures !OnCycle(g, v)
    {
      if OnCycle(g, v) {
        var w :| Edge(g, v, w) && Reach(g, w, v);
        assert v in order;
        var j :| 0 <= j < |order| && order[j] == v;
        OrderPrefixClosed(g, order, j, w, v);
        assert false;
      }
    }
  }

  // Counting

  function Below(n: nat): (s: set<nat>)
    ensures |s| == n
    ensures forall v: nat :: v in s <==> v < n
  {
    if n == 0 then {} else Below(n - 1) + {n - 1}
  }

  ghost function Members(s: seq<nat>): set<nat> {
    set v: nat | v in s
  }

  /** Distinct numbers below `n` number at most `n`, and fewer when one is
      missing. */
  lemma DistinctBound(s: seq<nat>, n: nat)
    requires Distinct(s) && forall v: nat :: v in s ==> v < n
    ensures |s| <= n
    ensures |s| == n ==> forall v: nat :: v < n ==> v in s
  {
    SeqCardinality(s);
    SubsetCardinality(Members(s), Below(n));
    assert forall v: nat :: v in Members(s) <==> v in s;
  }

  lemma SubsetCardinality<T>(a: set<T>, b: set<T>)
    requires a <= b
    ensures |a| <= |b|
    ensures |a| == |b| ==> a == b
  {
    assert a + (b - a) == b;
    assert |a| + |b - a| == |b|;
  }

  lemma {:induction false} SeqCardinality(s: seq<nat>)
    requires Distinct(s)
    ensures |Members(s)| == |s|
  {
    if s == [] {
      assert Members(s) == {};
    } else {
      var k := |s| - 1;
      SeqCardinality(s[..k]);
      assert s == s[..k] + [s[k]];
      assert s[k] !in s[..k];
      assert Members(s) == Members(s[..k]) + {s[k]};
    }
  }

  lemma AllListed(s: seq<nat>, n: nat)
    requires Distinct(s) && forall v: nat :: v in s <==> v < n
    ensures |s| == n
  {
    SeqCardinality(s);
    assert Members(s) == Below(n);
  }

  lemma PermutationNode(n: nat, order: seq<nat>, i: nat)
    requires Permutation(n, order) && i < |order|
    ensures order[i] < n
  {
    assert order[i] in order;
  }
}
