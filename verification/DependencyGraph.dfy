/** The mutable dependency graph: how it is built, and the depth-first, Kahn
    and Tarjan loops that run over it. */
module DependencyGraphs {
  import opened Outcomes
  import opened Digraph
  import opened Numbers
  import opened DepthFirst
  import opened Fifo
  import opened EdgeLog
  import opened GraphLoops
  import opened Sorting
  import opened CyclicClasses
  import SC = StrongComponents

  datatype Cycle<K, E> = Cycle(entry: K, rest: seq<K>, closing: E)

  /** `key` keeps its place when it is already a node. */
  function WithNode<K(==)>(keys: seq<K>, key: K): seq<K> {
    if key in keys then keys else keys + [key]
  }

  ghost function IndexIn<K>(keys: seq<K>, key: K): (i: nat)
    requires key in keys
    ensures i < |keys| && keys[i] == key
  {
    var i :| 0 <= i < |keys| && keys[i] == key;
    i
  }

  /** An edge between the nodes that hold the keys `a` and `b`. */
  ghost predicate HasEdge<K>(keys: seq<K>, g: Digraph.Graph, a: K, b: K) {
    exists u: nat, v: nat :: u < |keys| && v < |keys| && keys[u] == a && keys[v] == b && Edge(g, u, v)
  }

  function KeysAt<K>(keys: seq<K>, order: seq<nat>): (r: seq<K>)
    requires forall i :: 0 <= i < |order| ==> order[i] < |keys|
    ensures |r| == |order| && forall i :: 0 <= i < |r| ==> r[i] == keys[order[i]]
  {
    seq(|order|, i requires 0 <= i < |order| => keys[order[i]])
  }

  class DependencyGraph<K(==, !new), E> {
    var keys: seq<K>
    var positions: map<K, nat>
    var dependencies: seq<seq<(nat, E)>>
    var dependents: seq<seq<nat>>
    var edges: set<(nat, nat)>
    /** The recorded edges in the order in which they were recorded. */
    ghost var log: Log<E>

    /** The positions, both adjacency lists and the edge set are determined by
        the node list and the edge log. */
    ghost predicate Valid()
      reads this
    {
      && Distinct(keys)
      && (forall key :: key in positions ==> key in keys)
      && (forall i :: 0 <= i < |keys| ==> keys[i] in positions && positions[keys[i]] == i)
      && WfLog(log, |keys|)
      && dependencies == AdjacencyOf(log, |keys|)
      && dependents == ReverseOf(log, |keys|)
      && (forall u: nat, v: nat :: (u, v) in edges <==> Joins(log, u, v))
    }

    ghost function Graph(): Digraph.Graph
      reads this
    {
      Targets(dependencies)
    }

    /** The node `a` depends on the node `b`. */
    ghost predicate Depends(a: K, b: K)
      reads this
    {
      HasEdge(keys, Graph(), a, b)
    }

    constructor ()
      ensures Valid() && keys == [] && log == [] && Graph() == []
    {
      keys := [];
      positions := map[];
      dependencies := [];
      dependents := [];
      edges := {};
      log := [];
    }

    method PositionOf(key: K) returns (position: nat)
      requires Valid()
      modifies this
      ensures Valid() && log == old(log) && edges == old(edges)
      ensures keys == WithNode(old(keys), key)
      ensures old(keys) <= keys && forall k :: k in keys <==> k in old(keys) || k == key
      ensures position < |keys| && keys[position] == key
      ensures old(dependencies) <= dependencies && forall a, b :: Depends(a, b) <==> old(Depends(a, b))
    {
      hide WfLog, AdjacencyOf, ReverseOf, Joins, HasEdge;
      if key in positions {
        assert key in keys;
        return positions[key];
      }
      NewNodeEdges(keys, log, key);
      position := |keys|;
      positions := positions[key := position];
      keys := keys + [key];
      dependencies := dependencies + [[]];
      dependents := dependents + [[]];
      NodeKeeps(log, position);
    }

    method AddNode(key: K)
      requires Valid()
      modifies this
      ensures Valid() && log == old(log)
      ensures keys == WithNode(old(keys), key)
      ensures old(keys) <= keys && forall k :: k in keys <==> k in old(keys) || k == key
      ensures forall a, b :: Depends(a, b) <==> old(Depends(a, b))
    {
      var _ := PositionOf(key);
    }

    /** The edge is appended to both adjacency lists unless it is recorded. */
    method RecordEdge(u: nat, v: nat, tag: E)
      requires Valid() && u < |keys| && v < |keys|
      modifies this
      ensures Valid() && keys == old(keys)
      ensures old(Edge(Graph(), u, v)) ==>
                log == old(log) && dependencies == old(dependencies) && dependents == old(dependents)
      ensures !old(Edge(Graph(), u, v)) ==>
                && log == old(log) + [Record(u, v, tag)]
                && dependencies == old(dependencies)[u := old(dependencies)[u] + [(v, tag)]]
                && dependents == old(dependents)[v := old(dependents)[v] + [u]]
      ensures forall x: nat, y: nat :: Edge(Graph(), x, y) <==> old(Edge(Graph(), x, y)) || (x == u && y == v)
    {
      hide WfLog, AdjacencyOf, ReverseOf, Joins, Edge, Distinct;
      RecordedEdges(log, |keys|);
      if (u, v) !in edges {
        RecordKeeps(log, |keys|, u, v, tag);
        edges := edges + {(u, v)};
        dependencies := dependencies[u := dependencies[u] + [(v, tag)]];
        dependents := dependents[v := dependents[v] + [u]];
        log := log + [Record(u, v, tag)];
        RecordedEdges(log, |keys|);
      }
    }

    /** The dependent becomes a node before the dependency does. */
    method AddLabelledDependency(dependent: K, dependency: K, tag: E)
      requires Valid()
      modifies this
      ensures Valid()
      ensures keys == WithNode(WithNode(old(keys), dependent), dependency)
      ensures old(keys) <= keys && forall k :: k in keys <==> k in old(keys) || k == dependent || k == dependency
      ensures forall a, b :: Depends(a, b) <==> old(Depends(a, b)) || (a == dependent && b == dependency)
      ensures dependent in keys && dependency in keys
      ensures log == if old(Depends(dependent, dependency)) then old(log)
                     else old(log) + [Record(IndexIn(keys, dependent), IndexIn(keys, dependency), tag)]
      ensures forall x: nat :: x < |old(keys)| ==> old(dependencies)[x] <= dependencies[x]
    {
      hide WithNode, WfLog, AdjacencyOf, ReverseOf, Joins, Edge, HasEdge, Distinct;
      var u := PositionOf(dependent);
      var v := PositionOf(dependency);
      ghost var nodes, before := keys, Graph();
      KeyPlace(nodes, dependent, u);
      KeyPlace(nodes, dependency, v);
      RecordEdge(u, v, tag);
      KeyEdges(nodes, before, Graph(), u, v);
    }

    method AddLabelledDependencyBetween(dependent: K, dependency: K, tag: E) returns (both: bool)
      requires Valid()
      modifies this
      ensures Valid() && keys == old(keys)
      ensures both <==> dependent in keys && dependency in keys
      ensures !both ==> log == old(log) && dependencies == old(dependencies) && dependents == old(dependents)
      ensures both ==> log == if old(Depends(dependent, dependency)) then old(log)
                              else old(log) + [Record(IndexIn(keys, dependent), IndexIn(keys, dependency), tag)]
      ensures forall a, b :: Depends(a, b) <==> old(Depends(a, b)) || (both && a == dependent && b == dependency)
      ensures forall x: nat :: x < |keys| ==> old(dependencies)[x] <= dependencies[x]
    {
      hide WfLog, AdjacencyOf, ReverseOf, Joins, Edge, HasEdge;
      if dependent !in positions || dependency !in positions {
        return false;
      }
      var u, v := positions[dependent], positions[dependency];
      ghost var before := Graph();
      KeyPlace(keys, dependent, u);
      KeyPlace(keys, dependency, v);
      RecordEdge(u, v, tag);
      KeyEdges(keys, before, Graph(), u, v);
      return true;
    }

    /** First-in first-out order, or the cycle that the depth-first search
        reports. */
    method IntoTopoOrder() returns (r: Result<seq<K>, Cycle<K, E>>)
      requires Valid()
      ensures r.Ok? <==> Acyclic(Graph())
      ensures r.Ok? ==> exists order :: FifoOrder(Graph(), dependents, order) && Names(keys, order, r.value)
      ensures r.Err? ==> ReportedCycle(keys, log, r.error)
    {
      ghost var g := Graph();
      assert WfAdjacency(dependencies) && Mirror(g, dependents) by {
        ProjectionsAgree(log, |keys|);
      }
      var found := DepthFirstIndices(dependencies);
      SearchOutcome(log, keys, found);
      hide Valid;
      match found
      case Err(cycle) =>
        return Err(CycleFromIndices(keys, cycle));
      case Ok(postOrder) =>
        var rank := KahnRanks(dependencies, dependents, postOrder);
        var ranked := Sort(Zip(rank, keys), RankAtMost);
        RankSort(g, dependents, rank, keys);
        return Ok(Seconds(ranked));
    }

    /** Depth-first post-order, or the cycle that closes the search. */
    method IntoDepthFirstOrder() returns (r: Result<seq<K>, Cycle<K, E>>)
      requires Valid()
      ensures r.Ok? <==> Acyclic(Graph())
      ensures r.Ok? ==> exists order :: PostOrder(dependencies, order) && Names(keys, order, r.value)
      ensures r.Err? ==> ReportedCycle(keys, log, r.error)
    {
      assert WfAdjacency(dependencies) by {
        ProjectionsAgree(log, |keys|);
      }
      var found := DepthFirstIndices(dependencies);
      SearchOutcome(log, keys, found);
      hide Valid;
      match found
      case Err(cycle) =>
        return Err(CycleFromIndices(keys, cycle));
      case Ok(postOrder) =>
        var order := TakeKeys(keys, postOrder);
        return Ok(order);
    }

    /** The classes of mutual reachability that contain a cycle. */
    method CyclicComponents() returns (components: seq<seq<K>>)
      requires Valid()
      ensures exists list :: CyclicClassList(Graph(), list) && |components| == |list| &&
                             forall k :: 0 <= k < |list| ==> Names(keys, list[k], components[k])
    {
      ghost var g := Graph();
      assert WfAdjacency(dependencies) && forall v: nat :: (v, v) in edges <==> Edge(g, v, v) by {
        ProjectionsAgree(log, |keys|);
      }
      assert |keys| == |g|;
      hide Valid;
      hide Kept, Edge, SC.Placed, OnCycle, SC.IsClass, Increasing;
      var all := ComponentIndices(dependencies);
      KeepNone(g, all);
      var kept: seq<seq<nat>> := [];
      for n := 0 to |all|
        invariant Kept(g, all, n, kept)
      {
        ClassNodes(g, all[n]);
        KeepNext(g, all, n, kept);
        if |all[n]| != 1 || (all[n][0], all[n][0]) in edges {
          kept := kept + [Sort(all[n], AtMost)];
        }
      }
      KeptAll(g, all, kept);
      SortKept(g, kept);
      ghost var list := Sort(kept, FirstAtMost);
      var sorted := Sort(kept, FirstAtMost);
      components := [];
      for k := 0 to |sorted|
        invariant |components| == k
        invariant forall j :: 0 <= j < k ==> Names(keys, sorted[j], components[j])
      {
        ClassNodes(g, sorted[k]);
        components := components + [KeysAt(keys, sorted[k])];
      }
    }
  }

  // Reading results back as keys

  /** `named` lists the keys of the nodes `order`. */
  ghost predicate Names<K>(keys: seq<K>, order: seq<nat>, named: seq<K>) {
    |named| == |order| && forall i :: 0 <= i < |order| ==> order[i] < |keys| && named[i] == keys[order[i]]
  }

  ghost predicate PostOrder<E>(d: Adjacency<E>, order: seq<nat>) {
    && WfAdjacency(d) && DepthFirstSearch(d) == Finished(order)
    && TopologicalOrder(Targets(d), order) && GreedyPostOrder(Targets(d), order)
  }

  /** The reported keys name the cycle that the depth-first search closes, and
      the closing label is that of the recorded edge back to the entry. */
  ghost predicate ReportedCycle<K, E>(keys: seq<K>, log: Log<E>, c: Cycle<K, E>) {
    exists entry, rest ::
      && ClosesCycle(AdjacencyOf(log, |keys|), entry, rest, c.closing)
      && Names(keys, [entry] + rest, [c.entry] + c.rest)
      && Record(([entry] + rest)[|rest|], entry, c.closing) in log
  }

  ghost predicate ClosesCycle<E>(d: Adjacency<E>, entry: nat, rest: seq<nat>, closing: E) {
    && WfAdjacency(d)
    && DepthFirstSearch(d) == Reentered(entry, rest, closing)
    && SimpleCycle(Targets(d), [entry] + rest) && Greedy(d, Reentered(entry, rest, closing))
  }

  function CycleFromIndices<K, E>(keys: seq<K>, cycle: IndexCycle<E>): Cycle<K, E>
    requires cycle.entry < |keys| && forall i :: 0 <= i < |cycle.rest| ==> cycle.rest[i] < |keys|
  {
    Cycle(keys[cycle.entry], KeysAt(keys, cycle.rest), cycle.closing)
  }

  lemma CycleNodes(g: Digraph.Graph, c: seq<nat>)
    requires SimpleCycle(g, c)
    ensures c != [] && forall i :: 0 <= i < |c| ==> c[i] < |g|
  {
  }

  lemma ClassNodes(g: Digraph.Graph, c: seq<nat>)
    requires SC.IsClass(g, c)
    ensures c != [] && forall i :: 0 <= i < |c| ==> c[i] < |g|
  {
    assert forall i :: 0 <= i < |c| ==> c[i] in c;
  }

  lemma CycleOutcome<K, E>(log: Log<E>, keys: seq<K>, c: IndexCycle<E>)
    requires WfAdjacency(AdjacencyOf(log, |keys|))
    requires DepthFirstSearch(AdjacencyOf(log, |keys|)) == Reentered(c.entry, c.rest, c.closing)
    requires ReportsCycle(AdjacencyOf(log, |keys|), Reentered(c.entry, c.rest, c.closing))
    ensures c.entry < |keys| && forall i :: 0 <= i < |c.rest| ==> c.rest[i] < |keys|
    ensures ReportedCycle(keys, log, CycleFromIndices(keys, c))
  {
    hide SimpleCycle, DepthFirstSearch, WfAdjacency, DependenciesIn, Names, AdjacencyOf, KeysAt, Greedy;
    var d := AdjacencyOf(log, |keys|);
    DepthFirstSearchGreedy(d);
    var p := [c.entry] + c.rest;
    CycleNodes(Targets(d), p);
    NodesBelow(p, c.entry, c.rest, |keys|);
    LabelRecorded(log, |keys|, p[|c.rest|], c.entry, c.closing);
    CycleNamed(keys, c);
    assert ClosesCycle(d, c.entry, c.rest, c.closing);
  }

  lemma NodesBelow(p: seq<nat>, entry: nat, rest: seq<nat>, n: nat)
    requires p == [entry] + rest && forall i :: 0 <= i < |p| ==> p[i] < n
    ensures entry < n && forall i :: 0 <= i < |rest| ==> rest[i] < n
  {
    assert p[0] == entry && forall i :: 0 <= i < |rest| ==> p[i + 1] == rest[i];
  }

  lemma CycleNamed<K, E>(keys: seq<K>, c: IndexCycle<E>)
    requires c.entry < |keys| && forall i :: 0 <= i < |c.rest| ==> c.rest[i] < |keys|
    ensures var r := CycleFromIndices(keys, c); Names(keys, [c.entry] + c.rest, [r.entry] + r.rest)
  {
  }

  /** What the outcome of the depth-first loop means for the graph. */
  lemma SearchOutcome<K, E>(log: Log<E>, keys: seq<K>, found: Result<seq<nat>, IndexCycle<E>>)
    requires WfLog(log, |keys|) && SearchReturns(AdjacencyOf(log, |keys|), found)
    ensures found.Ok? <==> Acyclic(Targets(AdjacencyOf(log, |keys|)))
    ensures found.Ok? ==> PostOrder(AdjacencyOf(log, |keys|), found.value)
    ensures found.Err? ==>
              var c := found.error;
              && c.entry < |keys| && (forall i :: 0 <= i < |c.rest| ==> c.rest[i] < |keys|)
              && ReportedCycle(keys, log, CycleFromIndices(keys, c))
  {
    hide Acyclic, TopologicalOrder, DepthFirstSearch, WfLog, WfAdjacency, ReportsCycle, ReportedCycle, GreedyPostOrder;
    DepthFirstSearchCorrect(AdjacencyOf(log, |keys|));
    DepthFirstSearchGreedy(AdjacencyOf(log, |keys|));
    if found.Err? {
      CycleOutcome(log, keys, found.error);
    }
  }

  /** Move the keys out in the given order; no key is asked for twice. */
  method TakeKeys<K>(keys: seq<K>, order: seq<nat>) returns (taken: seq<K>)
    requires Permutation(|keys|, order)
    ensures Names(keys, order, taken)
  {
    var slots := seq(|keys|, i requires 0 <= i < |keys| => Some(keys[i]));
    taken := [];
    for i := 0 to |order|
      invariant |taken| == i && |slots| == |keys|
      invariant forall j :: 0 <= j < i ==> order[j] < |keys| && taken[j] == keys[order[j]]
      invariant forall v: nat :: v < |keys| && v !in order[..i] ==> slots[v] == Some(keys[v])
    {
      var node := order[i];
      PermutationNode(|keys|, order, i);
      assert order[..i + 1] == order[..i] + [node];
      if slots[node].Some? {
        taken := taken + [slots[node].value];
        slots := slots[node := None];
      }
    }
  }

  // Sorting keys by rank

  function Zip<K>(rank: seq<nat>, keys: seq<K>): (z: seq<(nat, K)>)
    requires |rank| == |keys|
    ensures |z| == |keys| && forall i :: 0 <= i < |z| ==> z[i] == (rank[i], keys[i])
  {
    seq(|keys|, i requires 0 <= i < |keys| => (rank[i], keys[i]))
  }

  function Seconds<K>(ranked: seq<(nat, K)>): (s: seq<K>)
    ensures |s| == |ranked| && forall i :: 0 <= i < |s| ==> s[i] == ranked[i].1
  {
    seq(|ranked|, i requires 0 <= i < |ranked| => ranked[i].1)
  }

  predicate RankAtMost<K>(a: (nat, K), b: (nat, K)) {
    a.0 <= b.0
  }

  /** Sorting by emission rank restores the emission order. */
  lemma RankSort<K(!new)>(g: Digraph.Graph, h: Digraph.Graph, rank: seq<nat>, keys: seq<K>)
    requires RanksFifo(g, h, rank) && |g| == |keys|
    ensures |rank| == |keys|
    ensures exists order :: FifoOrder(g, h, order) && Names(keys, order, Seconds(Sort(Zip(rank, keys), RankAtMost)))
  {
    var order :| FifoOrder(g, h, order) && |rank| == |order| && Ranked(rank, order);
    hide FifoOrder, Sort;
    var z := Zip(rank, keys);
    var t: seq<(nat, K)> := seq(|order|, r requires 0 <= r < |order| => assert order[r] in order; (r, keys[order[r]]));
    RankedMembers(rank, keys, order, z, t);
    SortCorrect(z, RankAtMost);
    DistinctSameMembers(z, t);
    SortedUnique(t, Sort(z, RankAtMost), RankAtMost);
  }

  /** Zipping keys with ranks and listing keys by rank gives the same pairs. */
  lemma RankedMembers<K(!new)>(rank: seq<nat>, keys: seq<K>, order: seq<nat>, z: seq<(nat, K)>, t: seq<(nat, K)>)
    requires Digraph.Permutation(|keys|, order) && |rank| == |order| && Ranked(rank, order) && |keys| == |rank|
    requires z == Zip(rank, keys) && |t| == |order|
    requires forall r :: 0 <= r < |order| ==> order[r] < |keys| && t[r] == (r, keys[order[r]])
    ensures forall x :: x in z <==> x in t
    ensures forall i, j :: 0 <= i < j < |z| ==> z[i] != z[j]
  {
    forall x
      ensures x in z <==> x in t
    {
      if x in z {
        var i :| 0 <= i < |z| && z[i] == x;
        assert i in order;
        var r :| 0 <= r < |order| && order[r] == i;
        assert t[r] == x;
      }
      if x in t {
        var r :| 0 <= r < |t| && t[r] == x;
        assert z[order[r]] == x;
      }
    }
    forall i, j | 0 <= i < j < |z|
      ensures z[i] != z[j]
    {
      assert i in order && j in order;
    }
  }

  // Recording edges

  lemma KeyPlace<K>(keys: seq<K>, key: K, i: nat)
    requires Distinct(keys) && i < |keys| && keys[i] == key
    ensures key in keys && IndexIn(keys, key) == i
  {
  }

  /** One more edge between nodes is one more edge between their keys. */
  lemma KeyEdges<K(!new)>(keys: seq<K>, before: Digraph.Graph, after: Digraph.Graph, u: nat, v: nat)
    requires Distinct(keys) && u < |keys| && v < |keys|
    requires forall x: nat, y: nat :: Edge(after, x, y) <==> Edge(before, x, y) || (x == u && y == v)
    ensures forall a, b :: HasEdge(keys, after, a, b) <==> HasEdge(keys, before, a, b) || (a == keys[u] && b == keys[v])
    ensures HasEdge(keys, before, keys[u], keys[v]) <==> Edge(before, u, v)
  {
    hide Edge;
    forall a, b
      ensures HasEdge(keys, after, a, b) <==> HasEdge(keys, before, a, b) || (a == keys[u] && b == keys[v])
    {
      if HasEdge(keys, after, a, b) {
        var x: nat, y: nat :| x < |keys| && y < |keys| && keys[x] == a && keys[y] == b && Edge(after, x, y);
        assert Edge(before, x, y) || (x == u && y == v);
      }
      if HasEdge(keys, before, a, b) {
        var x: nat, y: nat :| x < |keys| && y < |keys| && keys[x] == a && keys[y] == b && Edge(before, x, y);
        assert Edge(after, x, y);
      }
      if a == keys[u] && b == keys[v] {
        assert Edge(after, u, v);
      }
    }
  }

  /** The adjacency lists have exactly the recorded edges. */
  lemma RecordedEdges<E>(log: Log<E>, n: nat)
    requires WfLog(log, n)
    ensures forall u: nat, v: nat :: Edge(Targets(AdjacencyOf(log, n)), u, v) <==> Joins(log, u, v)
  {
    ProjectionsAgree(log, n);
  }

  /** A node without edges adds none. */
  lemma NewNodeEdges<K(!new), E>(keys: seq<K>, log: Log<E>, key: K)
    requires WfLog(log, |keys|)
    ensures var more := keys + [key];
            && WfLog(log, |more|)
            && forall a, b :: HasEdge(more, Targets(AdjacencyOf(log, |more|)), a, b)
                              <==> HasEdge(keys, Targets(AdjacencyOf(log, |keys|)), a, b)
  {
    hide AdjacencyOf, Edge;
    var more := keys + [key];
    var g, h := Targets(AdjacencyOf(log, |keys|)), Targets(AdjacencyOf(log, |more|));
    RecordedEdges(log, |keys|);
    RecordedEdges(log, |more|);
    forall a, b
      ensures HasEdge(more, h, a, b) <==> HasEdge(keys, g, a, b)
    {
      if HasEdge(more, h, a, b) {
        var x: nat, y: nat :| x < |more| && y < |more| && more[x] == a && more[y] == b && Edge(h, x, y);
        assert Joins(log, x, y);
        assert Edge(g, x, y) && x < |keys| && y < |keys|;
      }
      if HasEdge(keys, g, a, b) {
        var x: nat, y: nat :| x < |keys| && y < |keys| && keys[x] == a && keys[y] == b && Edge(g, x, y);
        assert more[x] == a && more[y] == b && Edge(h, x, y);
      }
    }
  }

  lemma {:induction false} NoRecord<E>(log: Log<E>, n: nat)
    requires WfLog(log, n)
    ensures DependenciesIn(log, n) == [] && DependentsIn(log, n) == []
  {
    if log != [] {
      NoRecord(log[..|log| - 1], n);
    }
  }

  /** A new node is in no record. */
  lemma NodeKeeps<E>(log: Log<E>, n: nat)
    requires WfLog(log, n)
    ensures WfLog(log, n + 1)
    ensures AdjacencyOf(log, n + 1) == AdjacencyOf(log, n) + [[]] && ReverseOf(log, n + 1) == ReverseOf(log, n) + [[]]
  {
    NoRecord(log, n);
  }

  /** One more record appends one entry to one list of each projection. */
  lemma RecordKeeps<E>(log: Log<E>, n: nat, u: nat, v: nat, tag: E)
    requires WfLog(log, n) && u < n && v < n && !Joins(log, u, v)
    ensures var after := log + [Record(u, v, tag)];
            && WfLog(after, n)
            && AdjacencyOf(after, n) == AdjacencyOf(log, n)[u := DependenciesIn(log, u) + [(v, tag)]]
            && ReverseOf(after, n) == ReverseOf(log, n)[v := DependentsIn(log, v) + [u]]
            && forall x: nat, y: nat :: Joins(after, x, y) <==> Joins(log, x, y) || (x == u && y == v)
  {
    hide DependenciesIn, DependentsIn, Joins;
    var after := log + [Record(u, v, tag)];
    forall x: nat
      ensures DependenciesIn(after, x) == if x == u then DependenciesIn(log, u) + [(v, tag)] else DependenciesIn(log, x)
      ensures DependentsIn(after, x) == if x == v then DependentsIn(log, v) + [u] else DependentsIn(log, x)
    {
      RecordProjections(log, u, v, tag, x);
    }
    forall x: nat, y: nat
      ensures Joins(after, x, y) <==> Joins(log, x, y) || (x == u && y == v)
    {
      RecordJoins(log, u, v, tag, x, y);
    }
    assert AdjacencyOf(after, n) == AdjacencyOf(log, n)[u := DependenciesIn(log, u) + [(v, tag)]];
    assert ReverseOf(after, n) == ReverseOf(log, n)[v := DependentsIn(log, v) + [u]];
    RecordWf(log, n, u, v, tag);
  }

  lemma RecordWf<E>(log: Log<E>, n: nat, u: nat, v: nat, tag: E)
    requires WfLog(log, n) && u < n && v < n && !Joins(log, u, v)
    ensures WfLog(log + [Record(u, v, tag)], n)
  {
    assert (log + [Record(u, v, tag)])[..|log|] == log;
  }

  lemma RecordProjections<E>(log: Log<E>, u: nat, v: nat, tag: E, x: nat)
    ensures var after := log + [Record(u, v, tag)];
            && DependenciesIn(after, x)
               == (if x == u then DependenciesIn(log, u) + [(v, tag)] else DependenciesIn(log, x))
            && DependentsIn(after, x) == (if x == v then DependentsIn(log, v) + [u] else DependentsIn(log, x))
  {
    assert (log + [Record(u, v, tag)])[..|log|] == log;
  }

  lemma RecordJoins<E>(log: Log<E>, u: nat, v: nat, tag: E, x: nat, y: nat)
    ensures Joins(log + [Record(u, v, tag)], x, y) <==> Joins(log, x, y) || (x == u && y == v)
  {
    var after := log + [Record(u, v, tag)];
    if Joins(log, x, y) {
      var i :| 0 <= i < |log| && log[i].dependent == x && log[i].dependency == y;
      assert after[i] == log[i];
    }
    if x == u && y == v {
      assert after[|log|].dependent == x;
    }
  }
}
