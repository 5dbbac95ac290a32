/** Depth-first search as a recursive function: the reference that the
    explicit-stack search of `DependencyGraph` is proved to compute, and what
    this reference order or cycle means. */
module DepthFirst {
  import opened Digraph

  /** For each node, its dependencies and the labels of the edges. */
  type Adjacency<E> = seq<seq<(nat, E)>>

  function Firsts<E>(edges: seq<(nat, E)>): (t: seq<nat>)
    ensures |t| == |edges|
    ensures forall i :: 0 <= i < |t| ==> t[i] == edges[i].0
  {
    seq(|edges|, i requires 0 <= i < |edges| => edges[i].0)
  }

  function Targets<E>(d: Adjacency<E>): (g: Graph)
    ensures |g| == |d|
    ensures forall u :: 0 <= u < |g| ==> g[u] == Firsts(d[u])
  {
    seq(|d|, u requires 0 <= u < |d| => Firsts(d[u]))
  }

  ghost predicate WfAdjacency<E>(d: Adjacency<E>) {
    forall u, i :: 0 <= u < |d| && 0 <= i < |d[u]| ==> d[u][i].0 < |d|
  }

  lemma TargetsEdge<E>(d: Adjacency<E>, u: nat, i: nat)
    requires WfAdjacency(d) && u < |d| && i < |d[u]|
    ensures Edge(Targets(d), u, d[u][i].0)
  {
    assert Firsts(d[u])[i] == d[u][i].0;
  }

  lemma TargetsWf<E>(d: Adjacency<E>)
    requires WfAdjacency(d)
    ensures Wf(Targets(d))
  {
    forall u, v: nat | 0 <= u < |d| && v in Targets(d)[u]
      ensures v < |d|
    {
      var i :| 0 <= i < |d[u]| && Firsts(d[u])[i] == v;
    }
  }

  /** A finished order, or the cycle that an edge labelled `closing` closes. */
  datatype Search<E> = Finished(order: seq<nat>) | Reentered(entry: nat, rest: seq<nat>, closing: E)

  /** What every search step is given: a path of distinct nodes none of which
      is finished. */
  ghost predicate Searching<E>(d: Adjacency<E>, path: seq<nat>, done: seq<nat>) {
    && WfAdjacency(d)
    && Distinct(path)
    && (forall v: nat :: v in path ==> v < |d|)
    && (forall v: nat :: v in path ==> v !in done)
  }

  ghost function PositionIn(path: seq<nat>, v: nat): (k: nat)
    requires v in path
    ensures k < |path| && path[k] == v
  {
    var k :| 0 <= k < |path| && path[k] == v;
    k
  }

  lemma PathTop(path: seq<nat>)
    requires Distinct(path) && path != []
    ensures path[|path| - 1] !in path[..|path| - 1] && Distinct(path[..|path| - 1])
    ensures forall v: nat :: v in path <==> v in path[..|path| - 1] || v == path[|path| - 1]
  {
    assert path == path[..|path| - 1] + [path[|path| - 1]];
  }

  lemma EmitTop<E>(d: Adjacency<E>, path: seq<nat>, done: seq<nat>)
    requires Searching(d, path, done) && path != []
    ensures Searching(d, path[..|path| - 1], done + [path[|path| - 1]])
  {
    PathTop(path);
    var rest := path[..|path| - 1];
    forall u: nat | u in rest
      ensures u < |d| && u !in done + [path[|path| - 1]]
    {
      assert u in path && u != path[|path| - 1] && u !in done;
    }
  }

  lemma PrefixMember(s: seq<nat>, t: seq<nat>, v: nat)
    requires s <= t && v in s
    ensures v in t
  {
    var i :| 0 <= i < |s| && s[i] == v;
    assert t[i] == v;
  }

  /** Follow the edge to `v` from the end of `path`. */
  ghost function Visit<E>(d: Adjacency<E>, v: nat, tag: E, path: seq<nat>, done: seq<nat>): (r: Search<E>)
    requires Searching(d, path, done) && v < |d|
    ensures r.Finished? ==> Searching(d, path, r.order)
    decreases |d| - |path|, 0
  {
    if v in path then
      Reentered(v, path[PositionIn(path, v) + 1..], tag)
    else if v in done then
      Finished(done)
    else
      DistinctBound(path + [v], |d|);
      assert (path + [v])[..|path|] == path;
      Explore(d, v, 0, path + [v], done)
  }

  /** Visit the dependencies of `v`, the end of `path`, from position `cursor`
      on, then emit `v`. */
  ghost function Explore<E>(d: Adjacency<E>, v: nat, cursor: nat, path: seq<nat>, done: seq<nat>): (r: Search<E>)
    requires Searching(d, path, done) && v < |d| && cursor <= |d[v]|
    requires path != [] && path[|path| - 1] == v
    ensures r.Finished? ==> Searching(d, path[..|path| - 1], r.order)
    decreases |d| - |path|, |d[v]| - cursor
  {
    DistinctBound(path, |d|);
    PathTop(path);
    if cursor == |d[v]| then
      EmitTop(d, path, done);
      Finished(done + [v])
    else
      var r := Visit(d, d[v][cursor].0, d[v][cursor].1, path, done);
      if r.Finished? then Explore(d, v, cursor + 1, path, r.order) else r
  }

  /** Search from every node from `root` on that is not finished yet. */
  ghost function SearchFrom<E>(d: Adjacency<E>, root: nat, done: seq<nat>): Search<E>
    requires WfAdjacency(d) && root <= |d|
    decreases |d| - root
  {
    if root == |d| then
      Finished(done)
    else if root in done then
      SearchFrom(d, root + 1, done)
    else
      var r := Explore(d, root, 0, [root], done);
      if r.Finished? then SearchFrom(d, root + 1, r.order) else r
  }

  /** Roots in node order, dependencies in edge order, dependencies emitted
      first. */
  ghost function DepthFirstSearch<E>(d: Adjacency<E>): Search<E>
    requires WfAdjacency(d)
  {
    SearchFrom(d, 0, [])
  }

  // What a search step returns

  ghost predicate Emitted(g: Graph, done: seq<nat>) {
    && Distinct(done)
    && (forall v: nat :: v in done ==> v < |g|)
    && DependenciesFirst(g, done)
  }

  /** The cycle ends with an edge whose recorded label is the reported one. */
  ghost predicate ReportsCycle<E>(d: Adjacency<E>, r: Search<E>)
    requires r.Reentered?
  {
    var c := [r.entry] + r.rest;
    && SimpleCycle(Targets(d), c)
    && c[|c| - 1] < |d|
    && (r.entry, r.closing) in d[c[|c| - 1]]
  }

  /** `r` extends the finished nodes `done` by nodes reachable from `v`, with
      `v` last, or reports a cycle. */
  ghost predicate Extends<E>(d: Adjacency<E>, r: Search<E>, v: nat, path: seq<nat>, done: seq<nat>) {
    match r
    case Finished(order) =>
      && done <= order
      && Emitted(Targets(d), order)
      && (forall u: nat :: u in path ==> u !in order)
      && v in order
      && (forall u: nat :: u in order && u !in done ==> Reach(Targets(d), v, u))
    case Reentered(_, _, _) => ReportsCycle(d, r)
  }

  lemma StepEdge<E>(d: Adjacency<E>, u: nat, v: nat, tag: E)
    requires WfAdjacency(d) && u < |d| && (v, tag) in d[u]
    ensures Edge(Targets(d), u, v)
  {
    var i :| 0 <= i < |d[u]| && d[u][i] == (v, tag);
    TargetsEdge(d, u, i);
  }

  lemma ReentryCloses<E>(d: Adjacency<E>, v: nat, tag: E, path: seq<nat>)
    requires WfAdjacency(d) && Distinct(path) && Walk(Targets(d), path) && v in path
    requires path[|path| - 1] < |d| && (v, tag) in d[path[|path| - 1]]
    ensures ReportsCycle(d, Reentered(v, path[PositionIn(path, v) + 1..], tag))
  {
    var k := PositionIn(path, v);
    var c := path[k..];
    StepEdge(d, path[|path| - 1], v, tag);
    assert [v] + path[k + 1..] == c;
    assert forall j :: 0 <= j < |c| ==> c[j] == path[k + j];
  }

  lemma {:induction false} VisitExtends<E>(d: Adjacency<E>, v: nat, tag: E, path: seq<nat>, done: seq<nat>)
    requires Searching(d, path, done) && v < |d|
    requires path != [] && Walk(Targets(d), path) && Emitted(Targets(d), done)
    requires (v, tag) in d[path[|path| - 1]]
    ensures Extends(d, Visit(d, v, tag, path, done), v, path, done)
    decreases |d| - |path|, 0
  {
    var g := Targets(d);
    StepEdge(d, path[|path| - 1], v, tag);
    if v in path {
      ReentryCloses(d, v, tag, path);
    } else if v in done {
      ReachRefl(g, v);
    } else {
      DistinctBound(path + [v], |d|);
      ExploreExtends(d, v, 0, path + [v], done);
    }
  }

  lemma EmitAfterDependencies<E>(d: Adjacency<E>, v: nat, done: seq<nat>)
    requires WfAdjacency(d) && v < |d| && Emitted(Targets(d), done) && v !in done
    requires forall i :: 0 <= i < |d[v]| ==> d[v][i].0 in done
    ensures Emitted(Targets(d), done + [v])
  {
    var order := done + [v];
    forall j, w: nat | 0 <= j < |order| && Edge(Targets(d), order[j], w)
      ensures w in order[..j]
    {
      if j < |done| {
        assert order[..j] == done[..j];
      } else {
        assert order[..j] == done;
        var i :| 0 <= i < |Targets(d)[v]| && Targets(d)[v][i] == w;
      }
    }
  }

  lemma {:induction false} ExploreExtends<E>(d: Adjacency<E>, v: nat, cursor: nat, path: seq<nat>, done: seq<nat>)
    requires Searching(d, path, done) && v < |d| && cursor <= |d[v]|
    requires path != [] && path[|path| - 1] == v
    requires Walk(Targets(d), path) && Emitted(Targets(d), done)
    requires forall i :: 0 <= i < cursor ==> d[v][i].0 in done
    ensures Extends(d, Explore(d, v, cursor, path, done), v, path[..|path| - 1], done)
    ensures Explore(d, v, cursor, path, done).Finished? ==>
              var order := Explore(d, v, cursor, path, done).order;
              order[|order| - 1] == v
    decreases |d| - |path|, |d[v]| - cursor
  {
    var g := Targets(d);
    DistinctBound(path, |d|);
    PathTop(path);
    ReachRefl(g, v);
    if cursor == |d[v]| {
      EmitTop(d, path, done);
      EmitAfterDependencies(d, v, done);
      assert (done + [v])[|done|] == v;
    } else {
      var (w, tag) := d[v][cursor];
      TargetsEdge(d, v, cursor);
      ReachEdge(g, v, w);
      VisitExtends(d, w, tag, path, done);
      var r := Visit(d, w, tag, path, done);
      if r.Finished? {
        ExploreExtends(d, v, cursor + 1, path, r.order);
        var s := Explore(d, v, cursor + 1, path, r.order);
        if s.Finished? {
          forall u: nat | u in s.order && u !in done
            ensures Reach(g, v, u)
          {
            if u in r.order {
              ReachTrans(g, v, w, u);
            }
          }
        }
      }
    }
  }

  lemma {:induction false} SearchFromExtends<E>(d: Adjacency<E>, root: nat, done: seq<nat>)
    requires WfAdjacency(d) && root <= |d| && Emitted(Targets(d), done)
    requires forall v: nat :: v < root ==> v in done
    ensures var r := SearchFrom(d, root, done);
            if r.Finished? then done <= r.order && TopologicalOrder(Targets(d), r.order) else ReportsCycle(d, r)
    decreases |d| - root
  {
    if root == |d| {
      DistinctBound(done, |d|);
      AllListed(done, |d|);
    } else if root in done {
      SearchFromExtends(d, root + 1, done);
    } else {
      assert Walk(Targets(d), [root]);
      ExploreExtends(d, root, 0, [root], done);
      var r := Explore(d, root, 0, [root], done);
      if r.Finished? {
        forall v: nat | v < root + 1
          ensures v in r.order
        {
          if v < root {
            PrefixMember(done, r.order, v);
          }
        }
        SearchFromExtends(d, root + 1, r.order);
      }
    }
  }

  lemma {:induction false} SearchFromDone<E>(d: Adjacency<E>, root: nat, done: seq<nat>)
    requires WfAdjacency(d) && root <= |d|
    requires forall v: nat :: v < |d| ==> v in done
    ensures SearchFrom(d, root, done) == Finished(done)
    decreases |d| - root
  {
    if root < |d| {
      SearchFromDone(d, root + 1, done);
    }
  }

  /** The search finishes exactly on acyclic graphs, then with a topological
      order; otherwise it reports a simple cycle of recorded edges and the
      recorded label of its last edge. */
  lemma DepthFirstSearchCorrect<E>(d: Adjacency<E>)
    requires WfAdjacency(d)
    ensures DepthFirstSearch(d).Finished? <==> Acyclic(Targets(d))
    ensures var r := DepthFirstSearch(d);
            if r.Finished? then TopologicalOrder(Targets(d), r.order) else ReportsCycle(d, r)
  {
    SearchFromExtends(d, 0, []);
    var r := DepthFirstSearch(d);
    if r.Finished? {
      TopologicalOrderAcyclic(Targets(d), r.order);
    } else {
      SimpleCycleOnCycle(Targets(d), [r.entry] + r.rest);
    }
  }

  /** A first node that reaches every other node is emitted last. */
  lemma FirstNodeLast<E>(d: Adjacency<E>)
    requires WfAdjacency(d) && d != [] && DepthFirstSearch(d).Finished?
    requires forall v: nat :: v < |d| ==> Reach(Targets(d), 0, v)
    ensures var order := DepthFirstSearch(d).order; order != [] && order[|order| - 1] == 0
  {
    var g := Targets(d);
    assert Walk(g, [0]);
    ExploreExtends(d, 0, 0, [0], []);
    var r := Explore(d, 0, 0, [0], []);
    forall v: nat | v < |d|
      ensures v in r.order
    {
      assert r.order[..|r.order|] == r.order;
      OrderPrefixClosed(g, r.order, |r.order|, 0, v);
    }
    SearchFromDone(d, 1, r.order);
  }

  // Which order, and which cycle

  /** `v` is the first of `nodes` that is not done. */
  ghost predicate FirstOpen(nodes: seq<nat>, done: seq<nat>, v: nat) {
    v !in done && exists k :: 0 <= k < |nodes| && nodes[k] == v && forall j :: 0 <= j < k ==> nodes[j] in done
  }

  /** From the first node that is not done, always on to the first dependency
      that is not done. */
  ghost predicate Descent(g: Graph, path: seq<nat>, done: seq<nat>) {
    && path != [] && path[0] < |g| && path[0] !in done && (forall u: nat :: u < path[0] ==> u in done)
    && forall i :: 0 <= i < |path| - 1 ==> path[i] < |g| && FirstOpen(g[path[i]], done, path[i + 1])
  }

  /** The descent ends at `v`, all of whose dependencies are done. */
  ghost predicate EmittedNext(g: Graph, done: seq<nat>, v: nat) {
    v < |g| && (forall w: nat :: w in g[v] ==> w in done)
    && exists path :: Descent(g, path, done) && path[|path| - 1] == v
  }

  /** Depth-first post-order: first nodes first, first dependencies first. */
  ghost predicate GreedyPostOrder(g: Graph, order: seq<nat>) {
    forall k :: 0 <= k < |order| ==> EmittedNext(g, order[..k], order[k])
  }

  /** The edge `(v, tag)` comes after edges to nodes that are done. */
  ghost predicate NextEdge<E>(edges: seq<(nat, E)>, done: seq<nat>, v: nat, tag: E) {
    exists c :: 0 <= c < |edges| && edges[c] == (v, tag) && forall i :: 0 <= i < c ==> edges[i].0 in done
  }

  /** The descent meets one of its own nodes again: the reported cycle runs from
      there to its end. */
  ghost predicate MeetsItself<E>(d: Adjacency<E>, r: Search<E>, path: seq<nat>, done: seq<nat>)
    requires r.Reentered?
  {
    && GreedyPostOrder(Targets(d), done) && Descent(Targets(d), path, done)
    && path[|path| - 1] < |d| && NextEdge(d[path[|path| - 1]], done, r.entry, r.closing)
    && r.entry in path && r.rest == path[PositionIn(path, r.entry) + 1..] && Distinct(path)
  }

  ghost predicate Greedy<E>(d: Adjacency<E>, r: Search<E>) {
    match r
    case Finished(order) => GreedyPostOrder(Targets(d), order)
    case Reentered(_, _, _) => exists path, done :: MeetsItself(d, r, path, done)
  }

  lemma NextEdgeOpen<E>(d: Adjacency<E>, u: nat, done: seq<nat>, v: nat, tag: E)
    requires u < |d| && NextEdge(d[u], done, v, tag) && v !in done
    ensures FirstOpen(Targets(d)[u], done, v)
  {
    var c :| 0 <= c < |d[u]| && d[u][c] == (v, tag) && forall i :: 0 <= i < c ==> d[u][i].0 in done;
    assert Targets(d)[u][c] == v;
  }

  lemma DescentOn(g: Graph, path: seq<nat>, done: seq<nat>, v: nat)
    requires Descent(g, path, done) && path[|path| - 1] < |g| && FirstOpen(g[path[|path| - 1]], done, v)
    ensures Descent(g, path + [v], done)
  {
    hide FirstOpen;
    var more := path + [v];
    assert more[0] == path[0];
    forall i | 0 <= i < |more| - 1
      ensures more[i] < |g| && FirstOpen(g[more[i]], done, more[i + 1])
    {
      assert more[i] == path[i] && (i < |path| - 1 ==> more[i + 1] == path[i + 1]);
    }
  }

  lemma FirstOpenStays(nodes: seq<nat>, done: seq<nat>, v: nat, w: nat)
    requires FirstOpen(nodes, done, v) && v != w
    ensures FirstOpen(nodes, done + [w], v)
  {
  }

  lemma DescentBack(g: Graph, path: seq<nat>, done: seq<nat>)
    requires Descent(g, path, done) && Distinct(path) && |path| > 1
    ensures Descent(g, path[..|path| - 1], done + [path[|path| - 1]])
  {
    hide FirstOpen;
    var less, v := path[..|path| - 1], path[|path| - 1];
    assert less[0] == path[0];
    forall i | 0 <= i < |less| - 1
      ensures less[i] < |g| && FirstOpen(g[less[i]], done + [v], less[i + 1])
    {
      assert less[i] == path[i] && less[i + 1] == path[i + 1];
      FirstOpenStays(g[path[i]], done, path[i + 1], v);
    }
  }

  lemma EmitGreedy(g: Graph, path: seq<nat>, done: seq<nat>)
    requires path != [] && GreedyPostOrder(g, done) && Descent(g, path, done) && path[|path| - 1] < |g|
    requires forall w: nat :: w in g[path[|path| - 1]] ==> w in done
    ensures GreedyPostOrder(g, done + [path[|path| - 1]])
  {
    hide Descent;
    var order := done + [path[|path| - 1]];
    forall k | 0 <= k < |order|
      ensures EmittedNext(g, order[..k], order[k])
    {
      if k < |done| {
        assert order[..k] == done[..k] && order[k] == done[k];
      } else {
        assert order[..k] == done;
      }
    }
  }

  /** What exploring the end of a descent leaves. */
  ghost predicate Explored<E>(d: Adjacency<E>, r: Search<E>, path: seq<nat>, done: seq<nat>)
    requires path != []
  {
    && Greedy(d, r)
    && (r.Finished? ==> done <= r.order && path[|path| - 1] in r.order)
    && (r.Finished? && |path| > 1 ==> Descent(Targets(d), path[..|path| - 1], r.order))
  }

  lemma {:induction false} VisitGreedy<E>(d: Adjacency<E>, v: nat, tag: E, path: seq<nat>, done: seq<nat>)
    requires Searching(d, path, done) && v < |d| && path != []
    requires Descent(Targets(d), path, done) && GreedyPostOrder(Targets(d), done)
    requires path[|path| - 1] < |d| && NextEdge(d[path[|path| - 1]], done, v, tag)
    ensures var r := Visit(d, v, tag, path, done);
            Greedy(d, r) && (r.Finished? ==> done <= r.order && v in r.order && Descent(Targets(d), path, r.order))
    decreases |d| - |path|, 0
  {
    hide Descent, GreedyPostOrder, NextEdge, FirstOpen;
    if v in path {
      assert MeetsItself(d, Visit(d, v, tag, path, done), path, done);
    } else if v !in done {
      DistinctBound(path + [v], |d|);
      assert (path + [v])[..|path|] == path;
      NextEdgeOpen(d, path[|path| - 1], done, v, tag);
      DescentOn(Targets(d), path, done, v);
      ExploreGreedy(d, v, 0, path + [v], done);
    }
  }

  lemma {:induction false} ExploreGreedy<E>(d: Adjacency<E>, v: nat, cursor: nat, path: seq<nat>, done: seq<nat>)
    requires Searching(d, path, done) && v < |d| && cursor <= |d[v]| && path != [] && path[|path| - 1] == v
    requires Descent(Targets(d), path, done) && GreedyPostOrder(Targets(d), done)
    requires forall i :: 0 <= i < cursor ==> d[v][i].0 in done
    ensures Explored(d, Explore(d, v, cursor, path, done), path, done)
    decreases |d| - |path|, |d[v]| - cursor
  {
    hide Descent, GreedyPostOrder, Greedy, Visit;
    DistinctBound(path, |d|);
    if cursor == |d[v]| {
      AllTargets(d, v, done);
      EmitGreedy(Targets(d), path, done);
      assert Greedy(d, Finished(done + [v])) by {
        FinishedGreedy(d, done + [v]);
      }
      if |path| > 1 {
        DescentBack(Targets(d), path, done);
      }
    } else {
      var (w, tag) := d[v][cursor];
      assert NextEdge(d[v], done, w, tag);
      VisitGreedy(d, w, tag, path, done);
      var r := Visit(d, w, tag, path, done);
      ExploreNext(d, v, cursor, path, done, r);
      if r.Finished? {
        GreedyFinished(d, r);
        forall i | 0 <= i < cursor + 1
          ensures d[v][i].0 in r.order
        {
          if i < cursor {
            PrefixMember(done, r.order, d[v][i].0);
          }
        }
        ExploreGreedy(d, v, cursor + 1, path, r.order);
      }
    }
  }

  lemma FinishedGreedy<E>(d: Adjacency<E>, order: seq<nat>)
    requires GreedyPostOrder(Targets(d), order)
    ensures Greedy(d, Finished(order))
  {
  }

  lemma GreedyFinished<E>(d: Adjacency<E>, r: Search<E>)
    requires Greedy(d, r) && r.Finished?
    ensures GreedyPostOrder(Targets(d), r.order)
  {
  }

  lemma AllTargets<E>(d: Adjacency<E>, v: nat, done: seq<nat>)
    requires v < |d| && forall i :: 0 <= i < |d[v]| ==> d[v][i].0 in done
    ensures forall w: nat :: w in Targets(d)[v] ==> w in done
  {
  }

  lemma {:induction false} SearchFromGreedy<E>(d: Adjacency<E>, root: nat, done: seq<nat>)
    requires WfAdjacency(d) && root <= |d| && GreedyPostOrder(Targets(d), done)
    requires forall v: nat :: v < root ==> v in done
    ensures Greedy(d, SearchFrom(d, root, done))
    decreases |d| - root
  {
    hide GreedyPostOrder, Explore, Greedy;
    if root == |d| {
      FinishedGreedy(d, done);
    } else if root in done {
      SearchFromGreedy(d, root + 1, done);
    } else {
      assert Descent(Targets(d), [root], done);
      ExploreGreedy(d, root, 0, [root], done);
      var r := Explore(d, root, 0, [root], done);
      if r.Finished? {
        GreedyFinished(d, r);
        forall v: nat | v < root + 1
          ensures v in r.order
        {
          if v < root {
            PrefixMember(done, r.order, v);
          }
        }
        SearchFromGreedy(d, root + 1, r.order);
      }
    }
  }

  /** The search takes first nodes and first dependencies first, both for the
      order and for the cycle that it reports. */
  lemma DepthFirstSearchGreedy<E>(d: Adjacency<E>)
    requires WfAdjacency(d)
    ensures Greedy(d, DepthFirstSearch(d))
  {
    hide Greedy;
    SearchFromGreedy(d, 0, []);
  }

  lemma FirstOpenUnique(nodes: seq<nat>, done: seq<nat>, v: nat, w: nat)
    requires FirstOpen(nodes, done, v) && FirstOpen(nodes, done, w)
    ensures v == w
  {
  }

  lemma {:induction false} DescentUnique(g: Graph, p: seq<nat>, q: seq<nat>, done: seq<nat>, k: nat)
    requires Descent(g, p, done) && Descent(g, q, done) && k <= |p| && k <= |q|
    ensures p[..k] == q[..k]
    decreases k
  {
    hide FirstOpen;
    if k == 1 {
      assert p[0] == q[0];
    } else if k > 1 {
      DescentUnique(g, p, q, done, k - 1);
      assert p[k - 2] == p[..k - 1][k - 2] == q[k - 2];
      FirstOpenUnique(g[p[k - 2]], done, p[k - 1], q[k - 1]);
      assert p[..k] == p[..k - 1] + [p[k - 1]] && q[..k] == q[..k - 1] + [q[k - 1]];
    }
  }

  lemma DescentStep(g: Graph, q: seq<nat>, done: seq<nat>, i: nat)
    requires Descent(g, q, done) && i < |q| - 1
    ensures q[i] < |g| && q[i + 1] in g[q[i]] && q[i + 1] !in done
  {
  }

  /** A descent that has ended cannot go on. */
  lemma DescentEnds(g: Graph, p: seq<nat>, q: seq<nat>, done: seq<nat>)
    requires Descent(g, p, done) && Descent(g, q, done) && p[|p| - 1] < |g|
    requires forall w: nat :: w in g[p[|p| - 1]] ==> w in done
    ensures |q| <= |p|
  {
    if |q| > |p| {
      var k := |p|;
      DescentUnique(g, p, q, done, k);
      assert p[k - 1] == p[..k][k - 1] == q[..k][k - 1] == q[k - 1];
      DescentStep(g, q, done, k - 1);
    }
  }

  lemma EmittedNextUnique(g: Graph, done: seq<nat>, v: nat, w: nat)
    requires EmittedNext(g, done, v) && EmittedNext(g, done, w)
    ensures v == w
  {
    hide FirstOpen;
    var p :| Descent(g, p, done) && p[|p| - 1] == v;
    var q :| Descent(g, q, done) && q[|q| - 1] == w;
    DescentEnds(g, p, q, done);
    DescentEnds(g, q, p, done);
    DescentUnique(g, p, q, done, |p|);
    assert p[..|p|] == p && q[..|q|] == q;
  }

  /** Only one order of all nodes is the depth-first post-order. */
  lemma {:induction false} GreedyUnique(g: Graph, a: seq<nat>, b: seq<nat>, k: nat)
    requires GreedyPostOrder(g, a) && GreedyPostOrder(g, b) && k <= |a| && k <= |b|
    ensures a[..k] == b[..k]
    decreases k
  {
    hide EmittedNext;
    if k > 0 {
      GreedyUnique(g, a, b, k - 1);
      EmittedNextUnique(g, a[..k - 1], a[k - 1], b[k - 1]);
      assert a[..k] == a[..k - 1] + [a[k - 1]] && b[..k] == b[..k - 1] + [b[k - 1]];
    }
  }

  // The explicit stack

  /** A path node with its next edge to try. */
  type Frame = (nat, nat)

  /** The search state between two steps of the loop. */
  ghost predicate Framed<E>(d: Adjacency<E>, frames: seq<Frame>, done: seq<nat>) {
    && Searching(d, Firsts(frames), done)
    && (forall k :: 0 <= k < |frames| ==> frames[k].0 < |d| && frames[k].1 <= |d[frames[k].0]|)
  }

  lemma FramedPop<E>(d: Adjacency<E>, frames: seq<Frame>, order: seq<nat>)
    requires frames != [] && Searching(d, Firsts(frames)[..|frames| - 1], order)
    requires forall k :: 0 <= k < |frames| ==> frames[k].0 < |d| && frames[k].1 <= |d[frames[k].0]|
    ensures Framed(d, frames[..|frames| - 1], order)
  {
    assert Firsts(frames[..|frames| - 1]) == Firsts(frames)[..|frames| - 1];
  }

  /** What remains to be done when the frames are resumed, innermost first. */
  ghost function Resume<E>(d: Adjacency<E>, frames: seq<Frame>, done: seq<nat>): Search<E>
    requires Framed(d, frames, done)
    decreases |frames|
  {
    if frames == [] then
      Finished(done)
    else
      var (node, cursor) := frames[|frames| - 1];
      var r := Explore(d, node, cursor, Firsts(frames), done);
      if r.Finished? then
        FramedPop(d, frames, r.order);
        Resume(d, frames[..|frames| - 1], r.order)
      else
        r
  }

  /** The outcome of the whole search from a state of the loop. */
  ghost function Outcome<E>(d: Adjacency<E>, root: nat, frames: seq<Frame>, done: seq<nat>): Search<E>
    requires Framed(d, frames, done) && root < |d|
  {
    var r := Resume(d, frames, done);
    if r.Finished? then SearchFrom(d, root + 1, r.order) else r
  }

  /** A node whose dependencies are all tried is emitted. */
  lemma ResumeEmit<E>(d: Adjacency<E>, frames: seq<Frame>, done: seq<nat>)
    requires Framed(d, frames, done) && frames != []
    requires var (node, cursor) := frames[|frames| - 1]; cursor == |d[node]|
    ensures var node := frames[|frames| - 1].0;
            && Framed(d, frames[..|frames| - 1], done + [node])
            && Resume(d, frames, done) == Resume(d, frames[..|frames| - 1], done + [node])
  {
    EmitTop(d, Firsts(frames), done);
    FramedPop(d, frames, done + [frames[|frames| - 1].0]);
  }

  ghost function Advanced(frames: seq<Frame>): (f: seq<Frame>)
    requires frames != []
    ensures |f| == |frames| && Firsts(f) == Firsts(frames)
    ensures f[..|f| - 1] == frames[..|frames| - 1]
  {
    var (node, cursor) := frames[|frames| - 1];
    frames[|frames| - 1 := (node, cursor + 1)]
  }

  /** An edge to a finished node is passed over. */
  lemma ResumeSkip<E>(d: Adjacency<E>, frames: seq<Frame>, done: seq<nat>)
    requires Framed(d, frames, done) && frames != []
    requires var (node, cursor) := frames[|frames| - 1]; cursor < |d[node]| && d[node][cursor].0 in done
    ensures Framed(d, Advanced(frames), done)
    ensures Resume(d, frames, done) == Resume(d, Advanced(frames), done)
  {
    var (node, cursor) := frames[|frames| - 1];
    var (w, tag) := d[node][cursor];
    assert Visit(d, w, tag, Firsts(frames), done) == Finished(done);
    assert Explore(d, node, cursor, Firsts(frames), done) == Explore(d, node, cursor + 1, Firsts(frames), done);
  }

  lemma FramedTop<E>(d: Adjacency<E>, frames: seq<Frame>, done: seq<nat>)
    requires Framed(d, frames, done) && frames != []
    ensures var (node, cursor) := frames[|frames| - 1];
            && Searching(d, Firsts(frames), done) && node < |d| && cursor <= |d[node]|
            && Firsts(frames) != [] && Firsts(frames)[|frames| - 1] == node
    ensures var (node, cursor) := frames[|frames| - 1];
            cursor < |d[node]| ==> d[node][cursor].0 < |d| && Framed(d, Advanced(frames), done)
  {
  }

  /** Resuming explores the innermost frame, then resumes the others. */
  lemma ResumeTop<E>(d: Adjacency<E>, frames: seq<Frame>, done: seq<nat>, r: Search<E>)
    requires Framed(d, frames, done) && frames != []
    requires var (node, cursor) := frames[|frames| - 1]; r == Explore(d, node, cursor, Firsts(frames), done)
    ensures r.Finished? ==> Framed(d, frames[..|frames| - 1], r.order)
    ensures Resume(d, frames, done) == if r.Finished? then Resume(d, frames[..|frames| - 1], r.order) else r
  {
    hide Explore, Searching;
    if r.Finished? {
      FramedPop(d, frames, r.order);
    }
  }

  lemma ExploreNext<E>(d: Adjacency<E>, v: nat, cursor: nat, path: seq<nat>, done: seq<nat>, r: Search<E>)
    requires Searching(d, path, done) && v < |d| && cursor < |d[v]| && path != [] && path[|path| - 1] == v
    requires r == Visit(d, d[v][cursor].0, d[v][cursor].1, path, done)
    ensures Explore(d, v, cursor, path, done) == if r.Finished? then Explore(d, v, cursor + 1, path, r.order) else r
  {
    hide Visit, Distinct;
  }

  lemma VisitNew<E>(d: Adjacency<E>, v: nat, tag: E, path: seq<nat>, done: seq<nat>)
    requires Searching(d, path, done) && v < |d| && v !in path && v !in done
    ensures Searching(d, path + [v], done) && Visit(d, v, tag, path, done) == Explore(d, v, 0, path + [v], done)
  {
    hide Explore;
  }

  /** An edge to an unvisited node pushes it. */
  lemma ResumePush<E>(d: Adjacency<E>, frames: seq<Frame>, done: seq<nat>)
    requires Framed(d, frames, done) && frames != []
    requires var (node, cursor) := frames[|frames| - 1];
             && cursor < |d[node]|
             && d[node][cursor].0 !in done
             && d[node][cursor].0 !in Firsts(frames)
    ensures var (node, cursor) := frames[|frames| - 1];
            var pushed := Advanced(frames) + [(d[node][cursor].0, 0)];
            Framed(d, pushed, done) && Resume(d, frames, done) == Resume(d, pushed, done)
  {
    hide Explore, Visit, Resume, Searching, Framed, Distinct;
    var (node, cursor) := frames[|frames| - 1];
    FramedTop(d, frames, done);
    var (w, tag) := d[node][cursor];
    var pushed := Advanced(frames) + [(w, 0)];
    PushedFrames(d, frames, done, w);
    VisitNew(d, w, tag, Firsts(frames), done);
    var r := Explore(d, w, 0, Firsts(pushed), done);
    var whole := Explore(d, node, cursor, Firsts(frames), done);
    ExploreNext(d, node, cursor, Firsts(frames), done, r);
    ResumeTop(d, frames, done, whole);
    ResumeTop(d, pushed, done, r);
    if r.Finished? {
      assert whole == Explore(d, node, cursor + 1, Firsts(frames), r.order);
      ResumeTop(d, Advanced(frames), r.order, whole);
    }
  }

  lemma PushedFrames<E>(d: Adjacency<E>, frames: seq<Frame>, done: seq<nat>, w: nat)
    requires Framed(d, frames, done) && frames != [] && w < |d| && w !in done && w !in Firsts(frames)
    requires var (node, cursor) := frames[|frames| - 1]; cursor < |d[node]|
    ensures var pushed := Advanced(frames) + [(w, 0)];
            && Framed(d, pushed, done) && Firsts(pushed) == Firsts(frames) + [w]
            && pushed[..|pushed| - 1] == Advanced(frames) && |frames| < |d|
  {
    var pushed := Advanced(frames) + [(w, 0)];
    assert Firsts(pushed) == Firsts(frames) + [w];
    DistinctBound(Firsts(pushed), |d|);
  }

  /** An edge to a node on the path closes a cycle. */
  lemma ResumeReenter<E>(d: Adjacency<E>, frames: seq<Frame>, done: seq<nat>, position: nat)
    requires Framed(d, frames, done) && frames != [] && position < |frames|
    requires var (node, cursor) := frames[|frames| - 1];
             cursor < |d[node]| && d[node][cursor].0 == frames[position].0
    ensures var (node, cursor) := frames[|frames| - 1];
            Resume(d, frames, done) ==
              Reentered(frames[position].0, Firsts(frames)[position + 1..], d[node][cursor].1)
  {
    var (node, cursor) := frames[|frames| - 1];
    var (w, tag) := d[node][cursor];
    assert Firsts(frames)[position] == w;
    assert PositionIn(Firsts(frames), w) == position;
    assert Explore(d, node, cursor, Firsts(frames), done) == Visit(d, w, tag, Firsts(frames), done);
  }
}
