/** Tarjan's algorithm as a state machine: what every step of the explicit-stack
    loop keeps, and why each popped component is a class of mutual
    reachability. */
module StrongComponents {
  import opened Outcomes
  import opened Digraph

  /** A node being visited and its next edge to try. */
  type Frame = (nat, nat)

  /** `path` are the nodes being visited; `stack` the visited nodes whose
      component is still open, in order of discovery. */
  datatype State = State(
    index: seq<Option<nat>>,
    low: seq<nat>,
    next: nat,
    stack: seq<nat>,
    path: seq<Frame>,
    components: seq<seq<nat>>)

  function Num(index: seq<Option<nat>>, v: nat): int {
    if v < |index| && index[v].Some? then index[v].value else -1
  }

  ghost predicate Placed(components: seq<seq<nat>>, v: nat) {
    exists k :: 0 <= k < |components| && v in components[k]
  }

  /** How many edges of `u` were tried: those before the cursor while `u` is on
      the path, all of them afterwards. */
  ghost function Tried(g: Graph, path: seq<Frame>, u: nat): (k: nat)
    requires u < |g|
  {
    if path == [] then |g[u]|
    else if path[|path| - 1].0 == u then path[|path| - 1].1
    else Tried(g, path[..|path| - 1], u)
  }

  ghost predicate TriedEdge(g: Graph, path: seq<Frame>, u: nat, w: nat) {
    u < |g| && exists i :: 0 <= i < Tried(g, path, u) && i < |g[u]| && g[u][i] == w
  }

  // The invariant, one aspect at a time

  /** Numbers follow the order of discovery along the stack and the path. */
  ghost predicate Numbered(g: Graph, s: State) {
    && Wf(g) && |s.index| == |s.low| == |g|
    && (forall v: nat :: v < |g| ==> Num(s.index, v) < s.next)
    && (forall u: nat, v: nat ::
        u < |g| && v < |g| && Num(s.index, u) >= 0 && Num(s.index, u) == Num(s.index, v) ==> u == v)
    && (forall v: nat :: v in s.stack ==> v < |g| && Num(s.index, v) >= 0)
    && (forall i, j :: 0 <= i < j < |s.stack| ==> Num(s.index, s.stack[i]) < Num(s.index, s.stack[j]))
    && (forall k :: 0 <= k < |s.path| ==>
          s.path[k].0 in s.stack && s.path[k].0 < |g| && s.path[k].1 <= |g[s.path[k].0]|)
    && (forall j, k :: 0 <= j < k < |s.path| ==> Num(s.index, s.path[j].0) < Num(s.index, s.path[k].0))
  }

  /** The visited nodes are the open ones and, apart from them, those of the
      finished components. */
  ghost predicate Located(g: Graph, s: State) {
    && (forall v: nat {:trigger Placed(s.components, v)} ::
        v < |g| ==> (Num(s.index, v) >= 0 <==> v in s.stack || Placed(s.components, v)))
    && (forall v: nat {:trigger Placed(s.components, v)} :: v in s.stack ==> !Placed(s.components, v))
  }

  /** Edges tried from an open node lead to visited nodes. */
  ghost predicate Explored(g: Graph, s: State) {
    forall u: nat, w: nat :: u in s.stack && TriedEdge(g, s.path, u, w) ==> Num(s.index, w) >= 0
  }

  /** A path node reaches every later open node, and every open node reaches
      an earlier path node. */
  ghost predicate Connected(g: Graph, s: State) {
    && (forall k, y: nat :: 0 <= k < |s.path| && y in s.stack && Num(s.index, s.path[k].0) <= Num(s.index, y) ==>
          Reach(g, s.path[k].0, y))
    && (forall y: nat {:trigger Anchored(g, s, y)} :: y in s.stack ==> Anchored(g, s, y))
  }

  ghost predicate Anchored(g: Graph, s: State, y: nat) {
    exists k :: 0 <= k < |s.path| && Num(s.index, s.path[k].0) <= Num(s.index, y) && Reach(g, y, s.path[k].0)
  }

  /** The open nodes discovered from the `k`-th path node on, before the next. */
  ghost predicate InRegion(s: State, k: nat, y: nat) {
    && k < |s.path| && y in s.stack
    && Num(s.index, s.path[k].0) <= Num(s.index, y)
    && (k + 1 < |s.path| ==> Num(s.index, y) < Num(s.index, s.path[k + 1].0))
  }

  /** A low link is the number of an open node that can be reached, and no edge
      tried from the region leads to an earlier open node. */
  ghost predicate LowLinked(g: Graph, s: State) {
    && |s.low| == |g|
    && (forall k :: 0 <= k < |s.path| ==>
          s.path[k].0 < |g| && s.low[s.path[k].0] <= Num(s.index, s.path[k].0))
    && (forall k {:trigger LowReached(g, s, s.path[k].0)} :: 0 <= k < |s.path| ==> LowReached(g, s, s.path[k].0))
    && (forall k: nat, y: nat, w: nat :: InRegion(s, k, y) && w in s.stack && TriedEdge(g, s.path, y, w) ==>
          s.low[s.path[k].0] <= Num(s.index, w))
  }

  ghost predicate LowReached(g: Graph, s: State, v: nat)
    requires v < |s.low|
  {
    exists z: nat :: z in s.stack && Num(s.index, z) == s.low[v] && Reach(g, v, z)
  }

  /** A class of mutual reachability, each node once. */
  ghost predicate IsClass(g: Graph, c: seq<nat>) {
    && c != [] && Distinct(c)
    && (forall v: nat :: v in c ==> v < |g|)
    && (forall u: nat, v: nat :: u in c ==> (v in c <==> Mutual(g, u, v)))
  }

  /** Disjoint classes, each listed after every class it depends on. */
  ghost predicate ClassesInOrder(g: Graph, components: seq<seq<nat>>) {
    && (forall k :: 0 <= k < |components| ==> IsClass(g, components[k]))
    && (forall j, k, v: nat :: 0 <= j < k < |components| && v in components[j] ==> v !in components[k])
    && (forall k, u: nat, w: nat :: 0 <= k < |components| && u in components[k] && Edge(g, u, w) ==>
          Placed(components[..k + 1], w))
  }

  ghost predicate Inv(g: Graph, s: State) {
    && Numbered(g, s) && Located(g, s) && Explored(g, s)
    && Connected(g, s) && LowLinked(g, s) && ClassesInOrder(g, s.components)
  }

  // The steps

  /** Give `w` the next number and start visiting it. */
  function Enter(s: State, w: nat): State
    requires w < |s.index| == |s.low|
  {
    s.(index := s.index[w := Some(s.next)],
       low := s.low[w := s.next],
       next := s.next + 1,
       stack := s.stack + [w],
       path := s.path + [(w, 0)])
  }

  /** Count the next edge of the `k`-th path node as tried. */
  function Advance(s: State, k: nat): State
    requires k < |s.path|
  {
    s.(path := s.path[k := (s.path[k].0, s.path[k].1 + 1)])
  }

  function Lower(s: State, v: nat, bound: nat): State
    requires v < |s.low|
  {
    s.(low := s.low[v := if bound < s.low[v] then bound else s.low[v]])
  }

  // How the tried edges change

  lemma {:induction false} TriedElsewhere(g: Graph, path: seq<Frame>, u: nat)
    requires u < |g| && forall k :: 0 <= k < |path| ==> path[k].0 != u
    ensures Tried(g, path, u) == |g[u]|
  {
    if path != [] {
      TriedElsewhere(g, path[..|path| - 1], u);
    }
  }

  lemma {:induction false} TriedAt(g: Graph, path: seq<Frame>, k: nat)
    requires k < |path| && path[k].0 < |g|
    requires forall j :: k < j < |path| ==> path[j].0 != path[k].0
    ensures Tried(g, path, path[k].0) == path[k].1
  {
    if k < |path| - 1 {
      TriedAt(g, path[..|path| - 1], k);
    }
  }

  lemma {:induction false} TriedOther(g: Graph, path: seq<Frame>, k: nat, cursor: nat, u: nat)
    requires k < |path| && u < |g| && path[k].0 != u
    ensures Tried(g, path[k := (path[k].0, cursor)], u) == Tried(g, path, u)
  {
    var top := |path| - 1;
    var after := path[k := (path[k].0, cursor)];
    if k == top {
      assert after[..top] == path[..top];
    } else {
      assert after[..top] == path[..top][k := (path[k].0, cursor)];
      TriedOther(g, path[..top], k, cursor, u);
    }
  }

  lemma TriedOneMore(g: Graph, before: seq<Frame>, after: seq<Frame>, u: nat, w: nat)
    requires u < |g| && Tried(g, before, u) < |g[u]| && Tried(g, after, u) == Tried(g, before, u) + 1
    ensures TriedEdge(g, after, u, w) <==> TriedEdge(g, before, u, w) || w == g[u][Tried(g, before, u)]
  {
    hide Tried;
  }

  /** Advancing a frame tries exactly one more edge. */
  lemma TriedAdvance(g: Graph, s: State, k: nat, u: nat, w: nat)
    requires Numbered(g, s) && k < |s.path| && u < |g|
    requires s.path[k].1 < |g[s.path[k].0]|
    ensures var (node, cursor) := s.path[k];
            TriedEdge(g, Advance(s, k).path, u, w) <==>
              TriedEdge(g, s.path, u, w) || (u == node && w == g[node][cursor])
  {
    hide Numbered, Tried, TriedEdge;
    var (node, cursor) := s.path[k];
    if u == node {
      TriedNext(g, s, k);
      TriedOneMore(g, s.path, Advance(s, k).path, u, w);
    } else {
      TriedOther(g, s.path, k, cursor + 1, u);
      SameTried(g, s.path, Advance(s, k).path, u, w);
    }
  }

  lemma SameTried(g: Graph, before: seq<Frame>, after: seq<Frame>, u: nat, w: nat)
    requires u < |g| && Tried(g, before, u) == Tried(g, after, u)
    ensures TriedEdge(g, before, u, w) <==> TriedEdge(g, after, u, w)
  {
  }

  lemma TriedNext(g: Graph, s: State, k: nat)
    requires Numbered(g, s) && k < |s.path|
    ensures Tried(g, s.path, s.path[k].0) == s.path[k].1
    ensures Tried(g, Advance(s, k).path, s.path[k].0) == s.path[k].1 + 1
  {
    assert forall j :: k < j < |s.path| ==> s.path[j].0 != s.path[k].0;
    TriedAt(g, s.path, k);
    TriedAt(g, Advance(s, k).path, k);
  }

  /** Leaving a node all of whose edges were tried changes nothing. */
  lemma TriedLeave(g: Graph, s: State, u: nat, w: nat)
    requires Numbered(g, s) && s.path != [] && u < |g|
    requires var (node, cursor) := s.path[|s.path| - 1]; cursor == |g[node]|
    ensures TriedEdge(g, s.path[..|s.path| - 1], u, w) <==> TriedEdge(g, s.path, u, w)
  {
    var top := |s.path| - 1;
    if u == s.path[top].0 {
      TriedElsewhere(g, s.path[..top], u);
    }
  }

  /** A node just entered has no tried edge; nothing else changes. */
  lemma TriedEnter(g: Graph, s: State, v: nat, u: nat, w: nat)
    requires u < |g|
    ensures TriedEdge(g, s.path + [(v, 0)], u, w) <==> u != v && TriedEdge(g, s.path, u, w)
  {
    assert (s.path + [(v, 0)])[..|s.path|] == s.path;
  }

  // Entering a node

  /** `w` is a new root, or the target of the next edge of the path's end. */
  ghost predicate CanEnter(g: Graph, s: State, w: nat) {
    && w < |g| && Num(s.index, w) < 0
    && (s.path != [] ==> Edge(g, s.path[|s.path| - 1].0, w))
  }

  lemma EnterFacts(g: Graph, s: State, w: nat)
    requires Numbered(g, s) && CanEnter(g, s, w)
    ensures forall v: nat :: Num(Enter(s, w).index, v) == if v == w then s.next else Num(s.index, v)
    ensures forall v: nat :: v in Enter(s, w).stack <==> v in s.stack || v == w
    ensures w !in s.stack && forall k :: 0 <= k < |s.path| ==> s.path[k].0 != w
  {
  }

  lemma EnterStackSorted(g: Graph, s: State, w: nat, i: nat, j: nat)
    requires Numbered(g, s) && CanEnter(g, s, w) && i < j <= |s.stack|
    ensures var t := Enter(s, w);
            Num(t.index, t.stack[i]) < Num(t.index, t.stack[j])
  {
    var t := Enter(s, w);
    EnterFacts(g, s, w);
    assert t.stack[i] == s.stack[i] && s.stack[i] in s.stack;
    if j < |s.stack| {
      assert t.stack[j] == s.stack[j] && s.stack[j] in s.stack;
    }
  }

  lemma EnterPathSorted(g: Graph, s: State, w: nat, j: nat, k: nat)
    requires Numbered(g, s) && CanEnter(g, s, w) && j < k <= |s.path|
    ensures var t := Enter(s, w);
            Num(t.index, t.path[j].0) < Num(t.index, t.path[k].0)
  {
    var t := Enter(s, w);
    EnterFacts(g, s, w);
    assert t.path[j] == s.path[j];
    if k < |s.path| {
      assert t.path[k] == s.path[k];
    }
  }

  lemma EnterPathOpen(g: Graph, s: State, w: nat, k: nat)
    requires Numbered(g, s) && CanEnter(g, s, w) && k <= |s.path|
    ensures var t := Enter(s, w);
            t.path[k].0 in t.stack && t.path[k].0 < |g| && t.path[k].1 <= |g[t.path[k].0]|
  {
    var t := Enter(s, w);
    assert t.path[k] == if k < |s.path| then s.path[k] else (w, 0);
    assert t.stack[|s.stack|] == w;
  }

  lemma EnterIndex(g: Graph, s: State, w: nat)
    requires Numbered(g, s) && CanEnter(g, s, w)
    ensures var t := Enter(s, w);
            && Wf(g) && |t.index| == |t.low| == |g|
            && (forall v: nat :: v < |g| ==> Num(t.index, v) < t.next)
            && (forall u: nat, v: nat ::
                  u < |g| && v < |g| && Num(t.index, u) >= 0 && Num(t.index, u) == Num(t.index, v) ==> u == v)
            && (forall v: nat :: v in t.stack ==> v < |g| && Num(t.index, v) >= 0)
  {
    EnterFacts(g, s, w);
  }

  lemma EnterNumbered(g: Graph, s: State, w: nat)
    requires Numbered(g, s) && CanEnter(g, s, w)
    ensures Numbered(g, Enter(s, w))
  {
    var t := Enter(s, w);
    assert |t.stack| == |s.stack| + 1 && |t.path| == |s.path| + 1;
    assert Numbered(g, t) by {
      hide CanEnter, Num;
      EnterIndex(g, s, w);
      forall i, j | 0 <= i < j < |t.stack|
        ensures Num(t.index, t.stack[i]) < Num(t.index, t.stack[j])
      {
        EnterStackSorted(g, s, w, i, j);
      }
      forall j, k | 0 <= j < k < |t.path|
        ensures Num(t.index, t.path[j].0) < Num(t.index, t.path[k].0)
      {
        EnterPathSorted(g, s, w, j, k);
      }
      forall k | 0 <= k < |t.path|
        ensures t.path[k].0 in t.stack && t.path[k].0 < |g| && t.path[k].1 <= |g[t.path[k].0]|
      {
        EnterPathOpen(g, s, w, k);
      }
    }
  }

  /** The path nodes reach the end of the path. */
  lemma PathReachesEnd(g: Graph, s: State, k: nat)
    requires Numbered(g, s) && Connected(g, s) && k < |s.path|
    ensures Reach(g, s.path[k].0, s.path[|s.path| - 1].0)
  {
    var top := |s.path| - 1;
    assert s.path[top].0 in s.stack;
    assert Num(s.index, s.path[k].0) <= Num(s.index, s.path[top].0);
  }

  lemma EnterReaches(g: Graph, s: State, w: nat, k: nat, y: nat)
    requires Numbered(g, s) && Connected(g, s) && CanEnter(g, s, w)
    requires k <= |s.path| && y in Enter(s, w).stack
    requires Num(Enter(s, w).index, Enter(s, w).path[k].0) <= Num(Enter(s, w).index, y)
    ensures Reach(g, Enter(s, w).path[k].0, y)
  {
    EnterFacts(g, s, w);
    if k == |s.path| {
      ReachRefl(g, w);
    } else {
      assert Enter(s, w).path[k] == s.path[k];
      if y == w {
        PathReachesEnd(g, s, k);
        ReachEdge(g, s.path[|s.path| - 1].0, w);
        ReachTrans(g, s.path[k].0, s.path[|s.path| - 1].0, w);
      }
    }
  }

  lemma EnterAnchored(g: Graph, s: State, w: nat, y: nat)
    requires Numbered(g, s) && CanEnter(g, s, w)
    requires y == w || Anchored(g, s, y)
    ensures Anchored(g, Enter(s, w), y)
  {
    var t := Enter(s, w);
    if y == w {
      ReachRefl(g, w);
      assert t.path[|s.path|].0 == w;
    } else {
      var k :| 0 <= k < |s.path| && Num(s.index, s.path[k].0) <= Num(s.index, y) && Reach(g, y, s.path[k].0);
      EnterFacts(g, s, w);
      assert t.path[k] == s.path[k];
    }
  }

  lemma EnterConnected(g: Graph, s: State, w: nat)
    requires Numbered(g, s) && Connected(g, s) && CanEnter(g, s, w)
    ensures Connected(g, Enter(s, w))
  {
    var t := Enter(s, w);
    forall k, y: nat | 0 <= k < |t.path| && y in t.stack && Num(t.index, t.path[k].0) <= Num(t.index, y)
      ensures Reach(g, t.path[k].0, y)
    {
      EnterReaches(g, s, w, k, y);
    }
    forall y: nat {:trigger Anchored(g, t, y)} | y in t.stack
      ensures Anchored(g, t, y)
    {
      EnterAnchored(g, s, w, y);
    }
  }

  lemma EnterLow(g: Graph, s: State, w: nat, k: nat)
    requires Numbered(g, s) && LowLinked(g, s) && CanEnter(g, s, w) && k <= |s.path|
    ensures var t := Enter(s, w);
            var v := t.path[k].0;
            v < |g| && t.low[v] <= Num(t.index, v) && LowReached(g, t, v)
  {
    var t := Enter(s, w);
    EnterFacts(g, s, w);
    if k == |s.path| {
      ReachRefl(g, w);
      assert w in t.stack && Num(t.index, w) == t.low[w];
    } else {
      var v := s.path[k].0;
      assert t.path[k].0 == v && LowReached(g, s, v);
      var z: nat :| z in s.stack && Num(s.index, z) == s.low[v] && Reach(g, v, z);
      assert z in t.stack && Num(t.index, z) == t.low[v];
    }
  }

  lemma EnterRegion(g: Graph, s: State, w: nat, k: nat, y: nat, x: nat)
    requires Numbered(g, s) && LowLinked(g, s) && Explored(g, s) && CanEnter(g, s, w)
    requires InRegion(Enter(s, w), k, y) && x in Enter(s, w).stack && TriedEdge(g, Enter(s, w).path, y, x)
    ensures Enter(s, w).low[Enter(s, w).path[k].0] <= Num(Enter(s, w).index, x)
  {
    var t := Enter(s, w);
    EnterFacts(g, s, w);
    TriedEnter(g, s, w, y, x);
    assert y in s.stack && Num(s.index, x) >= 0;
    assert k < |s.path| && t.path[k] == s.path[k];
    if k + 1 < |s.path| {
      assert t.path[k + 1] == s.path[k + 1];
    }
    assert InRegion(s, k, y);
  }

  lemma EnterLowLinked(g: Graph, s: State, w: nat)
    requires Numbered(g, s) && LowLinked(g, s) && Explored(g, s) && CanEnter(g, s, w)
    ensures LowLinked(g, Enter(s, w))
  {
    var t := Enter(s, w);
    forall k {:trigger LowReached(g, t, t.path[k].0)} | 0 <= k < |t.path|
      ensures LowReached(g, t, t.path[k].0)
    {
      EnterLow(g, s, w, k);
    }
    forall k: nat, y: nat, x: nat | InRegion(t, k, y) && x in t.stack && TriedEdge(g, t.path, y, x)
      ensures t.low[t.path[k].0] <= Num(t.index, x)
    {
      EnterRegion(g, s, w, k, y, x);
    }
  }

  lemma EnterExplored(g: Graph, s: State, w: nat)
    requires Numbered(g, s) && Explored(g, s) && CanEnter(g, s, w)
    ensures Explored(g, Enter(s, w))
  {
    var t := Enter(s, w);
    forall u: nat, x: nat | u in t.stack && TriedEdge(g, t.path, u, x)
      ensures Num(t.index, x) >= 0
    {
      TriedEnter(g, s, w, u, x);
    }
  }

  lemma EnterLocated(g: Graph, s: State, w: nat)
    requires Numbered(g, s) && Located(g, s) && CanEnter(g, s, w)
    ensures Located(g, Enter(s, w))
  {
    var t := Enter(s, w);
    forall v: nat | v < |g|
      ensures Num(t.index, v) >= 0 <==> v in t.stack || Placed(t.components, v)
    {
      assert Num(t.index, v) == if v == w then s.next else Num(s.index, v);
    }
  }

  lemma EnterKeeps(g: Graph, s: State, w: nat)
    requires Inv(g, s) && CanEnter(g, s, w)
    ensures Inv(g, Enter(s, w))
  {
    EnterNumbered(g, s, w);
    EnterLocated(g, s, w);
    EnterExplored(g, s, w);
    EnterConnected(g, s, w);
    EnterLowLinked(g, s, w);
  }

  // Trying an edge to a visited node

  /** The next edge of the `k`-th path node leads to a visited node, which has
      a number no smaller than the low link if it is still open. */
  ghost predicate CanAdvance(g: Graph, s: State, k: nat) {
    && k < |s.path|
    && var (node, cursor) := s.path[k];
       && node < |g| && node < |s.low| && cursor < |g[node]|
       && Num(s.index, g[node][cursor]) >= 0
       && (g[node][cursor] in s.stack ==> s.low[node] <= Num(s.index, g[node][cursor]))
  }

  lemma SamePathAnchored(g: Graph, s: State, t: State, y: nat)
    requires Anchored(g, s, y)
    requires |t.path| == |s.path| && t.index == s.index
    requires forall k :: 0 <= k < |s.path| ==> t.path[k].0 == s.path[k].0
    ensures Anchored(g, t, y)
  {
    var k :| 0 <= k < |s.path| && Num(s.index, s.path[k].0) <= Num(s.index, y) && Reach(g, y, s.path[k].0);
    assert t.path[k].0 == s.path[k].0;
  }

  /** Connectedness is about numbers, open nodes and path nodes only. */
  lemma SamePathConnected(g: Graph, s: State, t: State)
    requires Connected(g, s)
    requires |t.path| == |s.path| && t.index == s.index && t.stack == s.stack
    requires forall k :: 0 <= k < |s.path| ==> t.path[k].0 == s.path[k].0
    ensures Connected(g, t)
  {
    forall y: nat {:trigger Anchored(g, t, y)} | y in t.stack
      ensures Anchored(g, t, y)
    {
      assert Anchored(g, s, y);
      SamePathAnchored(g, s, t, y);
    }
    forall k, y: nat | 0 <= k < |t.path| && y in t.stack && Num(t.index, t.path[k].0) <= Num(t.index, y)
      ensures Reach(g, t.path[k].0, y)
    {
      assert t.path[k].0 == s.path[k].0;
    }
  }

  lemma AdvanceExplored(g: Graph, s: State, k: nat)
    requires Numbered(g, s) && Explored(g, s) && CanAdvance(g, s, k)
    ensures Explored(g, Advance(s, k))
  {
    var t := Advance(s, k);
    forall u: nat, w: nat | u in t.stack && TriedEdge(g, t.path, u, w)
      ensures Num(t.index, w) >= 0
    {
      TriedAdvance(g, s, k, u, w);
    }
  }

  /** A path node lies in its own region only. */
  lemma RegionOfNode(g: Graph, s: State, j: nat, k: nat)
    requires Numbered(g, s) && k < |s.path| && InRegion(s, j, s.path[k].0)
    ensures j == k
  {
    assert forall i :: 0 <= i <= k ==> Num(s.index, s.path[i].0) <= Num(s.index, s.path[k].0);
  }

  lemma AdvanceRegion(g: Graph, s: State, k: nat, j: nat, y: nat, w: nat)
    requires Numbered(g, s) && LowLinked(g, s) && CanAdvance(g, s, k)
    requires InRegion(Advance(s, k), j, y) && w in s.stack && TriedEdge(g, Advance(s, k).path, y, w)
    ensures s.low[s.path[j].0] <= Num(s.index, w)
  {
    var t := Advance(s, k);
    assert forall i :: 0 <= i < |s.path| ==> t.path[i].0 == s.path[i].0;
    assert InRegion(s, j, y);
    TriedAdvance(g, s, k, y, w);
    if !TriedEdge(g, s.path, y, w) {
      RegionOfNode(g, s, j, k);
    }
  }

  lemma AdvanceLowLinked(g: Graph, s: State, k: nat)
    requires Numbered(g, s) && LowLinked(g, s) && CanAdvance(g, s, k)
    ensures LowLinked(g, Advance(s, k))
  {
    hide Reach;
    var t := Advance(s, k);
    forall j {:trigger LowReached(g, t, t.path[j].0)} | 0 <= j < |t.path|
      ensures LowReached(g, t, t.path[j].0)
    {
      var v := s.path[j].0;
      assert t.path[j].0 == v && LowReached(g, s, v);
      var z: nat :| z in s.stack && Num(s.index, z) == s.low[v] && Reach(g, v, z);
      assert Num(t.index, z) == t.low[v];
    }
    forall j: nat, y: nat, w: nat | InRegion(t, j, y) && w in t.stack && TriedEdge(g, t.path, y, w)
      ensures t.low[t.path[j].0] <= Num(t.index, w)
    {
      AdvanceRegion(g, s, k, j, y, w);
    }
  }

  lemma AdvanceKeeps(g: Graph, s: State, k: nat)
    requires Inv(g, s) && CanAdvance(g, s, k)
    ensures Inv(g, Advance(s, k))
  {
    hide Explored, LowLinked, ClassesInOrder, Connected, LowReached;
    assert Numbered(g, Advance(s, k));
    AdvanceExplored(g, s, k);
    AdvanceLowLinked(g, s, k);
    SamePathConnected(g, s, Advance(s, k));
  }

  /** Lowering a path node's low link to the number of an open node that it
      reaches. */
  lemma LowerLowLinked(g: Graph, s: State, k: nat, z: nat)
    requires Numbered(g, s) && LowLinked(g, s) && k < |s.path| && z in s.stack && Reach(g, s.path[k].0, z)
    ensures LowLinked(g, Lower(s, s.path[k].0, Num(s.index, z)))
  {
    hide Reach;
    var v := s.path[k].0;
    var t := Lower(s, v, Num(s.index, z));
    forall j {:trigger LowReached(g, t, t.path[j].0)} | 0 <= j < |t.path|
      ensures LowReached(g, t, t.path[j].0)
    {
      var u := s.path[j].0;
      assert LowReached(g, s, u);
      if u == v && Num(s.index, z) < s.low[v] {
        assert Num(t.index, z) == t.low[u];
      } else {
        var x: nat :| x in s.stack && Num(s.index, x) == s.low[u] && Reach(g, u, x);
        assert Num(t.index, x) == t.low[u];
      }
    }
    forall j: nat, y: nat, w: nat | InRegion(t, j, y) && w in t.stack && TriedEdge(g, t.path, y, w)
      ensures t.low[t.path[j].0] <= Num(t.index, w)
    {
      assert InRegion(s, j, y);
    }
  }

  lemma LowerKeeps(g: Graph, s: State, k: nat, z: nat)
    requires Inv(g, s) && k < |s.path| && z in s.stack && Reach(g, s.path[k].0, z)
    ensures Inv(g, Lower(s, s.path[k].0, Num(s.index, z)))
  {
    var t := Lower(s, s.path[k].0, Num(s.index, z));
    LowerLowLinked(g, s, k, z);
    SamePathConnected(g, s, t);
    assert Numbered(g, t);
    assert Explored(g, t);
    assert Located(g, t);
  }

  // Leaving a node

  /** The path without its last node, whose low link its parent inherits. */
  function Leave(s: State): State
    requires s.path != []
    requires |s.path| > 1 ==> s.path[|s.path| - 2].0 < |s.low| && s.path[|s.path| - 1].0 < |s.low|
  {
    var top := |s.path| - 1;
    var t := if top > 0 then Lower(s, s.path[top - 1].0, s.low[s.path[top].0]) else s;
    t.(path := s.path[..top])
  }

  /** All edges of the last path node were tried. */
  ghost predicate Exhausted(g: Graph, s: State) {
    && s.path != []
    && s.path[|s.path| - 1].0 < |g|
    && s.path[|s.path| - 1].1 == |g[s.path[|s.path| - 1].0]|
  }

  /** A node whose low link is smaller than its number reaches an earlier path
      node. */
  lemma LowAnchored(g: Graph, s: State) returns (j: nat)
    requires Numbered(g, s) && Connected(g, s) && LowLinked(g, s) && s.path != []
    requires var node := s.path[|s.path| - 1].0; s.low[node] != Num(s.index, node)
    ensures j < |s.path| - 1 && Reach(g, s.path[|s.path| - 1].0, s.path[j].0)
  {
    hide Reach;
    var top := |s.path| - 1;
    var node := s.path[top].0;
    assert LowReached(g, s, node);
    var z: nat :| z in s.stack && Num(s.index, z) == s.low[node] && Reach(g, node, z);
    assert Anchored(g, s, z);
    j :| 0 <= j < |s.path| && Num(s.index, s.path[j].0) <= Num(s.index, z) && Reach(g, z, s.path[j].0);
    ReachTrans(g, node, z, s.path[j].0);
  }

  lemma LeaveAnchored(g: Graph, s: State, y: nat)
    requires Numbered(g, s) && Connected(g, s) && LowLinked(g, s) && s.path != [] && y in s.stack
    requires var node := s.path[|s.path| - 1].0; s.low[node] != Num(s.index, node)
    ensures Anchored(g, Leave(s), y)
  {
    hide Reach;
    var top := |s.path| - 1;
    assert Anchored(g, s, y);
    var k :| 0 <= k < |s.path| && Num(s.index, s.path[k].0) <= Num(s.index, y) && Reach(g, y, s.path[k].0);
    if k == top {
      k := LowAnchored(g, s);
      ReachTrans(g, y, s.path[top].0, s.path[k].0);
    }
    assert Leave(s).path[k] == s.path[k];
  }

  lemma LeaveConnected(g: Graph, s: State)
    requires Numbered(g, s) && Connected(g, s) && LowLinked(g, s) && s.path != []
    requires var node := s.path[|s.path| - 1].0; s.low[node] != Num(s.index, node)
    ensures Connected(g, Leave(s))
  {
    forall y: nat {:trigger Anchored(g, Leave(s), y)} | y in s.stack
      ensures Anchored(g, Leave(s), y)
    {
      LeaveAnchored(g, s, y);
    }
    assert forall k :: 0 <= k < |s.path| - 1 ==> Leave(s).path[k] == s.path[k];
  }

  lemma LeaveExplored(g: Graph, s: State)
    requires Numbered(g, s) && Explored(g, s) && Exhausted(g, s)
    ensures Explored(g, s.(path := s.path[..|s.path| - 1]))
  {
    forall u: nat, w: nat | u in s.stack && TriedEdge(g, s.path[..|s.path| - 1], u, w)
      ensures Num(s.index, w) >= 0
    {
      TriedLeave(g, s, u, w);
    }
  }

  /** Dropping the last path node merges its region into its parent's, whose
      low link must already be as low. */
  lemma DropLowLinked(g: Graph, s: State)
    requires Numbered(g, s) && LowLinked(g, s) && Exhausted(g, s)
    requires |s.path| > 1 ==> s.low[s.path[|s.path| - 2].0] <= s.low[s.path[|s.path| - 1].0]
    ensures LowLinked(g, s.(path := s.path[..|s.path| - 1]))
  {
    hide Reach;
    var t := s.(path := s.path[..|s.path| - 1]);
    forall k {:trigger LowReached(g, t, t.path[k].0)} | 0 <= k < |t.path|
      ensures LowReached(g, t, t.path[k].0)
    {
      var v := s.path[k].0;
      assert t.path[k].0 == v && LowReached(g, s, v);
      var z: nat :| z in s.stack && Num(s.index, z) == s.low[v] && Reach(g, v, z);
      assert Num(t.index, z) == t.low[v];
    }
    forall k: nat, y: nat, w: nat | InRegion(t, k, y) && w in t.stack && TriedEdge(g, t.path, y, w)
      ensures t.low[t.path[k].0] <= Num(t.index, w)
    {
      DropRegion(g, s, k, y, w);
    }
  }

  lemma DropRegion(g: Graph, s: State, k: nat, y: nat, w: nat)
    requires Numbered(g, s) && LowLinked(g, s) && Exhausted(g, s)
    requires |s.path| > 1 ==> s.low[s.path[|s.path| - 2].0] <= s.low[s.path[|s.path| - 1].0]
    requires var t := s.(path := s.path[..|s.path| - 1]);
             InRegion(t, k, y) && w in t.stack && TriedEdge(g, t.path, y, w)
    ensures s.low[s.path[k].0] <= Num(s.index, w)
  {
    hide LowReached;
    TriedLeave(g, s, y, w);
    assert InRegion(s, k, y) || InRegion(s, k + 1, y);
  }

  /** The parent reaches whatever open node gave its child a low link. */
  lemma InheritLowLinked(g: Graph, s: State)
    requires Numbered(g, s) && Connected(g, s) && LowLinked(g, s) && |s.path| > 1
    ensures LowLinked(g, Lower(s, s.path[|s.path| - 2].0, s.low[s.path[|s.path| - 1].0]))
  {
    var top := |s.path| - 1;
    var node, parent := s.path[top].0, s.path[top - 1].0;
    assert LowReached(g, s, node);
    var z: nat :| z in s.stack && Num(s.index, z) == s.low[node] && Reach(g, node, z);
    PathReachesEnd(g, s, top - 1);
    ReachTrans(g, parent, node, z);
    LowerLowLinked(g, s, top - 1, z);
  }

  lemma LeaveLowLinked(g: Graph, s: State)
    requires Numbered(g, s) && Connected(g, s) && LowLinked(g, s) && Exhausted(g, s)
    ensures LowLinked(g, Leave(s))
  {
    if |s.path| > 1 {
      var r := Lower(s, s.path[|s.path| - 2].0, s.low[s.path[|s.path| - 1].0]);
      InheritLowLinked(g, s);
      assert Numbered(g, r);
      DropLowLinked(g, r);
    } else {
      DropLowLinked(g, s);
    }
  }

  lemma LeaveNumbered(g: Graph, s: State)
    requires Numbered(g, s) && s.path != []
    ensures Numbered(g, Leave(s))
  {
    assert forall k :: 0 <= k < |s.path| - 1 ==> Leave(s).path[k] == s.path[k];
    assert forall v: nat :: Num(Leave(s).index, v) == Num(s.index, v);
  }

  lemma LeaveKeeps(g: Graph, s: State)
    requires Inv(g, s) && Exhausted(g, s)
    requires var node := s.path[|s.path| - 1].0; s.low[node] != Num(s.index, node)
    ensures Inv(g, Leave(s))
  {
    LeaveNumbered(g, s);
    LeaveConnected(g, s);
    LeaveLowLinked(g, s);
    LeaveExplored(g, s);
    assert Explored(g, Leave(s));
    assert Located(g, Leave(s));
  }

  // Closing a component

  /** The open nodes from `node` on, in whatever order they were popped. */
  ghost predicate OpenFrom(s: State, node: nat, component: seq<nat>) {
    && Distinct(component)
    && forall v: nat :: v in component <==> v in s.stack && Num(s.index, node) <= Num(s.index, v)
  }

  /** A finished node that is its own low link starts a component. */
  ghost predicate Closing(g: Graph, s: State, component: seq<nat>) {
    && Exhausted(g, s)
    && var node := s.path[|s.path| - 1].0;
       && node < |s.low| && s.low[node] == Num(s.index, node)
       && OpenFrom(s, node, component)
  }

  function Close(s: State, position: nat, component: seq<nat>): State
    requires s.path != [] && position <= |s.stack|
    requires |s.path| > 1 ==> s.path[|s.path| - 2].0 < |s.low| && s.path[|s.path| - 1].0 < |s.low|
  {
    Leave(s).(stack := s.stack[..position], components := s.components + [component])
  }

  /** All edges out of the component were tried. */
  lemma ComponentTried(g: Graph, s: State, component: seq<nat>, u: nat)
    requires Numbered(g, s) && Closing(g, s, component) && u in component
    ensures u < |g| && Tried(g, s.path, u) == |g[u]|
  {
    var top := |s.path| - 1;
    var node := s.path[top].0;
    assert u in s.stack;
    if u != node {
      forall k | 0 <= k < |s.path|
        ensures s.path[k].0 != u
      {
        if k < top {
          assert Num(s.index, s.path[k].0) < Num(s.index, node);
        }
      }
      TriedElsewhere(g, s.path, u);
    }
  }

  /** All edges out of the component lead back into it or into finished
      components. */
  lemma ComponentEdges(g: Graph, s: State, component: seq<nat>, u: nat, w: nat)
    requires Numbered(g, s) && Located(g, s) && Explored(g, s) && LowLinked(g, s) && Closing(g, s, component)
    requires u in component && Edge(g, u, w)
    ensures w in component || Placed(s.components, w)
  {
    hide Numbered, Tried, LowReached, Placed;
    ComponentTried(g, s, component, u);
    var i :| 0 <= i < |g[u]| && g[u][i] == w;
    assert TriedEdge(g, s.path, u, w);
    assert Num(s.index, w) >= 0;
    if !Placed(s.components, w) {
      assert w in s.stack;
      assert InRegion(s, |s.path| - 1, u);
    }
  }

  lemma PlacedClosed(g: Graph, components: seq<seq<nat>>, u: nat, w: nat)
    requires ClassesInOrder(g, components) && Placed(components, u) && Edge(g, u, w)
    ensures Placed(components, w)
  {
    var k :| 0 <= k < |components| && u in components[k];
    assert Placed(components[..k + 1], w);
    var j :| 0 <= j < |components[..k + 1]| && w in components[..k + 1][j];
    assert w in components[j];
  }

  lemma PlacedReach(g: Graph, components: seq<seq<nat>>, u: nat, w: nat)
    requires ClassesInOrder(g, components) && Placed(components, u) && Reach(g, u, w)
    ensures Placed(components, w)
  {
    var s := set x: nat | x in Below(|g|) && Placed(components, x);
    ReachNodes(g, u, w);
    forall x: nat, y: nat | x in s && Edge(g, x, y)
      ensures y in s
    {
      PlacedClosed(g, components, x, y);
    }
    ReachClosed(g, s, u, w);
  }

  lemma ComponentReach(g: Graph, s: State, component: seq<nat>, u: nat, w: nat)
    requires Numbered(g, s) && Located(g, s) && Explored(g, s) && LowLinked(g, s) && Closing(g, s, component)
    requires ClassesInOrder(g, s.components)
    requires u in component && Reach(g, u, w)
    ensures w in component || Placed(s.components, w)
  {
    var c := set x: nat | x in Below(|g|) && (x in component || Placed(s.components, x));
    ReachNodes(g, u, w);
    forall x: nat, y: nat | x in c && Edge(g, x, y)
      ensures y in c
    {
      if x in component {
        ComponentEdges(g, s, component, x, y);
      } else {
        PlacedClosed(g, s.components, x, y);
      }
    }
    ReachClosed(g, c, u, w);
  }

  /** Two nodes of the component reach each other, through its first node. */
  lemma ComponentMutual(g: Graph, s: State, component: seq<nat>, u: nat, v: nat)
    requires Numbered(g, s) && Connected(g, s) && Closing(g, s, component)
    requires u in component && v in component
    ensures Reach(g, u, v)
  {
    var top := |s.path| - 1;
    var node := s.path[top].0;
    assert Anchored(g, s, u);
    var k :| 0 <= k < |s.path| && Num(s.index, s.path[k].0) <= Num(s.index, u) && Reach(g, u, s.path[k].0);
    PathReachesEnd(g, s, k);
    ReachTrans(g, u, s.path[k].0, node);
    assert Reach(g, node, v);
    ReachTrans(g, u, node, v);
  }

  lemma ComponentIsClass(g: Graph, s: State, component: seq<nat>)
    requires Inv(g, s) && Closing(g, s, component)
    ensures IsClass(g, component)
  {
    var node := s.path[|s.path| - 1].0;
    assert node in component;
    forall u: nat, v: nat | u in component
      ensures v in component <==> Mutual(g, u, v)
    {
      assert !Placed(s.components, u);
      if v in component {
        ComponentMutual(g, s, component, u, v);
        ComponentMutual(g, s, component, v, u);
      } else if Mutual(g, u, v) {
        ComponentReach(g, s, component, u, v);
        if Placed(s.components, v) {
          PlacedReach(g, s.components, v, u);
        }
      }
    }
  }

  lemma CloseClasses(g: Graph, s: State, component: seq<nat>)
    requires Inv(g, s) && Closing(g, s, component)
    ensures ClassesInOrder(g, s.components + [component])
  {
    var all := s.components + [component];
    ComponentIsClass(g, s, component);
    forall j, k, v: nat | 0 <= j < k < |all| && v in all[j]
      ensures v !in all[k]
    {
      if k == |s.components| {
        assert Placed(s.components, v);
      }
    }
    forall k, u: nat, w: nat | 0 <= k < |all| && u in all[k] && Edge(g, u, w)
      ensures Placed(all[..k + 1], w)
    {
      if k < |s.components| {
        assert all[..k + 1] == s.components[..k + 1];
      } else {
        assert all[..k + 1] == all;
        ComponentEdges(g, s, component, u, w);
        PlacedMore(s.components, component, w);
      }
    }
  }

  lemma PlacedMore(components: seq<seq<nat>>, component: seq<nat>, v: nat)
    ensures Placed(components + [component], v) <==> Placed(components, v) || v in component
  {
    var all := components + [component];
    if Placed(components, v) {
      var k :| 0 <= k < |components| && v in components[k];
      assert v in all[k];
    }
    if v in component {
      assert v in all[|components|];
    }
  }

  /** The nodes that stay open are those discovered before the component. */
  ghost predicate ClosesAt(s: State, position: nat) {
    && s.path != [] && position <= |s.stack|
    && forall v: nat :: v in s.stack[..position] <==>
         v in s.stack && Num(s.index, v) < Num(s.index, s.path[|s.path| - 1].0)
  }

  lemma CloseLocated(g: Graph, s: State, position: nat, component: seq<nat>)
    requires Numbered(g, s) && Located(g, s) && Closing(g, s, component) && ClosesAt(s, position)
    ensures Located(g, Close(s, position, component))
  {
    var t := Close(s, position, component);
    forall v: nat | v < |g|
      ensures Num(t.index, v) >= 0 <==> v in t.stack || Placed(t.components, v)
      ensures v in t.stack ==> !Placed(t.components, v)
    {
      PlacedMore(s.components, component, v);
      assert Placed(s.components, v) || !Placed(s.components, v);
    }
    forall v: nat | v in t.stack
      ensures !Placed(t.components, v)
    {
      assert v in s.stack && v < |g|;
    }
  }

  lemma CloseAnchored(g: Graph, s: State, position: nat, component: seq<nat>, y: nat)
    requires Numbered(g, s) && Anchored(g, s, y) && Closing(g, s, component) && ClosesAt(s, position)
    requires y in s.stack[..position]
    ensures Anchored(g, Close(s, position, component), y)
  {
    hide Reach;
    var k :| 0 <= k < |s.path| && Num(s.index, s.path[k].0) <= Num(s.index, y) && Reach(g, y, s.path[k].0);
    assert Close(s, position, component).path[k] == s.path[k];
  }

  lemma CloseConnected(g: Graph, s: State, position: nat, component: seq<nat>)
    requires Numbered(g, s) && Connected(g, s) && Closing(g, s, component) && ClosesAt(s, position)
    ensures Connected(g, Close(s, position, component))
  {
    var t := Close(s, position, component);
    assert forall k :: 0 <= k < |s.path| - 1 ==> t.path[k] == s.path[k];
    forall y: nat {:trigger Anchored(g, t, y)} | y in t.stack
      ensures Anchored(g, t, y)
    {
      assert Anchored(g, s, y);
      CloseAnchored(g, s, position, component, y);
    }
  }

  /** Dropping the open nodes from some number on keeps the low links of nodes
      with smaller numbers. */
  lemma KeepLowLinked(g: Graph, r: State, t: State, bound: int)
    requires LowLinked(g, r) && t.path == r.path && t.low == r.low && t.index == r.index
    requires forall v: nat :: v in t.stack <==> v in r.stack && Num(r.index, v) < bound
    requires forall k :: 0 <= k < |r.path| ==> Num(r.index, r.path[k].0) < bound
    ensures LowLinked(g, t)
  {
    hide Reach, Num, TriedEdge;
    forall k {:trigger LowReached(g, t, t.path[k].0)} | 0 <= k < |t.path|
      ensures LowReached(g, t, t.path[k].0)
    {
      var v := t.path[k].0;
      assert LowReached(g, r, v);
      var z: nat :| z in r.stack && Num(r.index, z) == r.low[v] && Reach(g, v, z);
      assert z in t.stack && Num(t.index, z) == t.low[v];
    }
    forall k: nat, y: nat, w: nat | InRegion(t, k, y) && w in t.stack && TriedEdge(g, t.path, y, w)
      ensures t.low[t.path[k].0] <= Num(t.index, w)
    {
      assert InRegion(r, k, y);
    }
  }

  lemma CloseLowLinked(g: Graph, s: State, position: nat, component: seq<nat>)
    requires Numbered(g, s) && Connected(g, s) && LowLinked(g, s)
    requires Closing(g, s, component) && ClosesAt(s, position)
    ensures LowLinked(g, Close(s, position, component))
  {
    hide Connected, LowLinked, Wf, Num;
    LeaveLowLinked(g, s);
    LowLinkedSizes(g, s);
    KeepLowLinked(g, Leave(s), Close(s, position, component), Num(s.index, s.path[|s.path| - 1].0));
  }

  lemma LowLinkedSizes(g: Graph, s: State)
    requires LowLinked(g, s)
    ensures |s.low| == |g| && forall k :: 0 <= k < |s.path| ==> s.path[k].0 < |g|
  {
  }

  lemma ShrinkNumbered(g: Graph, s: State, position: nat)
    requires Numbered(g, s) && position <= |s.stack|
    requires forall k :: 0 <= k < |s.path| ==> s.path[k].0 in s.stack[..position]
    ensures Numbered(g, s.(stack := s.stack[..position]))
  {
    assert forall i :: 0 <= i < position ==> s.stack[..position][i] == s.stack[i];
  }

  lemma PathStaysOpen(g: Graph, s: State, position: nat, k: nat)
    requires Numbered(g, s) && ClosesAt(s, position) && k < |s.path| - 1
    ensures s.path[k].0 in s.stack[..position]
  {
    var top := |s.path| - 1;
    assert s.path[k].0 in s.stack && Num(s.index, s.path[k].0) < Num(s.index, s.path[top].0);
  }

  lemma CloseNumbered(g: Graph, s: State, position: nat, component: seq<nat>)
    requires Numbered(g, s) && Closing(g, s, component) && ClosesAt(s, position)
    ensures Numbered(g, Close(s, position, component))
  {
    LeaveNumbered(g, s);
    hide Closing, Numbered;
    var r := Leave(s);
    forall k | 0 <= k < |r.path|
      ensures r.path[k].0 in r.stack[..position]
    {
      PathStaysOpen(g, s, position, k);
    }
    ShrinkNumbered(g, r, position);
    SameNumbered(g, r.(stack := r.stack[..position]), Close(s, position, component));
  }

  lemma SameNumbered(g: Graph, s: State, t: State)
    requires Numbered(g, s) && t == s.(components := t.components)
    ensures Numbered(g, t)
  {
  }

  lemma CloseKeeps(g: Graph, s: State, position: nat, component: seq<nat>)
    requires Inv(g, s) && Closing(g, s, component) && ClosesAt(s, position)
    ensures Inv(g, Close(s, position, component))
  {
    CloseNumbered(g, s, position, component);
    CloseLocated(g, s, position, component);
    CloseConnected(g, s, position, component);
    CloseLowLinked(g, s, position, component);
    CloseClasses(g, s, component);
    LeaveExplored(g, s);
    assert Explored(g, Close(s, position, component));
  }

  // The loop

  /** The whole loop state: the invariant, the on-stack flags, and how many
      numbers are still free. */
  ghost predicate Run(g: Graph, s: State, onStack: seq<bool>) {
    && Inv(g, s)
    && |onStack| == |g| && (forall v: nat :: v < |g| ==> (onStack[v] <==> v in s.stack))
    && s.next + |Unvisited(s.index)| == |g|
  }

  /** What the loop body reads is in range. */
  lemma RunInRange(g: Graph, s: State, onStack: seq<bool>)
    requires Run(g, s, onStack)
    ensures |s.index| == |s.low| == |onStack| == |g| && s.next <= |g|
    ensures s.path != [] ==>
              var (node, cursor) := s.path[|s.path| - 1];
              node < |g| && cursor <= |g[node]| && (cursor < |g[node]| ==> g[node][cursor] < |g|)
    ensures |s.path| > 1 ==>
              s.path[|s.path| - 2].0 < |g| && s.path[|s.path| - 2].0 != s.path[|s.path| - 1].0
  {
    if s.path != [] {
      var (node, cursor) := s.path[|s.path| - 1];
      assert cursor < |g[node]| ==> g[node][cursor] in g[node];
    }
  }

  predicate VisitedBelow(index: seq<Option<nat>>, n: nat) {
    n <= |index| && forall v :: 0 <= v < n ==> index[v].Some?
  }

  ghost function Unvisited(index: seq<Option<nat>>): set<nat> {
    set v: nat | v < |index| && index[v].None?
  }

  lemma StartRuns(g: Graph, index: seq<Option<nat>>, low: seq<nat>, onStack: seq<bool>)
    requires Wf(g) && |index| == |low| == |onStack| == |g|
    requires forall v :: 0 <= v < |g| ==> index[v].None? && !onStack[v]
    ensures Run(g, State(index, low, 0, [], [], []), onStack)
  {
    assert Unvisited(index) == Below(|g|);
  }

  lemma EnterRuns(g: Graph, s: State, onStack: seq<bool>, w: nat)
    requires Run(g, s, onStack) && CanEnter(g, s, w)
    ensures Run(g, Enter(s, w), onStack[w := true]) && s.next < |g|
  {
    EnterKeeps(g, s, w);
    var before, after := Unvisited(s.index), Unvisited(Enter(s, w).index);
    assert w in before && after == before - {w};
  }

  /** The edge that the next step of the loop tries. */
  ghost predicate Trying(g: Graph, s: State, w: nat) {
    && s.path != []
    && var (node, cursor) := s.path[|s.path| - 1];
       node < |g| && cursor < |g[node]| && g[node][cursor] == w
  }

  lemma DiscoverCanAdvance(g: Graph, s: State, w: nat)
    requires Numbered(g, s) && LowLinked(g, s) && Trying(g, s, w) && w < |g| && Num(s.index, w) < 0
    ensures CanEnter(g, s, w) && w < |s.index| == |s.low|
    ensures CanAdvance(g, Enter(s, w), |s.path| - 1)
  {
    EnterFacts(g, s, w);
    assert Enter(s, w).path[|s.path| - 1] == s.path[|s.path| - 1];
  }

  /** The state after the path's end discovers `w`. */
  function Discover(s: State, w: nat): State
    requires w < |s.index| == |s.low| && s.path != []
  {
    var (node, cursor) := s.path[|s.path| - 1];
    Enter(s, w).(path := s.path[|s.path| - 1 := (node, cursor + 1)] + [(w, 0)])
  }

  lemma DiscoverKeeps(g: Graph, s: State, w: nat)
    requires Inv(g, s) && Trying(g, s, w) && w < |g| && Num(s.index, w) < 0
    ensures CanEnter(g, s, w) && w < |s.index| == |s.low| && Inv(g, Discover(s, w))
  {
    hide Numbered, Located, Explored, Connected, LowLinked, ClassesInOrder;
    var top := |s.path| - 1;
    DiscoverCanAdvance(g, s, w);
    hide Inv, CanAdvance, CanEnter;
    EnterKeeps(g, s, w);
    var t := Enter(s, w);
    AdvanceKeeps(g, t, top);
    assert t.path[top] == s.path[top];
    assert Advance(t, top).path == Discover(s, w).path;
    assert Advance(t, top) == Discover(s, w);
  }

  lemma DiscoverRuns(g: Graph, s: State, onStack: seq<bool>, w: nat)
    requires Run(g, s, onStack) && Trying(g, s, w) && w < |g| && Num(s.index, w) < 0
    ensures w < |s.index| == |s.low| && s.next < |g|
    ensures Run(g, Discover(s, w), onStack[w := true])
  {
    hide Inv;
    DiscoverKeeps(g, s, w);
    hide CanEnter, Trying;
    EnterRuns(g, s, onStack, w);
  }

  lemma TouchCanAdvance(g: Graph, s: State, w: nat)
    requires Numbered(g, s) && LowLinked(g, s) && Trying(g, s, w) && w in s.stack
    ensures var top := |s.path| - 1;
            && s.path[top].0 < |s.low| && Num(s.index, w) >= 0
            && Edge(g, s.path[top].0, w)
            && CanAdvance(g, Lower(s, s.path[top].0, Num(s.index, w)), top)
  {
  }

  lemma TouchKeeps(g: Graph, s: State, w: nat)
    requires Inv(g, s) && Trying(g, s, w) && w in s.stack
    ensures var top := |s.path| - 1;
            && s.path[top].0 < |s.low| && Num(s.index, w) >= 0
            && Inv(g, Lower(Advance(s, top), s.path[top].0, Num(s.index, w)))
  {
    hide Numbered, Located, Explored, Connected, LowLinked, ClassesInOrder, Edge, CanAdvance;
    var top := |s.path| - 1;
    var node := s.path[top].0;
    TouchCanAdvance(g, s, w);
    hide Inv;
    ReachEdge(g, node, w);
    LowerKeeps(g, s, top, w);
    var t := Lower(s, node, Num(s.index, w));
    AdvanceKeeps(g, t, top);
    assert Advance(t, top) == Lower(Advance(s, top), node, Num(s.index, w));
  }

  lemma TouchRuns(g: Graph, s: State, onStack: seq<bool>, w: nat)
    requires Run(g, s, onStack) && Trying(g, s, w) && w < |g| && onStack[w]
    ensures var top := |s.path| - 1;
            && s.path[top].0 < |s.low| && Num(s.index, w) >= 0
            && Run(g, Lower(Advance(s, top), s.path[top].0, Num(s.index, w)), onStack)
  {
    hide Inv;
    TouchKeeps(g, s, w);
  }

  lemma PassRuns(g: Graph, s: State, onStack: seq<bool>, w: nat)
    requires Run(g, s, onStack) && Trying(g, s, w) && w < |g| && !onStack[w] && Num(s.index, w) >= 0
    ensures Run(g, Advance(s, |s.path| - 1), onStack)
  {
    AdvanceKeeps(g, s, |s.path| - 1);
  }

  lemma LeaveRuns(g: Graph, s: State, onStack: seq<bool>)
    requires Run(g, s, onStack) && Exhausted(g, s)
    requires var node := s.path[|s.path| - 1].0; s.low[node] != Num(s.index, node)
    ensures Run(g, Leave(s), onStack)
  {
    LeaveKeeps(g, s);
  }

  /** Part of the component was popped: `stack` is what is left of the open
      nodes, and `component` the nodes popped. */
  ghost predicate Popped(s: State, stack: seq<nat>, onStack: seq<bool>, component: seq<nat>) {
    && |onStack| == |s.index|
    && |stack| <= |s.stack| && stack == s.stack[..|stack|]
    && Distinct(component)
    && (forall v: nat :: v in component <==> v in s.stack[|stack|..])
    && (forall v: nat :: v < |onStack| ==> (onStack[v] <==> v in stack))
  }

  ghost predicate Poppable(s: State) {
    Distinct(s.stack) && forall v: nat :: v in s.stack ==> v < |s.index|
  }

  lemma BeginPop(g: Graph, s: State, onStack: seq<bool>)
    requires Run(g, s, onStack) && Exhausted(g, s)
    ensures Poppable(s) && Popped(s, s.stack, onStack, [])
    ensures s.path[|s.path| - 1].0 in s.stack
  {
  }

  lemma PopOne(s: State, stack: seq<nat>, onStack: seq<bool>, component: seq<nat>)
    requires Popped(s, stack, onStack, component) && Poppable(s) && stack != []
    ensures var k := |stack| - 1;
            && k < |s.stack| && s.stack[k] == stack[k]
            && stack[k] < |onStack|
            && Popped(s, stack[..k], onStack[stack[k] := false], component + [stack[k]])
  {
    var k := |stack| - 1;
    var member := stack[k];
    assert s.stack[k] == member && member in s.stack;
    assert s.stack[k..] == [member] + s.stack[k + 1..];
    assert stack == stack[..k] + [member];
    assert forall i :: 0 <= i < |s.stack| && i != k ==> s.stack[i] != member;
    assert member !in stack[..k] && member !in s.stack[k + 1..];
  }

  /** Popping down to `node` leaves the nodes discovered before it. */
  /** A stack in numerical order splits at any place by number. */
  lemma SplitByNumber(index: seq<Option<nat>>, stack: seq<nat>, p: nat, v: nat)
    requires forall i, j :: 0 <= i < j < |stack| ==> Num(index, stack[i]) < Num(index, stack[j])
    requires p < |stack|
    ensures v in stack[..p] <==> v in stack && Num(index, v) < Num(index, stack[p])
    ensures v in stack[p..] <==> v in stack && Num(index, stack[p]) <= Num(index, v)
  {
    hide Num;
    assert stack == stack[..p] + stack[p..];
    if v in stack[..p] {
      var i :| 0 <= i < p && stack[i] == v;
    }
    if v in stack[p..] {
      var i :| 0 <= i < |stack| - p && stack[p..][i] == v;
      assert stack[p + i] == v;
    }
  }

  lemma StackSorted(g: Graph, s: State)
    requires Numbered(g, s)
    ensures forall i, j :: 0 <= i < j < |s.stack| ==> Num(s.index, s.stack[i]) < Num(s.index, s.stack[j])
  {
  }

  lemma PoppedDownTo(g: Graph, s: State, stack: seq<nat>, onStack: seq<bool>, component: seq<nat>, node: nat)
    requires Numbered(g, s) && Popped(s, stack, onStack, component)
    requires |stack| < |s.stack| && s.stack[|stack|] == node
    ensures OpenFrom(s, node, component)
    ensures forall v: nat :: v in stack <==> v in s.stack && Num(s.index, v) < Num(s.index, node)
  {
    hide Numbered, Num, Distinct;
    StackSorted(g, s);
    forall v: nat
      ensures v in stack <==> v in s.stack && Num(s.index, v) < Num(s.index, node)
      ensures v in component <==> v in s.stack && Num(s.index, node) <= Num(s.index, v)
    {
      SplitByNumber(s.index, s.stack, |stack|, v);
    }
  }

  lemma CloseRuns(g: Graph, s: State, flags: seq<bool>, stack: seq<nat>, onStack: seq<bool>, component: seq<nat>)
    requires Run(g, s, flags) && Exhausted(g, s) && Popped(s, stack, onStack, component)
    requires var node := s.path[|s.path| - 1].0;
             && s.low[node] == Num(s.index, node)
             && |stack| < |s.stack| && s.stack[|stack|] == node
    ensures stack == s.stack[..|stack|] && Run(g, Close(s, |stack|, component), onStack)
  {
    var node := s.path[|s.path| - 1].0;
    PoppedDownTo(g, s, stack, onStack, component, node);
    CloseKeeps(g, s, |stack|, component);
  }

  lemma NoAnchor(g: Graph, s: State, y: nat)
    requires s.path == []
    ensures !Anchored(g, s, y)
  {
  }

  lemma RunEnds(g: Graph, s: State, onStack: seq<bool>)
    requires Run(g, s, onStack) && s.path == []
    ensures s.stack == [] && ClassesInOrder(g, s.components)
    ensures forall v: nat :: v < |g| && Num(s.index, v) >= 0 ==> Placed(s.components, v)
  {
    if s.stack != [] {
      NoAnchor(g, s, s.stack[0]);
    }
    forall v: nat | v < |g| && Num(s.index, v) >= 0
      ensures Placed(s.components, v)
    {
      assert Placed(s.components, v) || v in s.stack;
    }
  }
}
