/** The three loops that run over the adjacency lists of `DependencyGraph`:
    depth-first search, Kahn's algorithm and Tarjan's algorithm. They only read
    the lists. */
module GraphLoops {
  import opened Outcomes
  import opened Digraph
  import opened DepthFirst
  import opened Fifo
  import opened Numbers
  import SC = StrongComponents

  datatype IndexCycle<E> = IndexCycle(entry: nat, rest: seq<nat>, closing: E)

  datatype Visit = Unvisited | OnPath(depth: nat) | Done

  /** The explicit-stack search computes the recursive one. */
  method DepthFirstIndices<E>(d: Adjacency<E>) returns (r: Result<seq<nat>, IndexCycle<E>>)
    requires WfAdjacency(d)
    ensures SearchReturns(d, r)
  {
    hide BetweenRoots, Searched, SearchReturns;
    var state := new Visit[|d|](_ => Unvisited);
    var postOrder: seq<nat> := [];
    var path: seq<Frame> := [];
    StartSearch(d, state[..]);
    for root := 0 to |d|
      invariant path == [] && BetweenRoots(d, root, state[..], postOrder)
    {
      if state[root] != Unvisited {
        SkipRoot(d, root, state[..], postOrder);
        continue;
      }
      StartRoot(d, root, state[..], postOrder);
      ghost var before := state[..];
      state[root] := OnPath(0);
      assert state[..] == before[root := OnPath(0)];
      path := [(root, 0)];
      while path != []
        invariant Searched(d, root, state[..], path, postOrder)
        decreases |d| - |postOrder| - |path|, |path|, Untried(d, path)
      {
        SearchInRange(d, root, state[..], path, postOrder);
        var top := |path| - 1;
        var (node, cursor) := path[top];
        if cursor == |d[node]| {
          StepEmit(d, root, state[..], path, postOrder);
          ghost var before := state[..];
          state[node] := Done;
          assert state[..] == before[node := Done];
          postOrder := postOrder + [node];
          path := path[..top];
          continue;
        }
        var (dependency, tag) := d[node][cursor];
        match state[dependency]
        case Unvisited =>
          StepPush(d, root, state[..], path, postOrder);
          ghost var before := state[..];
          state[dependency] := OnPath(|path|);
          assert state[..] == before[dependency := OnPath(|path|)];
          path := path[top := (node, cursor + 1)] + [(dependency, 0)];
        case OnPath(position) =>
          StepReenter(d, root, state[..], path, postOrder);
          return Err(IndexCycle(dependency, Firsts(path)[position + 1..], tag));
        case Done =>
          StepSkip(d, root, state[..], path, postOrder);
          path := path[top := (node, cursor + 1)];
      }
      SearchInRange(d, root, state[..], path, postOrder);
      EndRoot(d, root, state[..], postOrder);
    }
    EndSearch(d, state[..], postOrder);
    return Ok(postOrder);
  }

  // The states of the depth-first loop

  ghost predicate SearchReturns<E>(d: Adjacency<E>, r: Result<seq<nat>, IndexCycle<E>>) {
    WfAdjacency(d) && r == SearchResult(DepthFirstSearch(d))
  }

  ghost function SearchResult<E>(s: Search<E>): Result<seq<nat>, IndexCycle<E>> {
    match s
    case Finished(order) => Ok(order)
    case Reentered(entry, rest, closing) => Err(IndexCycle(entry, rest, closing))
  }

  /** The visit states say which nodes are on the path, where, and which are
      finished. */
  ghost predicate Marked(state: seq<Visit>, path: seq<Frame>, done: seq<nat>) {
    && (forall v: nat :: v < |state| ==> (state[v] == Done <==> v in done))
    && (forall v: nat :: v < |state| && state[v].OnPath? ==>
          state[v].depth < |path| && path[state[v].depth].0 == v)
    && (forall k :: 0 <= k < |path| ==> path[k].0 < |state| && state[path[k].0] == OnPath(k))
  }

  ghost predicate BetweenRoots<E>(d: Adjacency<E>, root: nat, state: seq<Visit>, done: seq<nat>) {
    && WfAdjacency(d) && root <= |d| == |state|
    && Distinct(done) && (forall v: nat :: v in done ==> v < |d|)
    && Marked(state, [], done)
    && DepthFirstSearch(d) == SearchFrom(d, root, done)
  }

  ghost predicate Searched<E>(d: Adjacency<E>, root: nat, state: seq<Visit>, path: seq<Frame>, done: seq<nat>) {
    && root < |d| == |state|
    && Framed(d, path, done) && |path| + |done| <= |d|
    && Distinct(done) && (forall v: nat :: v in done ==> v < |d|)
    && Marked(state, path, done)
    && DepthFirstSearch(d) == Outcome(d, root, path, done)
  }

  /** What the loop body reads is in range. */
  lemma SearchInRange<E>(d: Adjacency<E>, root: nat, state: seq<Visit>, path: seq<Frame>, done: seq<nat>)
    requires Searched(d, root, state, path, done)
    ensures |state| == |d| && |path| + |done| <= |d|
    ensures path != [] ==>
              var (node, cursor) := path[|path| - 1];
              node < |d| && cursor <= |d[node]| && (cursor < |d[node]| ==> d[node][cursor].0 < |d|)
  {
  }

  function Untried<E>(d: Adjacency<E>, path: seq<Frame>): int {
    if path == [] || path[|path| - 1].0 >= |d| then 0
    else |d[path[|path| - 1].0]| - path[|path| - 1].1
  }

  lemma SearchBound<E>(d: Adjacency<E>, path: seq<Frame>, done: seq<nat>)
    requires Framed(d, path, done) && Distinct(done) && forall v: nat :: v in done ==> v < |d|
    ensures |path| + |done| <= |d|
  {
    var all := done + Firsts(path);
    forall i, j | 0 <= i < j < |all|
      ensures all[i] != all[j]
    {
      if i < |done| <= j {
        assert all[j] in Firsts(path) && all[i] in done;
      }
    }
    DistinctBound(all, |d|);
  }

  lemma StartSearch<E>(d: Adjacency<E>, state: seq<Visit>)
    requires WfAdjacency(d) && |state| == |d| && forall v :: 0 <= v < |d| ==> state[v] == Unvisited
    ensures BetweenRoots(d, 0, state, [])
  {
  }

  lemma SkipRoot<E>(d: Adjacency<E>, root: nat, state: seq<Visit>, done: seq<nat>)
    requires BetweenRoots(d, root, state, done) && root < |d| && state[root] != Unvisited
    ensures BetweenRoots(d, root + 1, state, done)
  {
  }

  lemma StartRoot<E>(d: Adjacency<E>, root: nat, state: seq<Visit>, done: seq<nat>)
    requires BetweenRoots(d, root, state, done) && root < |d| && state[root] == Unvisited
    ensures Searched(d, root, state[root := OnPath(0)], [(root, 0)], done)
  {
    var path: seq<Frame> := [(root, 0)];
    assert Firsts(path) == [root];
    SearchBound(d, path, done);
    var r := Explore(d, root, 0, [root], done);
    if r.Finished? {
      assert path[..0] == [];
      assert Resume(d, path, done) == r;
    }
  }

  lemma EndRoot<E>(d: Adjacency<E>, root: nat, state: seq<Visit>, done: seq<nat>)
    requires Searched(d, root, state, [], done)
    ensures BetweenRoots(d, root + 1, state, done)
  {
  }

  lemma EndSearch<E>(d: Adjacency<E>, state: seq<Visit>, done: seq<nat>)
    requires BetweenRoots(d, |d|, state, done)
    ensures SearchReturns(d, Ok(done))
  {
  }

  lemma StepEmit<E>(d: Adjacency<E>, root: nat, state: seq<Visit>, path: seq<Frame>, done: seq<nat>)
    requires Searched(d, root, state, path, done) && path != [] && Untried(d, path) == 0
    ensures var node := path[|path| - 1].0;
            Searched(d, root, state[node := Done], path[..|path| - 1], done + [node])
  {
    var node := path[|path| - 1].0;
    assert Firsts(path)[|path| - 1] == node;
    ResumeEmit(d, path, done);
  }

  lemma StepSkip<E>(d: Adjacency<E>, root: nat, state: seq<Visit>, path: seq<Frame>, done: seq<nat>)
    requires Searched(d, root, state, path, done) && path != []
    requires var (node, cursor) := path[|path| - 1]; cursor < |d[node]| && state[d[node][cursor].0] == Done
    ensures var (node, cursor) := path[|path| - 1];
            Searched(d, root, state, path[|path| - 1 := (node, cursor + 1)], done)
  {
    ResumeSkip(d, path, done);
  }

  lemma MarkedPush(state: seq<Visit>, path: seq<Frame>, done: seq<nat>, top: Frame, w: nat)
    requires Marked(state, path, done) && path != [] && top.0 == path[|path| - 1].0
    requires w < |state| && state[w] == Unvisited
    ensures Marked(state[w := OnPath(|path|)], path[|path| - 1 := top] + [(w, 0)], done)
    ensures w !in done && w !in Firsts(path)
  {
    assert forall k :: 0 <= k < |path| ==> path[k].0 != w;
  }

  lemma StepPush<E>(d: Adjacency<E>, root: nat, state: seq<Visit>, path: seq<Frame>, done: seq<nat>)
    requires Searched(d, root, state, path, done) && path != []
    requires var (node, cursor) := path[|path| - 1]; cursor < |d[node]| && state[d[node][cursor].0] == Unvisited
    ensures var (node, cursor) := path[|path| - 1];
            var dependency := d[node][cursor].0;
            && |path| + |done| < |d|
            && Searched(d, root, state[dependency := OnPath(|path|)],
                        path[|path| - 1 := (node, cursor + 1)] + [(dependency, 0)], done)
  {
    hide Marked, Framed, Resume, DepthFirstSearch, Distinct;
    SearchInRange(d, root, state, path, done);
    var (node, cursor) := path[|path| - 1];
    var dependency := d[node][cursor].0;
    MarkedPush(state, path, done, (node, cursor + 1), dependency);
    ResumePush(d, path, done);
    SearchBound(d, path[|path| - 1 := (node, cursor + 1)] + [(dependency, 0)], done);
  }

  lemma StepReenter<E>(d: Adjacency<E>, root: nat, state: seq<Visit>, path: seq<Frame>, done: seq<nat>)
    requires Searched(d, root, state, path, done) && path != []
    requires var (node, cursor) := path[|path| - 1]; cursor < |d[node]| && state[d[node][cursor].0].OnPath?
    ensures var (node, cursor) := path[|path| - 1];
            var (dependency, tag) := d[node][cursor];
            && state[dependency].depth < |path|
            && SearchReturns(d, Err(IndexCycle(dependency, Firsts(path)[state[dependency].depth + 1..], tag)))
  {
    var (node, cursor) := path[|path| - 1];
    ResumeReenter(d, path, done, state[d[node][cursor].0].depth);
  }

  /** Tarjan's loop: every class of mutual reachability, each after the
      classes that it depends on. */
  method ComponentIndices<E>(d: Adjacency<E>) returns (components: seq<seq<nat>>)
    requires WfAdjacency(d)
    ensures SC.ClassesInOrder(Targets(d), components)
    ensures forall v: nat :: v < |d| ==> SC.Placed(components, v)
  {
    hide SC.Run, SC.ClassesInOrder, SC.Placed, SC.Popped, SC.Poppable, Wf, Targets, Firsts, Edge;
    ghost var g := Targets(d);
    var index: seq<Option<nat>> := seq(|d|, _ => None);
    var lowLink: seq<nat> := seq(|d|, _ => 0);
    var onStack: seq<bool> := seq(|d|, _ => false);
    var stack: seq<nat> := [];
    var nextIndex := 0;
    var path: seq<SC.Frame> := [];
    components := [];
    assert Wf(g) by {
      TargetsWf(d);
    }
    SC.StartRuns(g, index, lowLink, onStack);
    for root := 0 to |d|
      invariant path == [] && SC.Run(g, SC.State(index, lowLink, nextIndex, stack, path, components), onStack)
      invariant SC.VisitedBelow(index, root)
    {
      SC.RunInRange(g, SC.State(index, lowLink, nextIndex, stack, path, components), onStack);
      if index[root].Some? {
        continue;
      }
      SC.EnterRuns(g, SC.State(index, lowLink, nextIndex, stack, path, components), onStack, root);
      index := index[root := Some(nextIndex)];
      lowLink := lowLink[root := nextIndex];
      nextIndex := nextIndex + 1;
      stack := stack + [root];
      onStack := onStack[root := true];
      path := path + [(root, 0)];
      while path != []
        invariant SC.Run(g, SC.State(index, lowLink, nextIndex, stack, path, components), onStack)
        invariant SC.VisitedBelow(index, root + 1)
        decreases |d| - nextIndex, |path|, Untried(d, path)
      {
        ghost var s := SC.State(index, lowLink, nextIndex, stack, path, components);
        SC.RunInRange(g, s, onStack);
        var top := |path| - 1;
        var (node, cursor) := path[top];
        if cursor < |d[node]| {
          path := path[top := (node, cursor + 1)];
          var dependency := d[node][cursor].0;
          if index[dependency].None? {
            SC.DiscoverRuns(g, s, onStack, dependency);
            index := index[dependency := Some(nextIndex)];
            lowLink := lowLink[dependency := nextIndex];
            nextIndex := nextIndex + 1;
            stack := stack + [dependency];
            onStack := onStack[dependency := true];
            path := path + [(dependency, 0)];
          } else if onStack[dependency] {
            SC.TouchRuns(g, s, onStack, dependency);
            lowLink := lowLink[node := Min(lowLink[node], index[dependency].value)];
          } else {
            SC.PassRuns(g, s, onStack, dependency);
          }
          continue;
        }
        path := path[..top];
        if path != [] {
          var parent := path[|path| - 1].0;
          lowLink := lowLink[parent := Min(lowLink[parent], lowLink[node])];
        }
        if index[node] == Some(lowLink[node]) {
          ghost var flags := onStack;
          SC.BeginPop(g, s, onStack);
          var component: seq<nat> := [];
          while stack != []
            invariant SC.Popped(s, stack, onStack, component) && node in stack
          {
            var member := stack[|stack| - 1];
            SC.PopOne(s, stack, onStack, component);
            stack := stack[..|stack| - 1];
            onStack := onStack[member := false];
            component := component + [member];
            if member == node {
              break;
            }
          }
          SC.CloseRuns(g, s, flags, stack, onStack, component);
          components := components + [component];
        } else {
          SC.LeaveRuns(g, s, onStack);
        }
      }
    }
    SC.RunInRange(g, SC.State(index, lowLink, nextIndex, stack, path, components), onStack);
    SC.RunEnds(g, SC.State(index, lowLink, nextIndex, stack, path, components), onStack);
  }

  /** Emission rank of every node under first-in first-out Kahn. `acyclic` is
      any order that shows the graph to be acyclic. */
  method KahnRanks<E>(d: Adjacency<E>, dependents: Graph, ghost acyclic: seq<nat>) returns (rank: seq<nat>)
    requires WfAdjacency(d) && Mirror(Targets(d), dependents) && TopologicalOrder(Targets(d), acyclic)
    ensures RanksFifo(Targets(d), dependents, rank)
  {
    hide Enqueuing, Emitting, Releasing, Ranked, RanksFifo, TopologicalOrder, Mirror;
    ghost var g, h := Targets(d), dependents;
    var pending := new nat[|d|](i requires 0 <= i < |d| => |d[i]|);
    var ready: seq<nat> := [];
    StartKahn(d, h, pending[..]);
    for node := 0 to |d|
      invariant Enqueuing(g, h, pending[..], ready, node)
    {
      EnqueueFree(g, h, pending[..], ready, node);
      if pending[node] == 0 {
        ready := ready + [node];
      }
    }
    var ranks := new nat[|d|](_ => 0);
    ghost var queued := ready;
    ghost var at := BeginQueue(g, h, pending[..], queued, ranks[..]);
    var emitted: nat := 0;
    while ready != []
      invariant emitted <= |queued| && ready == queued[emitted..]
      invariant Emitting(g, h, pending[..], queued, emitted, at, ranks[..])
      decreases |d| - emitted
    {
      TakeOff(g, h, pending[..], queued, emitted, at, ranks[..]);
      ghost var before := ranks[..];
      var node := ready[0];
      ready := ready[1..];
      ranks[node] := emitted;
      assert ranks[..] == before[node := emitted];
      emitted := emitted + 1;
      for j := 0 to |dependents[node]|
        invariant emitted <= |queued| && ready == queued[emitted..] && queued[emitted - 1] == node
        invariant Releasing(g, h, pending[..], queued, emitted, at, j)
        invariant Ranked(ranks[..], queued[..emitted])
      {
        var dependent := dependents[node][j];
        ghost var counts, head := pending[..], queued[..emitted];
        queued, at := ReleaseNext(g, h, counts, queued, emitted, at, j);
        assert queued[..emitted] == head;
        pending[dependent] := SaturatingSub(pending[dependent], 1);
        assert pending[..] == counts[dependent := SaturatingSub(counts[dependent], 1)];
        if pending[dependent] == 0 {
          ready := ready + [dependent];
        }
      }
      EndEmission(g, h, pending[..], queued, emitted, at, ranks[..]);
    }
    EndQueue(g, h, pending[..], queued, at, ranks[..], acyclic);
    rank := ranks[..];
  }

  lemma StartKahn<E>(d: Adjacency<E>, h: Graph, pending: seq<nat>)
    requires Mirror(Targets(d), h) && |pending| == |d|
    requires forall v :: 0 <= v < |d| ==> pending[v] == |d[v]|
    ensures Enqueuing(Targets(d), h, pending, [], 0) && |h| == |d|
  {
  }
}
