/** The reading-order tool: recursive components, condensation, and Kahn's
    algorithm with a priority heap. */
module ReadingSchedule {
  import opened Digraph
  import opened ReadingOrders
  import opened ReadingResults
  import SC = StrongComponents
  import RC = RecursiveComponents

  method ComponentsOf(g: Graph) returns (sccs: seq<seq<nat>>)
    requires Wf(g)
    ensures SC.ClassesInOrder(g, sccs) && forall v: nat :: v < |g| ==> SC.Placed(sccs, v)
  {
    hide SC.Run, SC.ClassesInOrder, SC.Placed;
    var search := new RC.Components(|g|);
    SC.StartRuns(g, search.index, search.lowlink, search.onStack);
    for f := 0 to |g|
      invariant SC.Run(g, search.Now([]), search.onStack) && |search.index| == |g|
      invariant forall v: nat :: v < f ==> SC.Num(search.index, v) >= 0
    {
      if search.index[f].None? {
        search.StrongConnect(g, f, []);
      }
    }
    SC.RunEnds(g, search.Now([]), search.onStack);
    sccs := search.sccs;
  }

  // The condensation

  /** `sccOf` says which class each file belongs to. */
  ghost predicate Owner(g: Graph, sccs: seq<seq<nat>>, sccOf: seq<nat>) {
    && |sccOf| == |g|
    && (forall v: nat :: v < |g| ==> sccOf[v] < |sccs| && v in sccs[sccOf[v]])
    && (forall k, v: nat :: 0 <= k < |sccs| && v in sccs[k] ==> v < |g| && sccOf[v] == k)
  }

  ghost predicate CrossEdge(g: Graph, sccOf: seq<nat>, i: nat, j: nat) {
    exists f: nat, w: nat :: f < |sccOf| && w < |sccOf| && Edge(g, f, w) && sccOf[f] == i && sccOf[w] == j && i != j
  }

  ghost predicate Condensed(g: Graph, sccOf: seq<nat>, sccDeps: seq<set<nat>>) {
    forall i: nat, j: nat :: i < |sccDeps| ==> (j in sccDeps[i] <==> CrossEdge(g, sccOf, i, j))
  }

  method OwnersOf(g: Graph, sccs: seq<seq<nat>>) returns (sccOf: seq<nat>)
    requires SC.ClassesInOrder(g, sccs) && forall v: nat :: v < |g| ==> SC.Placed(sccs, v)
    ensures Owner(g, sccs, sccOf)
  {
    sccOf := seq(|g|, _ => 0);
    for i := 0 to |sccs|
      invariant |sccOf| == |g| && forall k, v: nat :: 0 <= k < i && v in sccs[k] ==> v < |g| && sccOf[v] == k
    {
      assert SC.IsClass(g, sccs[i]);
      for l := 0 to |sccs[i]|
        invariant |sccOf| == |g| && forall k, v: nat :: 0 <= k < i && v in sccs[k] ==> v < |g| && sccOf[v] == k
        invariant forall v: nat :: v in sccs[i][..l] ==> v < |g| && sccOf[v] == i
      {
        assert sccs[i][l] in sccs[i];
        assert forall k :: 0 <= k < i ==> sccs[i][l] !in sccs[k];
        sccOf := sccOf[sccs[i][l] := i];
        assert sccs[i][..l + 1] == sccs[i][..l] + [sccs[i][l]];
      }
      assert sccs[i][..|sccs[i]|] == sccs[i];
    }
    forall v: nat | v < |g|
      ensures sccOf[v] < |sccs| && v in sccs[sccOf[v]]
    {
      assert SC.Placed(sccs, v);
    }
  }

  method Condense(g: Graph, sccOf: seq<nat>, m: nat) returns (sccDeps: seq<set<nat>>)
    requires Wf(g) && |sccOf| == |g| && forall v :: 0 <= v < |g| ==> sccOf[v] < m
    ensures |sccDeps| == m && Condensed(g, sccOf, sccDeps)
  {
    hide CrossEdge;
    sccDeps := seq(m, _ => {});
    for f := 0 to |g|
      invariant |sccDeps| == m
      invariant forall i: nat, j: nat :: i < m && j in sccDeps[i] ==> CrossEdge(g, sccOf, i, j)
      invariant forall u, w: nat ::
                0 <= u < f && w < |g| && w in g[u] && sccOf[u] != sccOf[w] ==> sccOf[w] in sccDeps[sccOf[u]]
    {
      for l := 0 to |g[f]|
        invariant |sccDeps| == m
        invariant forall i: nat, j: nat :: i < m && j in sccDeps[i] ==> CrossEdge(g, sccOf, i, j)
        invariant forall u, w: nat ::
                  0 <= u < f && w < |g| && w in g[u] && sccOf[u] != sccOf[w] ==> sccOf[w] in sccDeps[sccOf[u]]
        invariant forall w: nat :: w < |g| && w in g[f][..l] && sccOf[f] != sccOf[w] ==> sccOf[w] in sccDeps[sccOf[f]]
      {
        var d := g[f][l];
        assert d in g[f];
        if sccOf[f] != sccOf[d] {
          CrossEdgeOf(g, sccOf, f, d);
          sccDeps := sccDeps[sccOf[f] := sccDeps[sccOf[f]] + {sccOf[d]}];
        }
      }
      assert g[f][..|g[f]|] == g[f];
    }
    forall i: nat, j: nat | i < m && CrossEdge(g, sccOf, i, j)
      ensures j in sccDeps[i]
    {
      var f, w := CrossWitness(g, sccOf, i, j);
    }
  }

  lemma CrossEdgeOf(g: Graph, sccOf: seq<nat>, f: nat, w: nat)
    requires |sccOf| == |g| && Edge(g, f, w) && sccOf[f] != sccOf[w]
    ensures CrossEdge(g, sccOf, sccOf[f], sccOf[w])
  {
  }

  lemma CrossWitness(g: Graph, sccOf: seq<nat>, i: nat, j: nat) returns (f: nat, w: nat)
    requires CrossEdge(g, sccOf, i, j)
    ensures f < |sccOf| && w < |sccOf| && Edge(g, f, w) && sccOf[f] == i && sccOf[w] == j && i != j
  {
    f, w :| f < |sccOf| && w < |sccOf| && Edge(g, f, w) && sccOf[f] == i && sccOf[w] == j && i != j;
  }

  ghost predicate Reversed(sccDeps: seq<set<nat>>, rev: seq<set<nat>>) {
    |rev| == |sccDeps| && forall d: nat, i: nat :: d < |rev| ==> (i in rev[d] <==> i < |sccDeps| && d in sccDeps[i])
  }

  method Reverse(sccDeps: seq<set<nat>>) returns (rev: seq<set<nat>>)
    requires forall i, d: nat :: 0 <= i < |sccDeps| && d in sccDeps[i] ==> d < |sccDeps|
    ensures Reversed(sccDeps, rev)
  {
    rev := seq(|sccDeps|, _ => {});
    for i := 0 to |sccDeps|
      invariant ReversedBelow(sccDeps, rev, i, {})
    {
      var rest := sccDeps[i];
      while rest != {}
        invariant rest <= sccDeps[i] && ReversedBelow(sccDeps, rev, i, sccDeps[i] - rest)
      {
        var d :| d in rest;
        rest := rest - {d};
        rev := rev[d := rev[d] + {i}];
      }
    }
  }

  /** `rev` reverses the classes before `i` and the dependencies `partly` of `i`. */
  ghost predicate ReversedBelow(sccDeps: seq<set<nat>>, rev: seq<set<nat>>, i: nat, partly: set<nat>) {
    && |rev| == |sccDeps|
    && forall d: nat, k: nat :: d < |rev| ==>
         (k in rev[d] <==> (k < i && k < |sccDeps| && d in sccDeps[k]) || (k == i && d in partly))
  }

  // Kahn's algorithm on the condensation

  /** A class depends only on classes found before it. */
  ghost predicate FoundInOrder(sccDeps: seq<set<nat>>) {
    forall i: nat, j: nat :: i < |sccDeps| && j in sccDeps[i] ==> j < i
  }

  /** `indeg` counts the dependencies that are not yet `done`, except that `last`
      still counts for the classes in `rest`. */
  ghost predicate Counted(sccDeps: seq<set<nat>>, done: set<nat>, last: set<nat>, rest: set<nat>, indeg: seq<nat>) {
    && |indeg| == |sccDeps|
    && forall j: nat :: j < |indeg| ==> indeg[j] == |sccDeps[j] - (if j in rest then done - last else done)|
  }

  /** The heap holds the classes that are not done and have no dependency left. */
  ghost predicate Heaped(indeg: seq<nat>, done: set<nat>, heap: set<nat>) {
    forall j: nat :: j in heap <==> j < |indeg| && j !in done && indeg[j] == 0
  }

  lemma {:induction false} AllDone(sccDeps: seq<set<nat>>, done: set<nat>, indeg: seq<nat>, k: nat)
    requires FoundInOrder(sccDeps) && Counted(sccDeps, done, {}, {}, indeg) && Heaped(indeg, done, {}) && k <= |sccDeps|
    ensures forall j: nat :: j < k ==> j in done
  {
    if k > 0 {
      AllDone(sccDeps, done, indeg, k - 1);
      var j := k - 1;
      assert sccDeps[j] - done == {};
    }
  }

  lemma {:induction false} LeastPriority(heap: set<nat>, priority: seq<nat>)
    requires heap != {} && forall i :: i in heap ==> i < |priority|
    ensures exists i :: i in heap && forall j :: j in heap ==> priority[i] <= priority[j]
  {
    var x :| x in heap;
    var rest := heap - {x};
    assert heap == rest + {x};
    if rest == {} {
      assert forall j :: j in heap ==> j == x;
      assert x in heap;
    } else {
      LeastPriority(rest, priority);
      var y :| y in rest && forall j :: j in rest ==> priority[y] <= priority[j];
      var i := if priority[x] <= priority[y] then x else y;
      assert i in heap;
      assert forall j :: j in heap ==> j == x || j in rest;
    }
  }

  /** Take the entry with the least priority off the heap. */
  method PopLeast(heap: set<nat>, priority: seq<nat>) returns (i: nat, rest: set<nat>)
    requires heap != {} && forall i :: i in heap ==> i < |priority|
    ensures i in heap && rest == heap - {i} && forall j :: j in heap ==> priority[i] <= priority[j]
  {
    LeastPriority(heap, priority);
    i :| i in heap && forall j :: j in heap ==> priority[i] <= priority[j];
    rest := heap - {i};
  }

  lemma CountDown(deps: set<nat>, done: set<nat>, i: nat)
    requires i in deps && i in done
    ensures deps - (done - {i}) == (deps - done) + {i}
    ensures |deps - (done - {i})| == |deps - done| + 1
  {
    assert deps - (done - {i}) == (deps - done) + {i};
  }

  lemma CountSame(deps: set<nat>, done: set<nat>, i: nat)
    requires i !in deps
    ensures deps - (done - {i}) == deps - done
  {
  }

  /** Once `i` is done, only the classes that depend on it are miscounted. */
  lemma BeginRelease(sccDeps: seq<set<nat>>, rev: seq<set<nat>>, done: set<nat>, indeg: seq<nat>, i: nat)
    requires Counted(sccDeps, done, {}, {}, indeg) && Reversed(sccDeps, rev) && i < |rev| && i !in done
    ensures Counted(sccDeps, done + {i}, {i}, rev[i], indeg)
  {
    forall j: nat | j < |indeg|
      ensures indeg[j] == |sccDeps[j] - (if j in rev[i] then done + {i} - {i} else done + {i})|
    {
      assert done + {i} - {i} == done;
      if j !in rev[i] {
        CountSame(sccDeps[j], done + {i}, i);
      }
    }
  }

  /** Discount `i` from the class `j` that depends on it. */
  lemma ReleaseOne(sccDeps: seq<set<nat>>, done: set<nat>, rest: set<nat>, indeg: seq<nat>, heap: set<nat>, i: nat,
                   j: nat)
    requires Counted(sccDeps, done, {i}, rest, indeg) && Heaped(indeg, done, heap)
    requires i in done && j in rest && j < |sccDeps| && i in sccDeps[j]
    requires j !in done
    ensures indeg[j] > 0
    ensures var after := indeg[j := indeg[j] - 1];
            && Counted(sccDeps, done, {i}, rest - {j}, after)
            && Heaped(after, done, if after[j] == 0 then heap + {j} else heap)
  {
    CountDown(sccDeps[j], done, i);
  }

  lemma EndRelease(sccDeps: seq<set<nat>>, done: set<nat>, last: set<nat>, indeg: seq<nat>)
    requires Counted(sccDeps, done, last, {}, indeg)
    ensures Counted(sccDeps, done, {}, {}, indeg)
  {
  }

  // The next block

  /** Each block holds the files of the class that was done at its place. */
  ghost predicate BlocksOf(blocks: seq<seq<nat>>, sccs: seq<seq<nat>>, done: seq<nat>) {
    && |blocks| == |done| && Distinct(done)
    && forall k :: 0 <= k < |done| ==> done[k] < |sccs| && forall v: nat :: v in blocks[k] <==> v in sccs[done[k]]
  }

  lemma PlacedDone(g: Graph, sccs: seq<seq<nat>>, sccOf: seq<nat>, blocks: seq<seq<nat>>, done: seq<nat>, v: nat)
    requires Owner(g, sccs, sccOf) && BlocksOf(blocks, sccs, done) && v < |g|
    ensures SC.Placed(blocks, v) <==> sccOf[v] in done
  {
    if SC.Placed(blocks, v) {
      var k :| 0 <= k < |blocks| && v in blocks[k];
      assert v in sccs[done[k]];
    }
    if sccOf[v] in done {
      var k :| 0 <= k < |done| && done[k] == sccOf[v];
      assert v in blocks[k];
    }
  }

  lemma SameOwner(g: Graph, sccs: seq<seq<nat>>, sccOf: seq<nat>, u: nat, v: nat)
    requires SC.ClassesInOrder(g, sccs) && Owner(g, sccs, sccOf) && u < |g| && v < |g|
    ensures Mutual(g, u, v) <==> sccOf[u] == sccOf[v]
  {
    hide Mutual;
    assert SC.IsClass(g, sccs[sccOf[u]]);
    assert u in sccs[sccOf[u]] && v in sccs[sccOf[v]];
  }

  /** What the algorithm maintains about the classes done so far. */
  ghost predicate Emitted(g: Graph, info: seq<FileInfo>, sccs: seq<seq<nat>>, sccOf: seq<nat>, sccDeps: seq<set<nat>>,
                          done: seq<nat>, blocks: seq<seq<nat>>) {
    && Wf(g) && |g| == |info|
    && SC.ClassesInOrder(g, sccs) && Owner(g, sccs, sccOf)
    && |sccDeps| == |sccs| && Condensed(g, sccOf, sccDeps)
    && BlocksOf(blocks, sccs, done) && Greedy(g, info, blocks)
    && forall k :: 0 <= k < |done| ==> sccDeps[done[k]] <= Members(done)
  }

  /** A ready file's class has no dependency left. */
  lemma ReadyFree(g: Graph, info: seq<FileInfo>, sccs: seq<seq<nat>>, sccOf: seq<nat>, sccDeps: seq<set<nat>>,
                  done: seq<nat>, blocks: seq<seq<nat>>, v: nat)
    requires Emitted(g, info, sccs, sccOf, sccDeps, done, blocks) && Ready(g, blocks, v)
    ensures v < |sccOf| && sccOf[v] < |sccDeps| && sccOf[v] !in done && sccDeps[sccOf[v]] <= Members(done)
  {
    hide Mutual, Reach, Greedy, SC.Placed, SC.ClassesInOrder, BlocksOf;
    PlacedDone(g, sccs, sccOf, blocks, done, v);
    var i := sccOf[v];
    forall j: nat | j in sccDeps[i]
      ensures j in done
    {
      var f, w := CrossWitness(g, sccOf, i, j);
      SameOwner(g, sccs, sccOf, v, f);
      SameOwner(g, sccs, sccOf, v, w);
      MutualReach(g, v, f);
      ReachEdge(g, f, w);
      ReachTrans(g, v, f, w);
      PlacedDone(g, sccs, sccOf, blocks, done, w);
    }
  }

  lemma MutualReach(g: Graph, u: nat, v: nat)
    requires Mutual(g, u, v)
    ensures Reach(g, u, v)
  {
  }

  /** The files of a class whose dependencies are done are ready. */
  lemma FreeReady(g: Graph, info: seq<FileInfo>, sccs: seq<seq<nat>>, sccOf: seq<nat>, sccDeps: seq<set<nat>>,
                  done: seq<nat>, blocks: seq<seq<nat>>, v: nat)
    requires Emitted(g, info, sccs, sccOf, sccDeps, done, blocks) && v < |g|
    requires sccOf[v] !in done && sccDeps[sccOf[v]] <= Members(done)
    ensures Ready(g, blocks, v)
  {
    hide Mutual, Reach, Greedy, SC.Placed, SC.ClassesInOrder, BlocksOf;
    PlacedDone(g, sccs, sccOf, blocks, done, v);
    var i := sccOf[v];
    var s := set w: nat | w < |g| && (sccOf[w] == i || sccOf[w] in done);
    forall x: nat, y: nat | x in s && Edge(g, x, y)
      ensures y in s
    {
      DependencyDone(g, info, sccs, sccOf, sccDeps, done, blocks, i, x, y);
    }
    forall w: nat | Reach(g, v, w)
      ensures SC.Placed(blocks, w) || Mutual(g, v, w)
    {
      ReachClosed(g, s, v, w);
      SameOwner(g, sccs, sccOf, v, w);
      PlacedDone(g, sccs, sccOf, blocks, done, w);
    }
  }

  lemma DependencyDone(g: Graph, info: seq<FileInfo>, sccs: seq<seq<nat>>, sccOf: seq<nat>, sccDeps: seq<set<nat>>,
                       done: seq<nat>, blocks: seq<seq<nat>>, i: nat, x: nat, y: nat)
    requires Emitted(g, info, sccs, sccOf, sccDeps, done, blocks) && Edge(g, x, y) && i < |sccs|
    requires sccDeps[i] <= Members(done) && (sccOf[x] == i || sccOf[x] in done)
    ensures sccOf[y] == i || sccOf[y] in done
  {
    hide Greedy, SC.ClassesInOrder, BlocksOf;
    if sccOf[x] != sccOf[y] {
      CrossEdgeOf(g, sccOf, x, y);
      assert sccOf[y] in sccDeps[sccOf[x]];
    }
  }

  lemma NextFromHeap(g: Graph, info: seq<FileInfo>, sccs: seq<seq<nat>>, sccOf: seq<nat>, sccDeps: seq<set<nat>>,
                     done: seq<nat>, blocks: seq<seq<nat>>, urgency: seq<nat>, i: nat)
    requires Emitted(g, info, sccs, sccOf, sccDeps, done, blocks) && Urgencies(info, sccs, urgency)
    requires i < |sccs| && i !in done && sccDeps[i] <= Members(done)
    requires forall j: nat :: j < |sccs| && j !in done && sccDeps[j] <= Members(done) ==> urgency[i] <= urgency[j]
    ensures InRange(sccs[i], |g|) && NextBlock(g, info, blocks, Arranged(g, info, sccs[i]))
  {
    hide Ready, Mutual, Greedy, Condensed, InKeyOrder, BlocksOf, LeadsWith, Arranged;
    ClassMembers(g, sccs, sccOf, i);
    ArrangedCorrect(g, info, sccs[i]);
    var block := Arranged(g, info, sccs[i]);
    ArrangedClass(g, sccs[i], block);
    forall v: nat | v in block
      ensures Ready(g, blocks, v)
    {
      FreeReady(g, info, sccs, sccOf, sccDeps, done, blocks, v);
    }
    forall v: nat | Ready(g, blocks, v)
      ensures LeadsWith(info, block, v)
    {
      ReadyFree(g, info, sccs, sccOf, sccDeps, done, blocks, v);
      LeaderOf(g, info, sccs, sccOf, urgency, i, v, block);
    }
  }

  lemma ClassMembers(g: Graph, sccs: seq<seq<nat>>, sccOf: seq<nat>, i: nat)
    requires SC.ClassesInOrder(g, sccs) && Owner(g, sccs, sccOf) && i < |sccs|
    ensures SC.IsClass(g, sccs[i]) && InRange(sccs[i], |g|) && Distinct(sccs[i]) && sccs[i] != []
    ensures forall v: nat :: v in sccs[i] ==> v < |g| && sccOf[v] == i
  {
    assert SC.IsClass(g, sccs[i]);
    assert forall l :: 0 <= l < |sccs[i]| ==> sccs[i][l] in sccs[i];
  }

  lemma ArrangedClass(g: Graph, component: seq<nat>, block: seq<nat>)
    requires SC.IsClass(g, component) && Distinct(block) && forall v: nat :: v in block <==> v in component
    ensures SC.IsClass(g, block)
  {
    hide Mutual;
    assert component[0] in block;
  }

  /** The urgency of a class is that of its most urgent file. */
  ghost predicate Urgencies(info: seq<FileInfo>, sccs: seq<seq<nat>>, urgency: seq<nat>) {
    |urgency| == |sccs| && forall i :: 0 <= i < |sccs| ==> IsUrgency(info, sccs[i], urgency[i])
  }

  ghost predicate IsUrgency(info: seq<FileInfo>, component: seq<nat>, urgency: nat) {
    && (exists x: nat :: x in component && x < |info| && info[x].priority == urgency)
    && forall y: nat :: y in component && y < |info| ==> urgency <= info[y].priority
  }

  lemma LeaderOf(g: Graph, info: seq<FileInfo>, sccs: seq<seq<nat>>, sccOf: seq<nat>, urgency: seq<nat>, i: nat,
                 v: nat, block: seq<nat>)
    requires Owner(g, sccs, sccOf) && Urgencies(info, sccs, urgency) && |g| == |info| && i < |sccs| && v < |g|
    requires urgency[i] <= urgency[sccOf[v]] && forall x: nat :: x in block <==> x in sccs[i]
    ensures LeadsWith(info, block, v)
  {
    assert IsUrgency(info, sccs[i], urgency[i]) && IsUrgency(info, sccs[sccOf[v]], urgency[sccOf[v]]);
    var x: nat :| x in sccs[i] && x < |info| && info[x].priority == urgency[i];
  }

  method UrgencyOf(info: seq<FileInfo>, component: seq<nat>) returns (urgency: nat)
    requires component != [] && InRange(component, |info|)
    ensures IsUrgency(info, component, urgency)
  {
    urgency := info[component[0]].priority;
    ghost var x := component[0];
    for i := 0 to |component|
      invariant x in component && x < |info| && info[x].priority == urgency
      invariant forall j :: 0 <= j < i ==> urgency <= info[component[j]].priority
    {
      if info[component[i]].priority < urgency {
        urgency := info[component[i]].priority;
        x := component[i];
      }
    }
  }

  method UrgenciesOf(g: Graph, info: seq<FileInfo>, sccs: seq<seq<nat>>, ghost sccOf: seq<nat>)
    returns (urgency: seq<nat>)
    requires SC.ClassesInOrder(g, sccs) && Owner(g, sccs, sccOf) && |g| == |info|
    ensures Urgencies(info, sccs, urgency)
  {
    hide SC.ClassesInOrder, SC.IsClass, Owner, IsUrgency;
    urgency := [];
    for i := 0 to |sccs|
      invariant |urgency| == i && forall j :: 0 <= j < i ==> IsUrgency(info, sccs[j], urgency[j])
    {
      ClassMembers(g, sccs, sccOf, i);
      var u := UrgencyOf(info, sccs[i]);
      urgency := urgency + [u];
    }
  }

  /** Doing `i` next extends the schedule by its arranged class. */
  lemma EmitNext(g: Graph, info: seq<FileInfo>, sccs: seq<seq<nat>>, sccOf: seq<nat>, sccDeps: seq<set<nat>>,
                 done: seq<nat>, blocks: seq<seq<nat>>, i: nat, block: seq<nat>)
    requires Emitted(g, info, sccs, sccOf, sccDeps, done, blocks)
    requires i < |sccs| && i !in done && sccDeps[i] <= Members(done)
    requires NextBlock(g, info, blocks, block) && forall v: nat :: v in block <==> v in sccs[i]
    ensures Emitted(g, info, sccs, sccOf, sccDeps, done + [i], blocks + [block])
    ensures Members(done + [i]) == Members(done) + {i}
  {
    hide NextBlock, SC.ClassesInOrder, Owner, Condensed;
    var more, all := done + [i], blocks + [block];
    forall k | 0 <= k < |all|
      ensures NextBlock(g, info, all[..k], all[k])
    {
      assert all[..k] == blocks[..k];
      if k == |blocks| {
        assert blocks[..k] == blocks;
      }
    }
    assert Greedy(g, info, all);
    assert BlocksOf(all, sccs, more);
    assert Members(more) == Members(done) + {i};
  }

  /** The whole state of the scheduling loop. */
  ghost predicate Scheduling(g: Graph, info: seq<FileInfo>, sccs: seq<seq<nat>>, sccOf: seq<nat>,
                             sccDeps: seq<set<nat>>,
                             rev: seq<set<nat>>, urgency: seq<nat>, done: seq<nat>, blocks: seq<seq<nat>>,
                             indeg: seq<nat>, heap: set<nat>) {
    && Emitted(g, info, sccs, sccOf, sccDeps, done, blocks)
    && Reversed(sccDeps, rev) && FoundInOrder(sccDeps) && Urgencies(info, sccs, urgency)
    && Counted(sccDeps, Members(done), {}, {}, indeg) && Heaped(indeg, Members(done), heap)
  }

  lemma StartScheduling(g: Graph, info: seq<FileInfo>, sccs: seq<seq<nat>>, sccOf: seq<nat>, sccDeps: seq<set<nat>>,
                        rev: seq<set<nat>>, urgency: seq<nat>, indeg: seq<nat>, heap: set<nat>)
    requires Wf(g) && |g| == |info| && SC.ClassesInOrder(g, sccs) && Owner(g, sccs, sccOf)
    requires |sccDeps| == |sccs| && Condensed(g, sccOf, sccDeps) && Reversed(sccDeps, rev) && FoundInOrder(sccDeps)
    requires Urgencies(info, sccs, urgency)
    requires |indeg| == |sccDeps| && forall i :: 0 <= i < |sccDeps| ==> indeg[i] == |sccDeps[i]|
    requires forall j: nat :: j in heap <==> j < |indeg| && indeg[j] == 0
    ensures Scheduling(g, info, sccs, sccOf, sccDeps, rev, urgency, [], [], indeg, heap)
  {
    hide SC.ClassesInOrder, Owner, Condensed, Reversed, FoundInOrder, Urgencies;
    forall j: nat | j < |indeg|
      ensures sccDeps[j] - {} == sccDeps[j]
    {
    }
    assert Members([]) == {};
    assert Greedy(g, info, []);
    assert BlocksOf([], sccs, []);
  }

  /** Tarjan found every class after the classes it depends on. */
  lemma CondensationOrder(g: Graph, sccs: seq<seq<nat>>, sccOf: seq<nat>, sccDeps: seq<set<nat>>)
    requires SC.ClassesInOrder(g, sccs) && Owner(g, sccs, sccOf) && |sccDeps| == |sccs| && Condensed(g, sccOf, sccDeps)
    ensures FoundInOrder(sccDeps)
  {
    hide CrossEdge, SC.IsClass;
    forall i: nat, j: nat | i < |sccDeps| && j in sccDeps[i]
      ensures j < i
    {
      var f, w := CrossWitness(g, sccOf, i, j);
      assert f in sccs[i];
      assert SC.Placed(sccs[..i + 1], w);
      var k :| 0 <= k < i + 1 && w in sccs[..i + 1][k];
      assert w in sccs[k];
    }
  }

  lemma FreeOfDependencies(sccDeps: seq<set<nat>>, done: set<nat>, indeg: seq<nat>, j: nat)
    requires Counted(sccDeps, done, {}, {}, indeg) && j < |indeg|
    ensures indeg[j] == 0 <==> sccDeps[j] <= done
  {
    EmptyDifference(sccDeps[j], done);
  }

  lemma EmptyDifference(a: set<nat>, b: set<nat>)
    ensures |a - b| == 0 <==> a <= b
  {
    if a <= b {
      assert a - b == {};
    }
    if |a - b| == 0 {
      assert a <= b by {
        assert a == (a - b) + (a * b);
      }
    }
  }

  lemma HeapChoice(g: Graph, info: seq<FileInfo>, sccs: seq<seq<nat>>, sccOf: seq<nat>, sccDeps: seq<set<nat>>,
                   rev: seq<set<nat>>, urgency: seq<nat>, done: seq<nat>, blocks: seq<seq<nat>>,
                   indeg: seq<nat>, heap: set<nat>, i: nat)
    requires Scheduling(g, info, sccs, sccOf, sccDeps, rev, urgency, done, blocks, indeg, heap)
    requires i in heap && forall j :: j in heap ==> j < |urgency| && i < |urgency| && urgency[i] <= urgency[j]
    ensures i < |sccs| && i !in done && sccDeps[i] <= Members(done) && InRange(sccs[i], |g|)
    ensures NextBlock(g, info, blocks, Arranged(g, info, sccs[i]))
    ensures forall v: nat :: v in Arranged(g, info, sccs[i]) <==> v in sccs[i]
  {
    hide Emitted, Counted, Reversed, FoundInOrder, NextBlock, Arranged;
    assert i < |sccs| && |sccDeps| == |sccs| by {
      EmittedSizes(g, info, sccs, sccOf, sccDeps, done, blocks);
      CountedSize(sccDeps, Members(done), {}, {}, indeg);
    }
    FreeOfDependencies(sccDeps, Members(done), indeg, i);
    forall j: nat | j < |sccs| && j !in done && sccDeps[j] <= Members(done)
      ensures urgency[i] <= urgency[j]
    {
      CountedSize(sccDeps, Members(done), {}, {}, indeg);
      FreeOfDependencies(sccDeps, Members(done), indeg, j);
    }
    NextFromHeap(g, info, sccs, sccOf, sccDeps, done, blocks, urgency, i);
    EmittedSizes(g, info, sccs, sccOf, sccDeps, done, blocks);
    ClassMembers(g, sccs, sccOf, i);
    ArrangedCorrect(g, info, sccs[i]);
  }

  lemma EmittedSizes(g: Graph, info: seq<FileInfo>, sccs: seq<seq<nat>>, sccOf: seq<nat>, sccDeps: seq<set<nat>>,
                     done: seq<nat>, blocks: seq<seq<nat>>)
    requires Emitted(g, info, sccs, sccOf, sccDeps, done, blocks)
    ensures |sccDeps| == |sccs| && |g| == |info| && SC.ClassesInOrder(g, sccs) && Owner(g, sccs, sccOf)
    ensures |done| <= |sccs|
  {
    hide Greedy, SC.ClassesInOrder, Owner, Condensed;
    DistinctBound(done, |sccs|);
  }

  lemma CountedSize(sccDeps: seq<set<nat>>, done: set<nat>, last: set<nat>, rest: set<nat>, indeg: seq<nat>)
    requires Counted(sccDeps, done, last, rest, indeg)
    ensures |indeg| == |sccDeps|
  {
  }

  /** A class that depends on one not yet done is not done either. */
  lemma DependentNotDone(g: Graph, info: seq<FileInfo>, sccs: seq<seq<nat>>, sccOf: seq<nat>, sccDeps: seq<set<nat>>,
                         done: seq<nat>, blocks: seq<seq<nat>>, i: nat, j: nat)
    requires Emitted(g, info, sccs, sccOf, sccDeps, done, blocks) && FoundInOrder(sccDeps)
    requires i !in done && j < |sccDeps| && i in sccDeps[j]
    ensures j !in done && j != i
  {
    hide Greedy, SC.ClassesInOrder, Owner, Condensed;
    if j in done {
      DoneClosed(sccDeps, done, j);
    }
  }

  lemma DoneClosed(sccDeps: seq<set<nat>>, done: seq<nat>, j: nat)
    requires forall k :: 0 <= k < |done| ==> done[k] < |sccDeps| && sccDeps[done[k]] <= Members(done)
    requires j in done
    ensures j < |sccDeps| && forall i :: i in sccDeps[j] ==> i in done
  {
    var k :| 0 <= k < |done| && done[k] == j;
    assert forall i :: i in sccDeps[j] ==> i in Members(done);
  }

  lemma DependentOf(sccDeps: seq<set<nat>>, rev: seq<set<nat>>, i: nat, j: nat)
    requires Reversed(sccDeps, rev) && i < |rev| && j in rev[i]
    ensures j < |sccDeps| && i in sccDeps[j]
  {
  }

  /** Count the class `i` as done in all classes that depend on it, in whatever
      order they come. */
  method Release(rev: seq<set<nat>>, before: seq<nat>, waiting: set<nat>, i: nat, ghost sccDeps: seq<set<nat>>,
                 ghost done: set<nat>)
    returns (indeg: seq<nat>, heap: set<nat>)
    requires Reversed(sccDeps, rev) && i < |rev| && i in done
    requires Counted(sccDeps, done, {i}, rev[i], before) && Heaped(before, done, waiting)
    requires forall j: nat :: j < |sccDeps| && i in sccDeps[j] ==> j !in done
    ensures Counted(sccDeps, done, {}, {}, indeg) && Heaped(indeg, done, heap)
  {
    hide Counted, Heaped;
    indeg, heap := before, waiting;
    var rest := rev[i];
    CountedSize(sccDeps, done, {i}, rest, indeg);
    while rest != {}
      invariant rest <= rev[i] && |indeg| == |sccDeps|
      invariant Counted(sccDeps, done, {i}, rest, indeg) && Heaped(indeg, done, heap)
    {
      var j :| j in rest;
      DependentOf(sccDeps, rev, i, j);
      ReleaseOne(sccDeps, done, rest, indeg, heap, i, j);
      rest := rest - {j};
      indeg := indeg[j := indeg[j] - 1];
      if indeg[j] == 0 {
        heap := heap + {j};
      }
    }
    EndRelease(sccDeps, done, {i}, indeg);
  }

  lemma PopLeaves(indeg: seq<nat>, done: set<nat>, heap: set<nat>, i: nat)
    requires Heaped(indeg, done, heap) && i in heap
    ensures Heaped(indeg, done + {i}, heap - {i})
  {
  }

  lemma ScheduleDone(g: Graph, info: seq<FileInfo>, sccs: seq<seq<nat>>, sccOf: seq<nat>, sccDeps: seq<set<nat>>,
                     rev: seq<set<nat>>, urgency: seq<nat>, done: seq<nat>, blocks: seq<seq<nat>>, indeg: seq<nat>)
    requires Scheduling(g, info, sccs, sccOf, sccDeps, rev, urgency, done, blocks, indeg, {})
    ensures |g| == |info| && Schedule(g, info, blocks)
  {
    hide Counted, Reversed, FoundInOrder, Greedy, SC.Placed, BlocksOf, Heaped, Condensed, SC.ClassesInOrder;
    AllDone(sccDeps, Members(done), indeg, |sccDeps|);
    forall v: nat | v < |g|
      ensures SC.Placed(blocks, v)
    {
      PlacedDone(g, sccs, sccOf, blocks, done, v);
      assert sccOf[v] in Members(done);
    }
  }

  /** The reading order: Tarjan's components, the condensation, and Kahn's
      algorithm that always takes the ready class with the most urgent file. */
  method Analyze(g: Graph, info: seq<FileInfo>)
    returns (order: seq<nat>, cycles: seq<seq<nat>>, violations: seq<(nat, nat)>, intra: seq<(nat, nat)>,
             sccOf: seq<nat>)
    requires Wf(g) && |g| == |info|
    ensures exists blocks :: Schedule(g, info, blocks) && order == Flatten(blocks) && cycles == Larger(blocks)
    ensures Permutation(|g|, order) && NoForwardEdge(g, order) && ClassesContiguous(g, order)
    ensures InnerOrder(g, info, order) && UrgentFirst(g, info, order) && ListsCycles(g, order, cycles)
    ensures violations == []
    ensures forall f: nat, d: nat :: (f, d) in intra <==> Edge(g, f, d) && Mutual(g, f, d) && ComesAfter(order, f, d)
    ensures |sccOf| == |g| && forall u: nat, v: nat ::
            u < |g| && v < |g| ==> (sccOf[u] == sccOf[v] <==> Mutual(g, u, v))
  {
    hide SC.ClassesInOrder, SC.Placed, Owner, Condensed, Reversed, Urgencies, FoundInOrder, Emitted, Counted, Heaped,
         Schedule,
         NextBlock, Arranged, Scheduling, InnerOrder, UrgentFirst, ListsCycles, NoForwardEdge, ClassesContiguous;
    var sccs := ComponentsOf(g);
    sccOf := OwnersOf(g, sccs);
    OwnedBelow(g, sccs, sccOf);
    var sccDeps := Condense(g, sccOf, |sccs|);
    CondensationOrder(g, sccs, sccOf, sccDeps);
    DependenciesBelow(sccDeps);
    var rev := Reverse(sccDeps);
    var urgency := UrgenciesOf(g, info, sccs, sccOf);
    var indeg: seq<nat> := seq(|sccs|, i requires 0 <= i < |sccs| => |sccDeps[i]|);
    var heap := set i: nat | i < |sccs| && indeg[i] == 0;
    StartScheduling(g, info, sccs, sccOf, sccDeps, rev, urgency, indeg, heap);
    order, cycles := [], [];
    ghost var done: seq<nat>, blocks: seq<seq<nat>> := [], [];
    while heap != {}
      invariant Scheduling(g, info, sccs, sccOf, sccDeps, rev, urgency, done, blocks, indeg, heap)
      invariant order == Flatten(blocks) && cycles == Larger(blocks) && |done| <= |sccs|
      decreases |sccs| - |done|
    {
      HeapInRange(g, info, sccs, sccOf, sccDeps, rev, urgency, done, blocks, indeg, heap);
      var i, rest := PopLeast(heap, urgency);
      HeapChoice(g, info, sccs, sccOf, sccDeps, rev, urgency, done, blocks, indeg, heap, i);
      var comp := Arranged(g, info, sccs[i]);
      if |comp| > 1 {
        cycles := cycles + [comp];
      }
      order := order + comp;
      BeginStep(g, info, sccs, sccOf, sccDeps, rev, urgency, done, blocks, indeg, heap, i, comp);
      indeg, heap := Release(rev, indeg, rest, i, sccDeps, Members(done) + {i});
      EndStep(g, info, sccs, sccOf, sccDeps, rev, urgency, done, blocks, indeg, heap, i, comp);
      assert (blocks + [comp])[..|blocks|] == blocks;
      done, blocks := done + [i], blocks + [comp];
    }
    ScheduleDone(g, info, sccs, sccOf, sccDeps, rev, urgency, done, blocks, indeg);
    ScheduleOrder(g, info, blocks);
    ScheduleMeaning(g, info, blocks);
    assert |order| == |g|;
    violations := ForwardEdges(g, sccOf, order, false);
    NoViolations(g, sccs, sccOf, order, violations);
    intra := ForwardEdges(g, sccOf, order, true);
    OwnersAreClasses(g, sccs, sccOf);
  }

  lemma OwnersAreClasses(g: Graph, sccs: seq<seq<nat>>, sccOf: seq<nat>)
    requires SC.ClassesInOrder(g, sccs) && Owner(g, sccs, sccOf)
    ensures |sccOf| == |g| && forall u: nat, v: nat ::
            u < |g| && v < |g| ==> (sccOf[u] == sccOf[v] <==> Mutual(g, u, v))
  {
    hide SC.ClassesInOrder, Mutual;
    forall u: nat, v: nat | u < |g| && v < |g|
      ensures sccOf[u] == sccOf[v] <==> Mutual(g, u, v)
    {
      SameOwner(g, sccs, sccOf, u, v);
    }
  }

  // Dependencies that point forward

  ghost predicate ComesAfter(order: seq<nat>, f: nat, d: nat) {
    exists i, j :: 0 <= i < j < |order| && order[i] == f && order[j] == d
  }

  /** `f` depends on a file that is listed later, of its own class or not. */
  ghost predicate Forward(g: Graph, sccOf: seq<nat>, order: seq<nat>, inside: bool, f: nat, d: nat)
    requires |sccOf| == |g|
  {
    Edge(g, f, d) && (sccOf[f] == sccOf[d] <==> inside) && ComesAfter(order, f, d)
  }

  ghost predicate PositionsOf(order: seq<nat>, n: nat, pos: seq<nat>) {
    |pos| == n && Permutation(n, order) && forall i :: 0 <= i < |order| ==> order[i] < n && pos[order[i]] == i
  }

  lemma ComesAfterPosition(order: seq<nat>, n: nat, pos: seq<nat>, f: nat, d: nat)
    requires PositionsOf(order, n, pos) && f < n && d < n
    ensures ComesAfter(order, f, d) <==> pos[f] < pos[d]
  {
    assert f in order && d in order;
    var i :| 0 <= i < |order| && order[i] == f;
    var j :| 0 <= j < |order| && order[j] == d;
  }

  method Positions(order: seq<nat>, n: nat) returns (pos: seq<nat>)
    requires Permutation(n, order)
    ensures PositionsOf(order, n, pos)
  {
    pos := seq(n, _ => 0);
    for i := 0 to |order|
      invariant |pos| == n && forall k :: 0 <= k < i ==> order[k] < n && pos[order[k]] == k
    {
      PermutationNode(n, order, i);
      pos := pos[order[i] := i];
    }
  }

  /** All dependencies that point forward, inside classes or outside them. */
  method ForwardEdges(g: Graph, sccOf: seq<nat>, order: seq<nat>, inside: bool) returns (forward: seq<(nat, nat)>)
    requires Wf(g) && Permutation(|g|, order) && |sccOf| == |g|
    ensures forall f: nat, d: nat :: (f, d) in forward <==> Forward(g, sccOf, order, inside, f, d)
  {
    hide ComesAfter, PositionsOf, Permutation;
    var pos := Positions(order, |g|);
    assert |pos| == |g| by {
      PositionsSize(order, |g|, pos);
    }
    forward := [];
    for f := 0 to |g|
      invariant forall u: nat, d: nat :: (u, d) in forward <==> u < f && Forward(g, sccOf, order, inside, u, d)
    {
      ghost var before := forward;
      for l := 0 to |g[f]|
        invariant forall u: nat, d: nat :: (u, d) in forward <==>
                    (u, d) in before || (u == f && d in g[f][..l] && Forward(g, sccOf, order, inside, f, d))
      {
        var d := g[f][l];
        assert d in g[f] && g[f][..l + 1] == g[f][..l] + [d];
        ComesAfterPosition(order, |g|, pos, f, d);
        if pos[d] > pos[f] && (sccOf[f] == sccOf[d]) == inside {
          forward := forward + [(f, d)];
        }
      }
      assert g[f][..|g[f]|] == g[f];
    }
  }

  lemma PositionsSize(order: seq<nat>, n: nat, pos: seq<nat>)
    requires PositionsOf(order, n, pos)
    ensures |pos| == n
  {
  }

  lemma NoViolations(g: Graph, sccs: seq<seq<nat>>, sccOf: seq<nat>, order: seq<nat>, forward: seq<(nat, nat)>)
    requires SC.ClassesInOrder(g, sccs) && Owner(g, sccs, sccOf) && NoForwardEdge(g, order)
    requires forall f: nat, d: nat :: (f, d) in forward <==> Forward(g, sccOf, order, false, f, d)
    ensures forward == []
  {
    hide SC.ClassesInOrder, Mutual;
    if forward != [] {
      var (f, d) := forward[0];
      assert (f, d) in forward;
      SameOwner(g, sccs, sccOf, f, d);
    }
  }

  lemma OwnedBelow(g: Graph, sccs: seq<seq<nat>>, sccOf: seq<nat>)
    requires Owner(g, sccs, sccOf)
    ensures |sccOf| == |g| && forall v :: 0 <= v < |g| ==> sccOf[v] < |sccs|
  {
  }

  lemma DependenciesBelow(sccDeps: seq<set<nat>>)
    requires FoundInOrder(sccDeps)
    ensures forall i, d: nat :: 0 <= i < |sccDeps| && d in sccDeps[i] ==> d < |sccDeps|
  {
  }

  lemma HeapInRange(g: Graph, info: seq<FileInfo>, sccs: seq<seq<nat>>, sccOf: seq<nat>, sccDeps: seq<set<nat>>,
                    rev: seq<set<nat>>, urgency: seq<nat>, done: seq<nat>, blocks: seq<seq<nat>>, indeg: seq<nat>,
                    heap: set<nat>)
    requires Scheduling(g, info, sccs, sccOf, sccDeps, rev, urgency, done, blocks, indeg, heap)
    ensures |urgency| == |sccs| == |rev| && forall i :: i in heap ==> i < |urgency|
  {
    hide SC.ClassesInOrder, Owner, Condensed, Greedy, BlocksOf, IsUrgency;
  }

  lemma BeginStep(g: Graph, info: seq<FileInfo>, sccs: seq<seq<nat>>, sccOf: seq<nat>, sccDeps: seq<set<nat>>,
                  rev: seq<set<nat>>, urgency: seq<nat>, done: seq<nat>, blocks: seq<seq<nat>>,
                  indeg: seq<nat>, heap: set<nat>, i: nat, comp: seq<nat>)
    requires Scheduling(g, info, sccs, sccOf, sccDeps, rev, urgency, done, blocks, indeg, heap)
    requires i in heap && i < |sccs| && i !in done
    ensures Emitted(g, info, sccs, sccOf, sccDeps, done, blocks) && FoundInOrder(sccDeps)
            && Urgencies(info, sccs, urgency)
    ensures Reversed(sccDeps, rev) && i < |rev|
    ensures Counted(sccDeps, Members(done) + {i}, {i}, rev[i], indeg) && Heaped(indeg, Members(done) + {i}, heap - {i})
    ensures forall j: nat :: j < |sccDeps| && i in sccDeps[j] ==> j !in Members(done) + {i}
  {
    hide Emitted, Counted, Heaped, FoundInOrder, Urgencies;
    EmittedSizes(g, info, sccs, sccOf, sccDeps, done, blocks);
    BeginRelease(sccDeps, rev, Members(done), indeg, i);
    PopLeaves(indeg, Members(done), heap, i);
    forall j: nat | j < |sccDeps| && i in sccDeps[j]
      ensures j !in Members(done) + {i}
    {
      DependentNotDone(g, info, sccs, sccOf, sccDeps, done, blocks, i, j);
    }
  }

  lemma EndStep(g: Graph, info: seq<FileInfo>, sccs: seq<seq<nat>>, sccOf: seq<nat>, sccDeps: seq<set<nat>>,
                rev: seq<set<nat>>, urgency: seq<nat>, done: seq<nat>, blocks: seq<seq<nat>>,
                indeg: seq<nat>, heap: set<nat>, i: nat, comp: seq<nat>)
    requires Emitted(g, info, sccs, sccOf, sccDeps, done, blocks)
    requires Reversed(sccDeps, rev) && FoundInOrder(sccDeps) && Urgencies(info, sccs, urgency)
    requires i < |sccs| && i !in done && sccDeps[i] <= Members(done)
    requires NextBlock(g, info, blocks, comp) && forall v: nat :: v in comp <==> v in sccs[i]
    requires Counted(sccDeps, Members(done) + {i}, {}, {}, indeg) && Heaped(indeg, Members(done) + {i}, heap)
    ensures Scheduling(g, info, sccs, sccOf, sccDeps, rev, urgency, done + [i], blocks + [comp], indeg, heap)
    ensures |done + [i]| <= |sccs|
  {
    hide Emitted, Counted, Heaped, FoundInOrder, Urgencies, Reversed, NextBlock;
    EmitNext(g, info, sccs, sccOf, sccDeps, done, blocks, i, comp);
    EmittedSizes(g, info, sccs, sccOf, sccDeps, done + [i], blocks + [comp]);
  }
}
