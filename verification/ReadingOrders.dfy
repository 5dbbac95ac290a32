/** What the reading order is: one block for each class of mutually dependent
    files, always the ready class with the most urgent file next, each block
    arranged by its own key. Only the dependency relation and the priorities
    matter, not the order in which dependency sets are iterated. */
module ReadingOrders {
  import opened Digraph
  import opened Sorting
  import SC = StrongComponents

  /** `priority` ranks the files; it ends with the path, so no two files share
      one. */
  datatype FileInfo = FileInfo(testModule: bool, entryFile: bool, priority: nat)

  ghost predicate UniquePriorities(info: seq<FileInfo>) {
    forall u: nat, v: nat :: u < |info| && v < |info| && info[u].priority == info[v].priority ==> u == v
  }

  // Arranging one class

  datatype Keyed = Keyed(testModule: bool, entryFile: bool, inner: nat, priority: nat, file: nat)

  predicate FlagBefore(a: bool, b: bool) {
    !a && b
  }

  predicate KeyAtMost(a: Keyed, b: Keyed) {
    || FlagBefore(a.testModule, b.testModule)
    || (a.testModule == b.testModule &&
        (|| FlagBefore(a.entryFile, b.entryFile)
         || (a.entryFile == b.entryFile && (a.inner < b.inner || (a.inner == b.inner && a.priority <= b.priority)))))
  }

  /** How many dependencies of `f` are in its own class. */
  function InnerCount(g: Graph, f: nat, component: seq<nat>): nat
    requires f < |g|
  {
    |set w: nat | w in g[f] && w in component|
  }

  predicate InRange(files: seq<nat>, n: nat) {
    forall i :: 0 <= i < |files| ==> files[i] < n
  }

  function KeyOf(g: Graph, info: seq<FileInfo>, component: seq<nat>, f: nat): Keyed
    requires f < |g| == |info|
  {
    Keyed(info[f].testModule, info[f].entryFile, InnerCount(g, f, component), info[f].priority, f)
  }

  function Keys(g: Graph, info: seq<FileInfo>, component: seq<nat>): (keys: seq<Keyed>)
    requires |g| == |info| && InRange(component, |g|)
    ensures |keys| == |component| && forall i :: 0 <= i < |keys| ==> keys[i] == KeyOf(g, info, component, component[i])
  {
    seq(|component|, i requires 0 <= i < |component| => KeyOf(g, info, component, component[i]))
  }

  function Files(keys: seq<Keyed>): (files: seq<nat>)
    ensures |files| == |keys| && forall i :: 0 <= i < |files| ==> files[i] == keys[i].file
  {
    seq(|keys|, i requires 0 <= i < |keys| => keys[i].file)
  }

  /** The class in presentation order. */
  function Arranged(g: Graph, info: seq<FileInfo>, component: seq<nat>): seq<nat>
    requires |g| == |info| && InRange(component, |g|)
  {
    Files(Sort(Keys(g, info, component), KeyAtMost))
  }

  ghost predicate InKeyOrder(g: Graph, info: seq<FileInfo>, block: seq<nat>)
    requires |g| == |info|
  {
    && InRange(block, |g|)
    && forall i, j :: 0 <= i < j < |block| ==>
       KeyAtMost(KeyOf(g, info, block, block[i]), KeyOf(g, info, block, block[j]))
  }

  // The schedule

  /** Everything that `v` depends on is placed, apart from its own class. */
  ghost predicate Ready(g: Graph, placed: seq<seq<nat>>, v: nat) {
    && v < |g| && !SC.Placed(placed, v)
    && forall w: nat :: Reach(g, v, w) ==> SC.Placed(placed, w) || Mutual(g, v, w)
  }

  ghost predicate LeadsWith(info: seq<FileInfo>, block: seq<nat>, v: nat) {
    exists x: nat :: x in block && x < |info| && v < |info| && info[x].priority <= info[v].priority
  }

  /** `block` is a ready class, arranged by key, whose most urgent file is at
      least as urgent as any ready file. */
  ghost predicate NextBlock(g: Graph, info: seq<FileInfo>, placed: seq<seq<nat>>, block: seq<nat>)
    requires |g| == |info|
  {
    && SC.IsClass(g, block) && InKeyOrder(g, info, block)
    && (forall v: nat :: v in block ==> Ready(g, placed, v))
    && (forall v: nat :: Ready(g, placed, v) ==> LeadsWith(info, block, v))
  }

  ghost predicate Greedy(g: Graph, info: seq<FileInfo>, blocks: seq<seq<nat>>)
    requires |g| == |info|
  {
    forall k :: 0 <= k < |blocks| ==> NextBlock(g, info, blocks[..k], blocks[k])
  }

  ghost predicate Schedule(g: Graph, info: seq<FileInfo>, blocks: seq<seq<nat>>)
    requires |g| == |info|
  {
    Greedy(g, info, blocks) && forall v: nat :: v < |g| ==> SC.Placed(blocks, v)
  }

  function Flatten(blocks: seq<seq<nat>>): seq<nat>
    decreases |blocks|
  {
    if blocks == [] then [] else Flatten(blocks[..|blocks| - 1]) + blocks[|blocks| - 1]
  }

  // Arranging rearranges

  lemma KeyOrdering()
    ensures Ordering(KeyAtMost)
  {
  }

  lemma KeysFiles(g: Graph, info: seq<FileInfo>, component: seq<nat>)
    requires |g| == |info| && InRange(component, |g|)
    ensures forall k :: k in Keys(g, info, component) <==> k.file in component && k == KeyOf(g, info, component, k.file)
  {
    var keys := Keys(g, info, component);
    forall k
      ensures k in keys <==> k.file in component && k == KeyOf(g, info, component, k.file)
    {
      if k in keys {
        var i :| 0 <= i < |keys| && keys[i] == k;
        assert component[i] in component;
      }
      if k.file in component && k == KeyOf(g, info, component, k.file) {
        var i :| 0 <= i < |component| && component[i] == k.file;
        assert keys[i] == k;
      }
    }
  }

  lemma SameInner(g: Graph, info: seq<FileInfo>, component: seq<nat>, block: seq<nat>, f: nat)
    requires f < |g| == |info| && forall v: nat :: v in component <==> v in block
    ensures KeyOf(g, info, component, f) == KeyOf(g, info, block, f)
  {
    assert (set w: nat | w in g[f] && w in component) == (set w: nat | w in g[f] && w in block);
  }

  /** The arrangement lists the class in key order. */
  lemma ArrangedCorrect(g: Graph, info: seq<FileInfo>, component: seq<nat>)
    requires |g| == |info| && Distinct(component) && InRange(component, |g|)
    ensures var block := Arranged(g, info, component);
            && Distinct(block) && InKeyOrder(g, info, block) && forall v: nat :: v in block <==> v in component
  {
    hide KeyAtMost, Sort, KeyOf;
    var keys := Keys(g, info, component);
    var sorted := Sort(keys, KeyAtMost);
    KeyOrdering();
    SortCorrect(keys, KeyAtMost);
    KeysFiles(g, info, component);
    var block := Files(sorted);
    assert forall i :: 0 <= i < |sorted| ==> sorted[i] in sorted;
    forall v: nat
      ensures v in block <==> v in component
    {
      if v in component {
        var k := KeyOf(g, info, component, v);
        KeyFile(g, info, component, v);
        assert k in sorted;
        var i :| 0 <= i < |sorted| && sorted[i] == k;
        assert block[i] == v;
      }
    }
    forall i, j | 0 <= i < j < |keys|
      ensures keys[i] != keys[j]
    {
      KeyFile(g, info, component, component[i]);
      KeyFile(g, info, component, component[j]);
    }
    RearrangedDistinct(keys, sorted);
    forall i, j | 0 <= i < j < |block|
      ensures KeyAtMost(KeyOf(g, info, block, block[i]), KeyOf(g, info, block, block[j]))
    {
      SameInner(g, info, component, block, block[i]);
      SameInner(g, info, component, block, block[j]);
    }
  }

  lemma KeyFile(g: Graph, info: seq<FileInfo>, component: seq<nat>, f: nat)
    requires f < |g| == |info|
    ensures KeyOf(g, info, component, f).file == f
  {
  }

  // Only the edges matter

  /** The same dependency sets, listed in any order. */
  ghost predicate SameEdges(g: Graph, h: Graph) {
    |g| == |h| && forall u: nat, w: nat :: u < |g| ==> (w in g[u] <==> w in h[u])
  }

  lemma ReachSame(g: Graph, h: Graph, u: nat, v: nat)
    requires SameEdges(g, h)
    ensures Reach(g, u, v) <==> Reach(h, u, v)
  {
    if p :| WalkBetween(g, p, u, v) {
      assert WalkBetween(h, p, u, v);
    }
    if p :| WalkBetween(h, p, u, v) {
      assert WalkBetween(g, p, u, v);
    }
  }

  lemma MutualSame(g: Graph, h: Graph, u: nat, v: nat)
    requires SameEdges(g, h)
    ensures Mutual(g, u, v) <==> Mutual(h, u, v)
  {
    hide Reach, SameEdges;
    ReachSame(g, h, u, v);
    ReachSame(g, h, v, u);
  }

  lemma ReadySame(g: Graph, h: Graph, placed: seq<seq<nat>>, v: nat)
    requires SameEdges(g, h) && Ready(g, placed, v)
    ensures Ready(h, placed, v)
  {
    hide Reach, Mutual, SC.Placed;
    assert |g| == |h|;
    forall w: nat | Reach(h, v, w)
      ensures SC.Placed(placed, w) || Mutual(h, v, w)
    {
      ReachSame(g, h, v, w);
      MutualSame(g, h, v, w);
    }
  }

  lemma MostUrgent(info: seq<FileInfo>, block: seq<nat>) returns (x: nat)
    requires block != [] && InRange(block, |info|)
    ensures x in block && x < |info| && forall y: nat ::
            y in block && y < |info| ==> info[x].priority <= info[y].priority
    decreases |block|
  {
    x := block[0];
    for i := 0 to |block|
      invariant x in block && x < |info| && forall j :: 0 <= j < i ==> info[x].priority <= info[block[j]].priority
    {
      if info[block[i]].priority < info[x].priority {
        x := block[i];
      }
    }
  }

  /** Each choice is at least as urgent as the other, so they share a file. */
  lemma SameLeader(g: Graph, h: Graph, info: seq<FileInfo>, placed: seq<seq<nat>>, b: seq<nat>, c: seq<nat>)
    returns (x: nat)
    requires |g| == |info| == |h| && SameEdges(g, h) && UniquePriorities(info)
    requires NextBlock(g, info, placed, b) && NextBlock(h, info, placed, c)
    ensures x in b && x in c
  {
    hide Ready, SameEdges, InKeyOrder, Reach, Mutual;
    NextInRange(g, info, placed, b);
    NextInRange(h, info, placed, c);
    x := MostUrgent(info, b);
    var y := MostUrgent(info, c);
    ReadySame(g, h, placed, x);
    SameEdgesSymmetric(g, h);
    ReadySame(h, g, placed, y);
    assert LeadsWith(info, c, x) && LeadsWith(info, b, y);
  }

  lemma SameEdgesSymmetric(g: Graph, h: Graph)
    requires SameEdges(g, h)
    ensures SameEdges(h, g)
  {
  }

  lemma NextInRange(g: Graph, info: seq<FileInfo>, placed: seq<seq<nat>>, b: seq<nat>)
    requires |g| == |info| && NextBlock(g, info, placed, b)
    ensures b != [] && InRange(b, |info|) && Distinct(b)
  {
  }

  lemma SameMembers(g: Graph, h: Graph, b: seq<nat>, c: seq<nat>, x: nat)
    requires SameEdges(g, h) && SC.IsClass(g, b) && SC.IsClass(h, c) && x in b && x in c
    ensures forall v: nat :: v in b <==> v in c
  {
    hide Mutual, SameEdges;
    forall v: nat
      ensures v in b <==> v in c
    {
      MutualSame(g, h, x, v);
    }
  }

  lemma SameKey(g: Graph, h: Graph, info: seq<FileInfo>, b: seq<nat>, c: seq<nat>, f: nat)
    requires f < |g| == |info| == |h| && SameEdges(g, h) && forall v: nat :: v in b <==> v in c
    ensures KeyOf(g, info, b, f) == KeyOf(h, info, c, f)
  {
    assert (set w: nat | w in g[f] && w in b) == (set w: nat | w in h[f] && w in c);
  }

  lemma SameArrangement(g: Graph, h: Graph, info: seq<FileInfo>, b: seq<nat>, c: seq<nat>)
    requires |g| == |info| == |h| && SameEdges(g, h) && UniquePriorities(info)
    requires InKeyOrder(g, info, b) && InKeyOrder(h, info, c) && Distinct(b) && Distinct(c)
    requires forall v: nat :: v in b <==> v in c
    ensures b == c
  {
    hide KeyAtMost, KeyOf, SameEdges, UniquePriorities;
    var kb, kc := Keys(g, info, b), Keys(h, info, c);
    KeysFiles(g, info, b);
    KeysFiles(h, info, c);
    forall k
      ensures k in kb <==> k in kc
    {
      if k.file in b {
        FileInRange(b, |g|, k.file);
        SameKey(g, h, info, b, c, k.file);
      }
    }
    KeysDistinct(g, info, b);
    KeysDistinct(h, info, c);
    DistinctSameMembers(kb, kc);
    KeyOrdering();
    KeysNoTies(g, info, b);
    SortedUnique(kb, kc, KeyAtMost);
    forall i | 0 <= i < |b|
      ensures b[i] == c[i]
    {
      KeyFile(g, info, b, b[i]);
      KeyFile(h, info, c, c[i]);
    }
  }

  lemma FileInRange(files: seq<nat>, n: nat, f: nat)
    requires InRange(files, n) && f in files
    ensures f < n
  {
  }

  lemma KeysDistinct(g: Graph, info: seq<FileInfo>, b: seq<nat>)
    requires |g| == |info| && InRange(b, |g|) && Distinct(b)
    ensures Distinct(Keys(g, info, b))
  {
    hide KeyOf;
    var keys := Keys(g, info, b);
    forall i, j | 0 <= i < j < |keys|
      ensures keys[i] != keys[j]
    {
      KeyFile(g, info, b, b[i]);
      KeyFile(g, info, b, b[j]);
    }
  }

  lemma KeysNoTies(g: Graph, info: seq<FileInfo>, b: seq<nat>)
    requires |g| == |info| && InRange(b, |g|) && UniquePriorities(info)
    ensures NoTies(Keys(g, info, b), KeyAtMost)
  {
    hide InnerCount;
    var keys := Keys(g, info, b);
    forall i, j | 0 <= i < |keys| && 0 <= j < |keys| && KeyAtMost(keys[i], keys[j]) && KeyAtMost(keys[j], keys[i])
      ensures keys[i] == keys[j]
    {
      assert info[b[i]].priority == info[b[j]].priority;
    }
  }

  lemma NextBlockUnique(g: Graph, h: Graph, info: seq<FileInfo>, placed: seq<seq<nat>>, b: seq<nat>, c: seq<nat>)
    requires |g| == |info| == |h| && SameEdges(g, h) && UniquePriorities(info)
    requires NextBlock(g, info, placed, b) && NextBlock(h, info, placed, c)
    ensures b == c
  {
    hide Ready, SameEdges, InKeyOrder, Mutual, UniquePriorities, LeadsWith;
    var x := SameLeader(g, h, info, placed, b, c);
    SameMembers(g, h, b, c, x);
    SameArrangement(g, h, info, b, c);
  }

  /** The schedule is determined by the edges and the priorities. */
  lemma {:induction false} SchedulePrefix(g: Graph, h: Graph, info: seq<FileInfo>, b: seq<seq<nat>>,
                                          c: seq<seq<nat>>, k: nat)
    requires |g| == |info| == |h| && SameEdges(g, h) && UniquePriorities(info)
    requires Greedy(g, info, b) && Greedy(h, info, c) && k <= |b| && k <= |c|
    ensures b[..k] == c[..k]
  {
    hide NextBlock, SameEdges, UniquePriorities;
    if k > 0 {
      SchedulePrefix(g, h, info, b, c, k - 1);
      NextBlockUnique(g, h, info, b[..k - 1], b[k - 1], c[k - 1]);
      assert b[..k] == b[..k - 1] + [b[k - 1]] && c[..k] == c[..k - 1] + [c[k - 1]];
    }
  }

  lemma NoBlockLeft(g: Graph, info: seq<FileInfo>, blocks: seq<seq<nat>>, k: nat)
    requires |g| == |info| && Greedy(g, info, blocks) && k < |blocks|
    ensures exists v: nat :: v < |g| && !SC.Placed(blocks[..k], v)
  {
    hide Reach, Mutual, SC.Placed, InKeyOrder;
    assert NextBlock(g, info, blocks[..k], blocks[k]);
    assert blocks[k][0] in blocks[k];
    assert Ready(g, blocks[..k], blocks[k][0]);
  }

  /** Two runs over the same dependency relation give the same blocks, however
      each iterates the dependency sets. */
  lemma ScheduleUnique(g: Graph, h: Graph, info: seq<FileInfo>, b: seq<seq<nat>>, c: seq<seq<nat>>)
    requires |g| == |info| == |h| && SameEdges(g, h) && UniquePriorities(info)
    requires Schedule(g, info, b) && Schedule(h, info, c)
    ensures b == c
  {
    hide Greedy, SC.Placed, UniquePriorities;
    var k := if |b| < |c| then |b| else |c|;
    SchedulePrefix(g, h, info, b, c, k);
    assert b[..|b|] == b && c[..|c|] == c;
    if k < |b| {
      NoBlockLeft(g, info, b, k);
    } else if k < |c| {
      NoBlockLeft(h, info, c, k);
    }
  }

  // What a schedule guarantees

  lemma {:induction false} PlacedFlat(blocks: seq<seq<nat>>, v: nat)
    ensures v in Flatten(blocks) <==> SC.Placed(blocks, v)
    decreases |blocks|
  {
    hide SC.Placed;
    if blocks == [] {
      NonePlaced(v);
    } else {
      var last := |blocks| - 1;
      PlacedFlat(blocks[..last], v);
      assert blocks == blocks[..last] + [blocks[last]];
      SC.PlacedMore(blocks[..last], blocks[last], v);
    }
  }

  lemma NonePlaced(v: nat)
    ensures !SC.Placed([], v)
  {
  }

  lemma GreedyPrefix(g: Graph, info: seq<FileInfo>, blocks: seq<seq<nat>>, n: nat)
    requires |g| == |info| && Greedy(g, info, blocks) && n <= |blocks|
    ensures Greedy(g, info, blocks[..n])
  {
    forall k | 0 <= k < n
      ensures NextBlock(g, info, blocks[..n][..k], blocks[..n][k])
    {
      assert blocks[..n][..k] == blocks[..k];
    }
  }

  /** Of a dependency within the order, the target comes earlier or belongs to
      the same class. */
  ghost predicate NoForwardEdge(g: Graph, order: seq<nat>) {
    forall i, j :: 0 <= i < j < |order| && Edge(g, order[i], order[j]) ==> Mutual(g, order[i], order[j])
  }

  ghost predicate ClassesContiguous(g: Graph, order: seq<nat>) {
    forall i, j, k :: 0 <= i < j < k < |order| && Mutual(g, order[i], order[k]) ==> Mutual(g, order[i], order[j])
  }

  /** An earlier file does not depend on a later block unless mutually, and then
      it would be in that block. */
  lemma EarlierIndependent(g: Graph, info: seq<FileInfo>, blocks: seq<seq<nat>>, m: nat, u: nat, block: seq<nat>,
                           w: nat)
    requires |g| == |info| && Greedy(g, info, blocks) && m < |blocks| && u in blocks[m]
    requires NextBlock(g, info, blocks, block) && w in block
    ensures !Reach(g, u, w)
  {
    hide Reach, InKeyOrder, LeadsWith;
    assert NextBlock(g, info, blocks[..m], blocks[m]);
    assert Ready(g, blocks[..m], u) && Ready(g, blocks, w);
    if Reach(g, u, w) {
      NotPlacedYet(g, blocks, m, u, w);
    }
  }

  lemma NotPlacedYet(g: Graph, blocks: seq<seq<nat>>, m: nat, u: nat, w: nat)
    requires m < |blocks| && u in blocks[m] && SC.IsClass(g, blocks[m])
    requires SC.Placed(blocks[..m], w) || Mutual(g, u, w)
    ensures SC.Placed(blocks, w)
  {
    hide Mutual;
    if SC.Placed(blocks[..m], w) {
      var k :| 0 <= k < m && w in blocks[..m][k];
      assert w in blocks[k];
    } else {
      assert w in blocks[m];
    }
  }

  lemma EarlierFile(g: Graph, info: seq<FileInfo>, blocks: seq<seq<nat>>, block: seq<nat>, u: nat, w: nat)
    requires |g| == |info| && Greedy(g, info, blocks) && NextBlock(g, info, blocks, block)
    requires u in Flatten(blocks) && w in block
    ensures !Reach(g, u, w) && u != w
  {
    hide Reach, NextBlock, Greedy;
    PlacedFlat(blocks, u);
    var m :| 0 <= m < |blocks| && u in blocks[m];
    EarlierIndependent(g, info, blocks, m, u, block, w);
    BlockInRange(g, info, blocks, block, w);
    ReachRefl(g, w);
  }

  lemma BlockInRange(g: Graph, info: seq<FileInfo>, blocks: seq<seq<nat>>, block: seq<nat>, w: nat)
    requires |g| == |info| && NextBlock(g, info, blocks, block) && w in block
    ensures w < |g| && Distinct(block) && forall v: nat :: v in block ==> Mutual(g, w, v)
  {
    hide Mutual;
  }

  lemma AppendBlock(g: Graph, info: seq<FileInfo>, blocks: seq<seq<nat>>, block: seq<nat>)
    requires |g| == |info| && Greedy(g, info, blocks) && NextBlock(g, info, blocks, block)
    requires var order := Flatten(blocks); Distinct(order) && NoForwardEdge(g, order) && ClassesContiguous(g, order)
    ensures var order := Flatten(blocks) + block;
            Distinct(order) && NoForwardEdge(g, order) && ClassesContiguous(g, order)
  {
    hide Greedy, NextBlock, Reach;
    var before := Flatten(blocks);
    var order := before + block;
    forall i, j | 0 <= i < j < |order| && j >= |before|
      ensures order[i] != order[j]
      ensures Reach(g, order[i], order[j]) ==> Mutual(g, order[i], order[j]) && i >= |before|
    {
      assert order[j] == block[j - |before|];
      BlockInRange(g, info, blocks, block, order[j]);
      if i < |before| {
        EarlierFile(g, info, blocks, block, order[i], order[j]);
      } else {
        assert order[i] == block[i - |before|] && order[i] in block;
      }
    }
    forall i, j | 0 <= i < j < |order| && Edge(g, order[i], order[j])
      ensures Mutual(g, order[i], order[j])
    {
      ReachEdge(g, order[i], order[j]);
      if j < |before| {
        assert before[i] == order[i] && before[j] == order[j];
      }
    }
    forall i, j, k | 0 <= i < j < k < |order| && Mutual(g, order[i], order[k])
      ensures Mutual(g, order[i], order[j])
    {
      if k < |before| {
        assert before[i] == order[i] && before[j] == order[j] && before[k] == order[k];
      } else {
        assert order[i] == block[i - |before|] && order[j] == block[j - |before|];
        BlockInRange(g, info, blocks, block, order[i]);
      }
    }
  }

  lemma {:induction false} GreedyOrder(g: Graph, info: seq<FileInfo>, blocks: seq<seq<nat>>)
    requires |g| == |info| && Greedy(g, info, blocks)
    ensures var order := Flatten(blocks); Distinct(order) && NoForwardEdge(g, order) && ClassesContiguous(g, order)
    decreases |blocks|
  {
    hide NextBlock, Edge, Mutual;
    if blocks != [] {
      var last := |blocks| - 1;
      GreedyPrefix(g, info, blocks, last);
      GreedyOrder(g, info, blocks[..last]);
      AppendBlock(g, info, blocks[..last], blocks[last]);
    }
  }

  /** The order lists every file once, keeps each class contiguous, and has no
      dependency pointing forward outside a class. */
  lemma ScheduleOrder(g: Graph, info: seq<FileInfo>, blocks: seq<seq<nat>>)
    requires |g| == |info| && Schedule(g, info, blocks)
    ensures var order := Flatten(blocks);
            Permutation(|g|, order) && NoForwardEdge(g, order) && ClassesContiguous(g, order)
  {
    hide NextBlock, NoForwardEdge, ClassesContiguous, SC.Placed, Greedy;
    GreedyOrder(g, info, blocks);
    var order := Flatten(blocks);
    forall v: nat
      ensures v < |g| <==> v in order
    {
      PlacedFlat(blocks, v);
      if SC.Placed(blocks, v) {
        PlacedInRange(g, info, blocks, v);
      }
    }
    AllListed(order, |g|);
  }

  lemma PlacedInRange(g: Graph, info: seq<FileInfo>, blocks: seq<seq<nat>>, v: nat)
    requires |g| == |info| && Greedy(g, info, blocks) && SC.Placed(blocks, v)
    ensures v < |g|
  {
    hide Ready, InKeyOrder, LeadsWith;
    var k :| 0 <= k < |blocks| && v in blocks[k];
    assert NextBlock(g, info, blocks[..k], blocks[k]);
  }
}
