/** What a schedule means for the listed order and the listed cycles, file by
    file. */
module ReadingResults {
  import opened Digraph
  import opened ReadingOrders
  import SC = StrongComponents

  // The listed cycles

  /** The blocks of several files. */
  function Larger(blocks: seq<seq<nat>>): seq<seq<nat>>
    decreases |blocks|
  {
    if blocks == [] then []
    else
      var last := |blocks| - 1;
      Larger(blocks[..last]) + if |blocks[last]| > 1 then [blocks[last]] else []
  }

  ghost predicate ListedAt(order: seq<nat>, c: seq<nat>, k: nat) {
    k + |c| <= |order| && order[k..k + |c|] == c
  }

  /** `c` is listed in `order` without gaps. */
  ghost predicate ListedTogether(order: seq<nat>, c: seq<nat>) {
    exists k: nat :: ListedAt(order, c, k)
  }

  /** Each cycle is a class of at least two files, listed as the order lists it;
      earlier cycles come earlier; every file that depends mutually on another
      file is in exactly one cycle. */
  ghost predicate ListsCycles(g: Graph, order: seq<nat>, cycles: seq<seq<nat>>) {
    && (forall a :: 0 <= a < |cycles| ==>
          |cycles[a]| >= 2 && SC.IsClass(g, cycles[a]) && ListedTogether(order, cycles[a]))
    && (forall a, b, u: nat, v: nat :: 0 <= a < b < |cycles| && u in cycles[a] && v in cycles[b] ==>
          ListedBefore(order, u, v))
    && (forall u: nat, v: nat :: u != v && Mutual(g, u, v) ==> exists a :: 0 <= a < |cycles| && u in cycles[a])
    && (forall a, b, u: nat :: 0 <= a < b < |cycles| && u in cycles[a] ==> u !in cycles[b])
  }

  ghost predicate ListedBefore(order: seq<nat>, u: nat, v: nat) {
    exists i, j :: 0 <= i < j < |order| && order[i] == u && order[j] == v
  }

  // The order inside a class

  ghost function InnerDependencies(g: Graph, f: nat): set<nat>
    requires f < |g|
  {
    set w: nat | w in g[f] && Mutual(g, f, w)
  }

  /** `f` may come before `d`: test modules last, then entry files late, then by
      the number of dependencies inside the class, then by priority. */
  ghost predicate MayPrecede(g: Graph, info: seq<FileInfo>, f: nat, d: nat)
    requires f < |g| == |info| && d < |g|
  {
    && (info[f].testModule ==> info[d].testModule)
    && (info[f].testModule == info[d].testModule ==>
          && (info[f].entryFile ==> info[d].entryFile)
          && (info[f].entryFile == info[d].entryFile ==>
                && |InnerDependencies(g, f)| <= |InnerDependencies(g, d)|
                && (|InnerDependencies(g, f)| == |InnerDependencies(g, d)| ==> info[f].priority <= info[d].priority)))
  }

  ghost predicate InnerOrder(g: Graph, info: seq<FileInfo>, order: seq<nat>)
    requires |g| == |info|
  {
    forall i, j :: 0 <= i < j < |order| && order[i] < |g| && order[j] < |g| && Mutual(g, order[i], order[j]) ==>
      MayPrecede(g, info, order[i], order[j])
  }

  // The order of the classes

  /** All that `v` depends on is listed in `placed`, apart from its own class. */
  ghost predicate Free(g: Graph, placed: seq<nat>, v: nat) {
    forall w: nat :: Reach(g, v, w) ==> w in placed || Mutual(g, v, w)
  }

  /** Whenever a class starts, it has a file at least as urgent as any file that
      could have come instead. */
  ghost predicate UrgentFirst(g: Graph, info: seq<FileInfo>, order: seq<nat>)
    requires |g| == |info|
  {
    forall i, j :: 0 <= i <= j < |order| && order[j] < |g| && Free(g, order[..i], order[j])
                   && (forall h :: 0 <= h < i ==> !Mutual(g, order[h], order[i])) ==>
      exists x: nat :: x < |g| && Mutual(g, order[i], x) && info[x].priority <= info[order[j]].priority
  }

  // Where a block is listed

  /** The blocks before the `k`th take `start` places. */
  ghost predicate BlockAt(blocks: seq<seq<nat>>, k: nat, start: nat) {
    var order := Flatten(blocks);
    && k < |blocks| && start + |blocks[k]| <= |order|
    && order[..start] == Flatten(blocks[..k]) && order[start..start + |blocks[k]|] == blocks[k]
  }

  lemma FlattenLast(blocks: seq<seq<nat>>, block: seq<nat>)
    ensures Flatten(blocks + [block]) == Flatten(blocks) + block
  {
    assert (blocks + [block])[..|blocks|] == blocks;
  }

  lemma {:induction false} BlockPlace(blocks: seq<seq<nat>>, k: nat) returns (start: nat)
    requires k < |blocks|
    ensures BlockAt(blocks, k, start)
    decreases |blocks|
  {
    var last := |blocks| - 1;
    assert blocks == blocks[..last] + [blocks[last]];
    FlattenLast(blocks[..last], blocks[last]);
    if k == last {
      start := |Flatten(blocks[..last])|;
    } else {
      start := BlockPlace(blocks[..last], k);
      assert blocks[..last][..k] == blocks[..k];
      var before := Flatten(blocks[..last]);
      assert Flatten(blocks)[..start] == before[..start];
      assert Flatten(blocks)[start..start + |blocks[k]|] == before[start..start + |blocks[k]|];
    }
  }

  /** The block and the offset of a place in the order. */
  lemma {:induction false} PlaceInBlock(blocks: seq<seq<nat>>, i: nat) returns (k: nat, start: nat)
    requires i < |Flatten(blocks)|
    ensures BlockAt(blocks, k, start) && start <= i < start + |blocks[k]|
    decreases |blocks|
  {
    var last := |blocks| - 1;
    assert blocks == blocks[..last] + [blocks[last]];
    FlattenLast(blocks[..last], blocks[last]);
    var before := Flatten(blocks[..last]);
    if i < |before| {
      k, start := PlaceInBlock(blocks[..last], i);
      assert blocks[..last][..k] == blocks[..k];
      assert Flatten(blocks)[..start] == before[..start];
      assert Flatten(blocks)[start..start + |blocks[k]|] == before[start..start + |blocks[k]|];
    } else {
      k, start := last, |before|;
    }
  }

  lemma BlockMember(blocks: seq<seq<nat>>, k: nat, start: nat, i: nat)
    requires BlockAt(blocks, k, start) && start <= i < start + |blocks[k]|
    ensures Flatten(blocks)[i] == blocks[k][i - start]
  {
    var order := Flatten(blocks);
    assert order[start..start + |blocks[k]|][i - start] == order[i];
  }

  // The order inside a class, proved

  lemma KeyMeaning(g: Graph, info: seq<FileInfo>, block: seq<nat>, f: nat, d: nat)
    requires |g| == |info| && SC.IsClass(g, block) && f in block && d in block
    requires KeyAtMost(KeyOf(g, info, block, f), KeyOf(g, info, block, d))
    ensures f < |g| && d < |g| && MayPrecede(g, info, f, d)
  {
    hide Mutual;
    assert InnerCount(g, f, block) == |InnerDependencies(g, f)| by {
      assert (set w: nat | w in g[f] && w in block) == InnerDependencies(g, f);
    }
    assert InnerCount(g, d, block) == |InnerDependencies(g, d)| by {
      assert (set w: nat | w in g[d] && w in block) == InnerDependencies(g, d);
    }
  }

  lemma BlockClass(g: Graph, info: seq<FileInfo>, blocks: seq<seq<nat>>, k: nat)
    requires |g| == |info| && Greedy(g, info, blocks) && k < |blocks|
    ensures SC.IsClass(g, blocks[k]) && InKeyOrder(g, info, blocks[k])
  {
    assert NextBlock(g, info, blocks[..k], blocks[k]);
  }

  /** A file mutual with a file of a block is listed in that block. */
  lemma SameBlock(g: Graph, blocks: seq<seq<nat>>, k: nat, start: nat, i: nat, j: nat)
    requires BlockAt(blocks, k, start) && Distinct(Flatten(blocks)) && SC.IsClass(g, blocks[k])
    requires start <= i < start + |blocks[k]| && j < |Flatten(blocks)|
    requires Mutual(g, Flatten(blocks)[i], Flatten(blocks)[j])
    ensures start <= j < start + |blocks[k]|
  {
    hide Mutual;
    var order := Flatten(blocks);
    BlockMember(blocks, k, start, i);
    assert order[i] in blocks[k] && order[j] in blocks[k];
    var b :| 0 <= b < |blocks[k]| && blocks[k][b] == order[j];
    BlockMember(blocks, k, start, start + b);
  }

  lemma ScheduleInner(g: Graph, info: seq<FileInfo>, blocks: seq<seq<nat>>)
    requires |g| == |info| && Greedy(g, info, blocks) && Distinct(Flatten(blocks))
    ensures InnerOrder(g, info, Flatten(blocks))
  {
    hide Greedy, Mutual, KeyAtMost, SC.IsClass, BlockAt, Distinct, MayPrecede;
    var order := Flatten(blocks);
    forall i, j | 0 <= i < j < |order| && order[i] < |g| && order[j] < |g| && Mutual(g, order[i], order[j])
      ensures MayPrecede(g, info, order[i], order[j])
    {
      var k, start := PlaceInBlock(blocks, i);
      BlockBounds(blocks, k, start);
      BlockClass(g, info, blocks, k);
      SameBlock(g, blocks, k, start, i, j);
      BlockMember(blocks, k, start, i);
      BlockMember(blocks, k, start, j);
      KeyMeaning(g, info, blocks[k], order[i], order[j]);
    }
  }

  lemma BlockBounds(blocks: seq<seq<nat>>, k: nat, start: nat)
    requires BlockAt(blocks, k, start)
    ensures k < |blocks| && start + |blocks[k]| <= |Flatten(blocks)|
    ensures Flatten(blocks)[..start] == Flatten(blocks[..k])
    ensures Flatten(blocks)[start..start + |blocks[k]|] == blocks[k]
  {
  }

  // The order of the classes, proved

  lemma ScheduleUrgent(g: Graph, info: seq<FileInfo>, blocks: seq<seq<nat>>)
    requires |g| == |info| && Greedy(g, info, blocks) && Distinct(Flatten(blocks))
    ensures UrgentFirst(g, info, Flatten(blocks))
  {
    hide Greedy, Mutual, SC.IsClass, BlockAt, Distinct, Free, SC.Placed;
    var order := Flatten(blocks);
    forall i, j | 0 <= i <= j < |order| && order[j] < |g| && Free(g, order[..i], order[j])
                  && (forall h :: 0 <= h < i ==> !Mutual(g, order[h], order[i]))
      ensures exists x: nat :: x < |g| && Mutual(g, order[i], x) && info[x].priority <= info[order[j]].priority
    {
      var k, start := PlaceInBlock(blocks, i);
      BlockBounds(blocks, k, start);
      BlockClass(g, info, blocks, k);
      ClassStart(g, blocks, k, start, i);
      ReadyThere(g, blocks, k, i, j);
      LeaderThere(g, info, blocks, k, order[i], order[j]);
    }
  }

  /** No file of the class is listed before: the block starts here. */
  lemma ClassStart(g: Graph, blocks: seq<seq<nat>>, k: nat, start: nat, i: nat)
    requires BlockAt(blocks, k, start) && SC.IsClass(g, blocks[k]) && start <= i < start + |blocks[k]|
    requires forall h :: 0 <= h < i ==> !Mutual(g, Flatten(blocks)[h], Flatten(blocks)[i])
    ensures i == start && Flatten(blocks)[i] in blocks[k] && Flatten(blocks)[..i] == Flatten(blocks[..k])
  {
    hide Mutual;
    BlockMember(blocks, k, start, i);
    BlockMember(blocks, k, start, start);
    assert blocks[k][0] in blocks[k];
  }

  lemma ReadyThere(g: Graph, blocks: seq<seq<nat>>, k: nat, i: nat, j: nat)
    requires k < |blocks| && i <= j < |Flatten(blocks)| && Distinct(Flatten(blocks))
    requires Flatten(blocks)[..i] == Flatten(blocks[..k])
    requires Flatten(blocks)[j] < |g| && Free(g, Flatten(blocks)[..i], Flatten(blocks)[j])
    ensures Ready(g, blocks[..k], Flatten(blocks)[j])
  {
    hide Reach, Mutual, SC.Placed;
    var order := Flatten(blocks);
    PlacedFlat(blocks[..k], order[j]);
    assert order[j] !in order[..i];
    forall w: nat | Reach(g, order[j], w)
      ensures SC.Placed(blocks[..k], w) || Mutual(g, order[j], w)
    {
      PlacedFlat(blocks[..k], w);
    }
  }

  lemma LeaderThere(g: Graph, info: seq<FileInfo>, blocks: seq<seq<nat>>, k: nat, f: nat, v: nat)
    requires |g| == |info| && Greedy(g, info, blocks) && k < |blocks| && f in blocks[k]
    requires Ready(g, blocks[..k], v)
    ensures v < |g| && exists x: nat :: x < |g| && Mutual(g, f, x) && info[x].priority <= info[v].priority
  {
    hide Mutual, Ready, InKeyOrder;
    assert NextBlock(g, info, blocks[..k], blocks[k]);
    assert LeadsWith(info, blocks[k], v);
    var x: nat :| x in blocks[k] && x < |info| && v < |info| && info[x].priority <= info[v].priority;
    assert Mutual(g, f, x);
  }

  // The cycles, proved

  lemma {:induction false} LargerBlock(blocks: seq<seq<nat>>, a: nat) returns (k: nat)
    requires a < |Larger(blocks)|
    ensures k < |blocks| && Larger(blocks)[a] == blocks[k] && |blocks[k]| > 1 && |Larger(blocks[..k])| == a
    decreases |blocks|
  {
    var last := |blocks| - 1;
    if a < |Larger(blocks[..last])| {
      k := LargerBlock(blocks[..last], a);
      assert blocks[..last][..k] == blocks[..k];
    } else {
      k := last;
    }
  }

  lemma {:induction false} LargerGrows(blocks: seq<seq<nat>>, m: nat, n: nat)
    requires m <= n <= |blocks|
    ensures |Larger(blocks[..m])| <= |Larger(blocks[..n])|
    decreases n
  {
    if m < n {
      LargerGrows(blocks, m, n - 1);
      assert blocks[..n][..n - 1] == blocks[..n - 1];
    }
  }

  lemma {:induction false} LargerListed(blocks: seq<seq<nat>>, k: nat)
    requires k < |blocks| && |blocks[k]| > 1
    ensures blocks[k] in Larger(blocks)
    decreases |blocks|
  {
    var last := |blocks| - 1;
    if k < last {
      LargerListed(blocks[..last], k);
    }
  }

  lemma BlocksListedBefore(blocks: seq<seq<nat>>, k: nat, m: nat, u: nat, v: nat)
    requires k < m < |blocks| && u in blocks[k] && v in blocks[m]
    ensures ListedBefore(Flatten(blocks), u, v)
  {
    hide BlockAt;
    var order := Flatten(blocks);
    var start := BlockPlace(blocks, k);
    var next := BlockPlace(blocks, m);
    BlockBounds(blocks, k, start);
    BlockBounds(blocks, m, next);
    var a :| 0 <= a < |blocks[k]| && blocks[k][a] == u;
    var b :| 0 <= b < |blocks[m]| && blocks[m][b] == v;
    BlockMember(blocks, k, start, start + a);
    BlockMember(blocks, m, next, next + b);
    StartsLater(blocks, k, m, start, next);
  }

  lemma StartsLater(blocks: seq<seq<nat>>, k: nat, m: nat, start: nat, next: nat)
    requires k < m && BlockAt(blocks, k, start) && BlockAt(blocks, m, next)
    ensures start + |blocks[k]| <= next
  {
    hide Flatten;
    BlockBounds(blocks, k, start);
    BlockBounds(blocks, m, next);
    assert |Flatten(blocks[..k])| == start && |Flatten(blocks[..m])| == next;
    var there := BlockPlace(blocks[..m], k);
    BlockBounds(blocks[..m], k, there);
    assert blocks[..m][..k] == blocks[..k];
    assert |Flatten(blocks[..m])[..there]| == there;
  }

  lemma LargerOrder(blocks: seq<seq<nat>>, a: nat, b: nat, u: nat, v: nat)
    requires a < b < |Larger(blocks)| && u in Larger(blocks)[a] && v in Larger(blocks)[b]
    ensures ListedBefore(Flatten(blocks), u, v)
  {
    var k := LargerBlock(blocks, a);
    var m := LargerBlock(blocks, b);
    if m <= k {
      LargerGrows(blocks, m, k);
    }
    BlocksListedBefore(blocks, k, m, u, v);
  }

  lemma NotBeforeItself(order: seq<nat>, u: nat)
    requires Distinct(order)
    ensures !ListedBefore(order, u, u)
  {
  }

  lemma LargerTogether(g: Graph, info: seq<FileInfo>, blocks: seq<seq<nat>>, a: nat)
    requires |g| == |info| && Greedy(g, info, blocks) && a < |Larger(blocks)|
    ensures var c := Larger(blocks)[a];
            |c| >= 2 && SC.IsClass(g, c) && ListedTogether(Flatten(blocks), c)
  {
    hide SC.IsClass, BlockAt;
    var k := LargerBlock(blocks, a);
    BlockClass(g, info, blocks, k);
    var start := BlockPlace(blocks, k);
    BlockBounds(blocks, k, start);
    assert ListedAt(Flatten(blocks), blocks[k], start);
  }

  lemma MutualListed(g: Graph, info: seq<FileInfo>, blocks: seq<seq<nat>>, u: nat, v: nat)
    requires |g| == |info| && Schedule(g, info, blocks) && u != v && Mutual(g, u, v)
    ensures exists a :: 0 <= a < |Larger(blocks)| && u in Larger(blocks)[a]
  {
    hide Greedy;
    MutualInRange(g, u, v);
    assert SC.Placed(blocks, u);
    var k :| 0 <= k < |blocks| && u in blocks[k];
    BlockClass(g, info, blocks, k);
    assert v in blocks[k];
    TwoMembers(blocks[k], u, v);
    LargerListed(blocks, k);
    var a :| 0 <= a < |Larger(blocks)| && Larger(blocks)[a] == blocks[k];
  }

  lemma MutualInRange(g: Graph, u: nat, v: nat)
    requires Mutual(g, u, v)
    ensures u < |g| && v < |g|
  {
    var p :| WalkBetween(g, p, u, v);
  }

  lemma TwoMembers(c: seq<nat>, u: nat, v: nat)
    requires u in c && v in c && u != v
    ensures |c| > 1
  {
  }

  lemma ScheduleCycles(g: Graph, info: seq<FileInfo>, blocks: seq<seq<nat>>)
    requires |g| == |info| && Schedule(g, info, blocks) && Distinct(Flatten(blocks))
    ensures ListsCycles(g, Flatten(blocks), Larger(blocks))
  {
    hide Flatten, Larger, Mutual, SC.IsClass, ListedTogether, ListedBefore, Greedy, SC.Placed;
    var order, cycles := Flatten(blocks), Larger(blocks);
    forall a | 0 <= a < |cycles|
      ensures |cycles[a]| >= 2 && SC.IsClass(g, cycles[a]) && ListedTogether(order, cycles[a])
    {
      LargerTogether(g, info, blocks, a);
    }
    forall a, b, u: nat, v: nat | 0 <= a < b < |cycles| && u in cycles[a] && v in cycles[b]
      ensures ListedBefore(order, u, v)
    {
      LargerOrder(blocks, a, b, u, v);
    }
    forall u: nat, v: nat | u != v && Mutual(g, u, v)
      ensures exists a :: 0 <= a < |cycles| && u in cycles[a]
    {
      MutualListed(g, info, blocks, u, v);
    }
    forall a, b, u: nat | 0 <= a < b < |cycles| && u in cycles[a]
      ensures u !in cycles[b]
    {
      NotBeforeItself(order, u);
    }
  }

  /** A schedule, file by file: the order inside classes, the order of classes,
      and the cycles. */
  lemma ScheduleMeaning(g: Graph, info: seq<FileInfo>, blocks: seq<seq<nat>>)
    requires |g| == |info| && Schedule(g, info, blocks)
    ensures InnerOrder(g, info, Flatten(blocks)) && UrgentFirst(g, info, Flatten(blocks))
    ensures ListsCycles(g, Flatten(blocks), Larger(blocks))
  {
    hide InnerOrder, UrgentFirst, ListsCycles, Greedy, SC.Placed, NoForwardEdge, ClassesContiguous;
    ScheduleOrder(g, info, blocks);
    ScheduleInner(g, info, blocks);
    ScheduleUrgent(g, info, blocks);
    ScheduleCycles(g, info, blocks);
  }
}
