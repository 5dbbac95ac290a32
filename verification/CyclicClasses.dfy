/** Which classes of mutual reachability contain a cycle, how they are listed,
    and what removing the edges inside them achieves. */
module CyclicClasses {
  import opened Digraph
  import opened Numbers
  import opened Sorting
  import opened StrongComponents

  ghost predicate StartsBefore(a: seq<nat>, b: seq<nat>) {
    a != [] && b != [] && a[0] < b[0]
  }

  /** The classes that contain a cycle, each in node order, ordered by their
      first nodes. */
  ghost predicate CyclicClassList(g: Graph, list: seq<seq<nat>>) {
    && (forall k :: 0 <= k < |list| ==> IsClass(g, list[k]) && Increasing(list[k]))
    && (forall j, k :: 0 <= j < k < |list| ==> StartsBefore(list[j], list[k]))
    && (forall v: nat :: Placed(list, v) <==> OnCycle(g, v))
  }

  /** A class contains a cycle when it has two nodes or a node that depends on
      itself. */
  ghost predicate ContainsCycle(g: Graph, c: seq<nat>) {
    |c| != 1 || Edge(g, c[0], c[0])
  }

  lemma FirstStep(g: Graph, u: nat, v: nat) returns (w: nat)
    requires Reach(g, u, v) && u != v
    ensures Edge(g, u, w) && Reach(g, w, v)
  {
    var p :| WalkBetween(g, p, u, v);
    w := p[1];
    WalkReach(g, p, 1, |p| - 1);
    assert Edge(g, p[0], p[1]);
  }

  lemma ClassOnCycle(g: Graph, c: seq<nat>, v: nat)
    requires IsClass(g, c) && v in c
    ensures OnCycle(g, v) <==> ContainsCycle(g, c)
  {
    if |c| != 1 {
      var i :| 0 <= i < |c| && c[i] == v;
      var u := c[if i == 0 then 1 else 0];
      assert u in c && u != v && Mutual(g, v, u);
      var w := FirstStep(g, v, u);
      ReachTrans(g, w, u, v);
    } else {
      assert v == c[0];
      if OnCycle(g, v) {
        SingleNodeCycle(g, c);
      } else if Edge(g, c[0], c[0]) {
        ReachRefl(g, v);
      }
    }
  }

  lemma SingleNodeCycle(g: Graph, c: seq<nat>)
    requires IsClass(g, c) && |c| == 1 && OnCycle(g, c[0])
    ensures Edge(g, c[0], c[0])
  {
    var w: nat :| Edge(g, c[0], w) && Reach(g, w, c[0]);
    ReachEdge(g, c[0], w);
    assert Mutual(g, c[0], w) && w in c;
  }

  /** The classes of a list are compared by their first nodes. */
  predicate FirstAtMost(a: seq<nat>, b: seq<nat>) {
    a == [] || (b != [] && a[0] <= b[0])
  }

  lemma SortedClass(g: Graph, c: seq<nat>)
    requires IsClass(g, c)
    ensures IsClass(g, Sort(c, AtMost)) && Increasing(Sort(c, AtMost))
    ensures forall v: nat :: v in Sort(c, AtMost) <==> v in c
    ensures ContainsCycle(g, c) ==> ContainsCycle(g, Sort(c, AtMost))
  {
    SortCorrect(c, AtMost);
    var s := Sort(c, AtMost);
    forall i, j | 0 <= i < j < |s|
      ensures s[i] < s[j]
    {
      if s[i] == s[j] {
        OccursOnce(c, s[i]);
        OccursTwice(s, i, j);
      }
    }
    if |c| == 1 {
      assert c[0] in s && s[0] == c[0];
    }
  }

  ghost predicate DisjointClasses(g: Graph, list: seq<seq<nat>>) {
    && (forall k :: 0 <= k < |list| ==> IsClass(g, list[k]))
    && (forall j, k, v: nat :: 0 <= j < k < |list| && v in list[j] ==> v !in list[k])
  }

  /** `kept` lists, in node order each, the classes with a cycle among the first
      `n` of `components`. */
  ghost predicate Kept(g: Graph, components: seq<seq<nat>>, n: nat, kept: seq<seq<nat>>) {
    && n <= |components|
    && DisjointClasses(g, kept)
    && (forall k :: 0 <= k < |kept| ==> Increasing(kept[k]) && ContainsCycle(g, kept[k]))
    && (forall v: nat :: Placed(kept, v) ==> Placed(components[..n], v))
    && (forall k, v: nat :: 0 <= k < n && v in components[k] && ContainsCycle(g, components[k]) ==> Placed(kept, v))
  }

  lemma KeepNone(g: Graph, components: seq<seq<nat>>)
    requires ClassesInOrder(g, components)
    ensures Kept(g, components, 0, []) && DisjointClasses(g, components)
  {
  }

  lemma PlacedBefore(g: Graph, components: seq<seq<nat>>, n: nat, v: nat)
    requires DisjointClasses(g, components) && n < |components| && Placed(components[..n], v)
    ensures v !in components[n]
  {
    var i :| 0 <= i < |components[..n]| && v in components[..n][i];
    assert v in components[i];
  }

  lemma KeepNext(g: Graph, components: seq<seq<nat>>, n: nat, kept: seq<seq<nat>>)
    requires Kept(g, components, n, kept) && DisjointClasses(g, components) && n < |components|
    ensures ContainsCycle(g, components[n]) ==> Kept(g, components, n + 1, kept + [Sort(components[n], AtMost)])
    ensures !ContainsCycle(g, components[n]) ==> Kept(g, components, n + 1, kept)
  {
    var c, s := components[n], Sort(components[n], AtMost);
    SortedClass(g, c);
    assert components[..n + 1] == components[..n] + [c];
    forall v: nat
      ensures Placed(components[..n + 1], v) <==> Placed(components[..n], v) || v in c
      ensures Placed(kept + [s], v) <==> Placed(kept, v) || v in c
    {
      PlacedMore(components[..n], c, v);
      PlacedMore(kept, s, v);
    }
    if ContainsCycle(g, c) {
      var more := kept + [s];
      forall v: nat | Placed(kept, v)
        ensures v !in c
      {
        PlacedBefore(g, components, n, v);
      }
      forall j, k, v: nat | 0 <= j < k < |more| && v in more[j]
        ensures v !in more[k]
      {
        if k == |kept| {
          assert Placed(kept, v);
        }
      }
    }
  }

  lemma KeptAll(g: Graph, components: seq<seq<nat>>, kept: seq<seq<nat>>)
    requires Kept(g, components, |components|, kept) && DisjointClasses(g, components)
    requires forall v: nat :: v < |g| ==> Placed(components, v)
    ensures forall v: nat :: Placed(kept, v) <==> OnCycle(g, v)
  {
    forall v: nat
      ensures Placed(kept, v) <==> OnCycle(g, v)
    {
      if Placed(kept, v) {
        var k :| 0 <= k < |kept| && v in kept[k];
        ClassOnCycle(g, kept[k], v);
      }
      if OnCycle(g, v) {
        assert v < |g| && Placed(components, v);
        var k :| 0 <= k < |components| && v in components[k];
        ClassOnCycle(g, components[k], v);
      }
    }
  }

  // The whole listing

  /** Sorting the kept classes by first node gives the listing. */
  lemma SortKept(g: Graph, kept: seq<seq<nat>>)
    requires DisjointClasses(g, kept) && forall k :: 0 <= k < |kept| ==> Increasing(kept[k])
    requires forall v: nat :: Placed(kept, v) <==> OnCycle(g, v)
    ensures CyclicClassList(g, Sort(kept, FirstAtMost))
  {
    hide OnCycle, Increasing, Ordering, Sort, IsClass, Placed, FirstAtMost, DisjointClasses, Sorted;
    var list := Sort(kept, FirstAtMost);
    FirstAtMostOrdering();
    SortCorrect(kept, FirstAtMost);
    KeptClasses(g, kept, list);
    KeptOrdered(g, kept, list);
    PlacedPermuted(kept, list);
  }

  lemma KeptClasses(g: Graph, kept: seq<seq<nat>>, list: seq<seq<nat>>)
    requires DisjointClasses(g, kept) && forall k :: 0 <= k < |kept| ==> Increasing(kept[k])
    requires forall c :: c in list ==> c in kept
    ensures forall k :: 0 <= k < |list| ==> IsClass(g, list[k]) && Increasing(list[k])
  {
    hide Increasing, IsClass;
    forall k | 0 <= k < |list|
      ensures IsClass(g, list[k]) && Increasing(list[k])
    {
      assert list[k] in kept;
      var i :| 0 <= i < |kept| && kept[i] == list[k];
    }
  }

  lemma KeptOrdered(g: Graph, kept: seq<seq<nat>>, list: seq<seq<nat>>)
    requires DisjointClasses(g, kept) && multiset(list) == multiset(kept) && Sorted(list, FirstAtMost)
    requires forall k :: 0 <= k < |list| ==> IsClass(g, list[k])
    ensures forall j, k :: 0 <= j < k < |list| ==> StartsBefore(list[j], list[k])
  {
    hide IsClass, DisjointClasses, Sorted;
    forall j, k | 0 <= j < k < |list|
      ensures StartsBefore(list[j], list[k])
    {
      SortedFirsts(g, kept, list, j, k);
    }
  }

  lemma FirstAtMostOrdering()
    ensures Ordering(FirstAtMost)
  {
  }

  lemma SortedFirsts(g: Graph, kept: seq<seq<nat>>, list: seq<seq<nat>>, j: nat, k: nat)
    requires DisjointClasses(g, kept) && multiset(list) == multiset(kept) && Sorted(list, FirstAtMost)
    requires j < k < |list| && IsClass(g, list[j]) && IsClass(g, list[k])
    ensures StartsBefore(list[j], list[k])
  {
    hide IsClass, DisjointClasses;
    ClassNonEmpty(g, list[j]);
    ClassNonEmpty(g, list[k]);
    FirstNodesDiffer(g, kept, list, j, k);
  }

  lemma ClassNonEmpty(g: Graph, c: seq<nat>)
    requires IsClass(g, c)
    ensures c != []
  {
  }

  lemma PlacedPermuted(kept: seq<seq<nat>>, list: seq<seq<nat>>)
    requires forall c :: c in kept <==> c in list
    ensures forall v: nat :: Placed(list, v) <==> Placed(kept, v)
  {
    forall v: nat
      ensures Placed(list, v) <==> Placed(kept, v)
    {
      if Placed(list, v) {
        var k :| 0 <= k < |list| && v in list[k];
        assert list[k] in kept;
      }
      if Placed(kept, v) {
        var k :| 0 <= k < |kept| && v in kept[k];
        assert kept[k] in list;
      }
    }
  }

  lemma FirstNodesDiffer(g: Graph, kept: seq<seq<nat>>, list: seq<seq<nat>>, j: nat, k: nat)
    requires DisjointClasses(g, kept) && multiset(list) == multiset(kept)
    requires j < k < |list| && list[j] != [] && list[k] != []
    ensures list[j][0] != list[k][0]
  {
    forall x, y | 0 <= x < y < |kept|
      ensures kept[x] != kept[y]
    {
      assert kept[x][0] in kept[x];
    }
    if list[j] == list[k] {
      OccursOnce(kept, list[j]);
      OccursTwice(list, j, k);
    }
    assert list[j] in multiset(kept) && list[k] in multiset(kept);
    var a :| 0 <= a < |kept| && kept[a] == list[j];
    var b :| 0 <= b < |kept| && kept[b] == list[k];
    assert list[j][0] in kept[a] && list[k][0] in kept[b];
  }

  // What the listing says about cycles

  /** Some class is listed exactly when the graph has a cycle. */
  lemma ListedIffCyclic(g: Graph, list: seq<seq<nat>>)
    requires CyclicClassList(g, list)
    ensures list != [] <==> !Acyclic(g)
  {
    if list != [] {
      var v := list[0][0];
      assert v in list[0];
      assert Placed(list, v);
    }
    if !Acyclic(g) {
      var v: nat :| OnCycle(g, v);
      assert Placed(list, v);
    }
  }

  /** A cycle lies inside one listed class. */
  lemma CycleInsideClass(g: Graph, list: seq<seq<nat>>, c: seq<nat>) returns (k: nat)
    requires CyclicClassList(g, list) && SimpleCycle(g, c)
    ensures k < |list| && forall v: nat :: v in c ==> v in list[k]
  {
    SimpleCycleOnCycle(g, c);
    assert Placed(list, c[0]);
    k :| 0 <= k < |list| && c[0] in list[k];
    forall v: nat | v in c
      ensures v in list[k]
    {
      var i :| 0 <= i < |c| && c[i] == v;
      CycleNodesMutual(g, c, 0, i);
      CycleNodesMutual(g, c, i, 0);
      assert Mutual(g, c[0], v);
    }
  }

  ghost predicate InsideOne(list: seq<seq<nat>>, u: nat, v: nat) {
    exists k :: 0 <= k < |list| && u in list[k] && v in list[k]
  }

  /** `h` is `g` without the edges inside a listed class. */
  ghost predicate WithoutInner(g: Graph, list: seq<seq<nat>>, h: Graph) {
    && |h| == |g|
    && forall u: nat, v: nat :: Edge(h, u, v) <==> Edge(g, u, v) && !InsideOne(list, u, v)
  }

  lemma ReachInLarger(g: Graph, h: Graph, u: nat, v: nat)
    requires |h| == |g| && forall x: nat, y: nat :: Edge(h, x, y) ==> Edge(g, x, y)
    requires Reach(h, u, v)
    ensures Reach(g, u, v)
  {
    var p :| WalkBetween(h, p, u, v);
    assert WalkBetween(g, p, u, v);
  }

  lemma CyclicEdgeInside(g: Graph, list: seq<seq<nat>>, v: nat, w: nat)
    requires CyclicClassList(g, list) && Edge(g, v, w) && Reach(g, w, v)
    ensures InsideOne(list, v, w)
  {
    ReachEdge(g, v, w);
    assert OnCycle(g, v) && Placed(list, v);
    var k :| 0 <= k < |list| && v in list[k];
    assert Mutual(g, v, w) && w in list[k];
  }

  /** Removing the edges inside the listed classes removes every cycle. */
  lemma WithoutInnerAcyclic(g: Graph, list: seq<seq<nat>>, h: Graph)
    requires CyclicClassList(g, list) && WithoutInner(g, list, h)
    ensures Acyclic(h)
  {
    forall v: nat
      ensures !OnCycle(h, v)
    {
      if OnCycle(h, v) {
        var w: nat :| Edge(h, v, w) && Reach(h, w, v);
        ReachInLarger(g, h, w, v);
        CyclicEdgeInside(g, list, v, w);
      }
    }
  }

  // The listing is determined by the graph

  lemma SameClass(g: Graph, a: seq<nat>, b: seq<nat>, v: nat)
    requires IsClass(g, a) && IsClass(g, b) && Increasing(a) && Increasing(b) && v in a && v in b
    ensures a == b
  {
    forall u: nat
      ensures u in a <==> u in b
    {
      assert u in a <==> Mutual(g, v, u);
      assert u in b <==> Mutual(g, v, u);
    }
    DistinctSameMembers(a, b);
    SortedUnique(a, b, AtMost);
  }

  lemma NotEarlier(g: Graph, list: seq<seq<nat>>, m: nat, i: nat)
    requires CyclicClassList(g, list) && m < i < |list|
    ensures list[i] != [] && list[i][0] !in list[m]
  {
    assert IsClass(g, list[i]) && list[i][0] in list[i];
    if list[i][0] in list[m] {
      SameClass(g, list[m], list[i], list[i][0]);
    }
  }

  lemma NextFirst(g: Graph, a: seq<seq<nat>>, b: seq<seq<nat>>, i: nat)
    requires CyclicClassList(g, a) && CyclicClassList(g, b)
    requires i < |a| && i <= |b| && a[..i] == b[..i]
    ensures i < |b| && a[i] != [] && b[i] != [] && b[i][0] <= a[i][0]
  {
    assert IsClass(g, a[i]);
    var x := a[i][0];
    assert x in a[i] && Placed(a, x) && Placed(b, x);
    forall m | 0 <= m < i
      ensures x !in b[m]
    {
      NotEarlier(g, a, m, i);
      assert b[m] == b[..i][m] == a[..i][m] == a[m];
    }
    var m :| 0 <= m < |b| && x in b[m];
    assert i <= m;
    var j :| 0 <= j < |b[m]| && b[m][j] == x;
    assert IsClass(g, b[i]) && IsClass(g, b[m]);
  }

  lemma {:induction false} ListPrefixUnique(g: Graph, a: seq<seq<nat>>, b: seq<seq<nat>>, k: nat)
    requires CyclicClassList(g, a) && CyclicClassList(g, b) && k <= |a|
    ensures k <= |b| && a[..k] == b[..k]
  {
    if k > 0 {
      var i := k - 1;
      ListPrefixUnique(g, a, b, i);
      NextFirst(g, a, b, i);
      NextFirst(g, b, a, i);
      assert a[i][0] in a[i] && b[i][0] in b[i];
      SameClass(g, a[i], b[i], a[i][0]);
      assert a[..k] == a[..i] + [a[i]] && b[..k] == b[..i] + [b[i]];
    }
  }

  lemma ListUnique(g: Graph, a: seq<seq<nat>>, b: seq<seq<nat>>)
    requires CyclicClassList(g, a) && CyclicClassList(g, b)
    ensures a == b
  {
    ListPrefixUnique(g, a, b, |a|);
    ListPrefixUnique(g, b, a, |b|);
    assert a[..|a|] == a && b[..|b|] == b;
  }
}
