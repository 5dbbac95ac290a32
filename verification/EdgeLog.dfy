/** The edges of a graph in the order in which they were recorded. Both
    adjacency lists of `DependencyGraph` are projections of this log. */
module EdgeLog {
  import opened Digraph
  import opened DepthFirst
  import opened Fifo

  /** An edge from `dependent` to `dependency`, labelled `tag`. */
  datatype Record<E> = Record(dependent: nat, dependency: nat, tag: E)

  type Log<E> = seq<Record<E>>

  ghost predicate Joins<E>(log: Log<E>, u: nat, v: nat) {
    exists i :: 0 <= i < |log| && log[i].dependent == u && log[i].dependency == v
  }

  /** Between existing nodes, each pair at most once. */
  ghost predicate WfLog<E>(log: Log<E>, n: nat) {
    && (forall i :: 0 <= i < |log| ==> log[i].dependent < n && log[i].dependency < n)
    && (forall i, j :: 0 <= i < j < |log| ==>
          log[i].dependent != log[j].dependent || log[i].dependency != log[j].dependency)
  }

  function DependenciesIn<E>(log: Log<E>, u: nat): seq<(nat, E)> {
    if log == [] then []
    else
      var last := log[|log| - 1];
      DependenciesIn(log[..|log| - 1], u) + if last.dependent == u then [(last.dependency, last.tag)] else []
  }

  function DependentsIn<E>(log: Log<E>, v: nat): seq<nat> {
    if log == [] then []
    else
      var last := log[|log| - 1];
      DependentsIn(log[..|log| - 1], v) + if last.dependency == v then [last.dependent] else []
  }

  function AdjacencyOf<E>(log: Log<E>, n: nat): (d: Adjacency<E>)
    ensures |d| == n && forall u :: 0 <= u < n ==> d[u] == DependenciesIn(log, u)
  {
    seq(n, u requires 0 <= u < n => DependenciesIn(log, u))
  }

  function ReverseOf<E>(log: Log<E>, n: nat): (h: Graph)
    ensures |h| == n && forall v :: 0 <= v < n ==> h[v] == DependentsIn(log, v)
  {
    seq(n, v requires 0 <= v < n => DependentsIn(log, v))
  }

  lemma {:induction false} DependencyRecorded<E>(log: Log<E>, u: nat, v: nat, tag: E)
    ensures (v, tag) in DependenciesIn(log, u) <==> Record(u, v, tag) in log
  {
    if log != [] {
      DependencyRecorded(log[..|log| - 1], u, v, tag);
      assert log == log[..|log| - 1] + [log[|log| - 1]];
    }
  }

  lemma {:induction false} DependentRecorded<E>(log: Log<E>, u: nat, v: nat)
    ensures u in DependentsIn(log, v) <==> Joins(log, u, v)
  {
    if log != [] {
      var k := |log| - 1;
      DependentRecorded(log[..k], u, v);
      if Joins(log[..k], u, v) {
        var i :| 0 <= i < k && log[..k][i].dependent == u && log[..k][i].dependency == v;
        assert log[i].dependent == u && log[i].dependency == v;
      }
      if Joins(log, u, v) {
        var i :| 0 <= i < |log| && log[i].dependent == u && log[i].dependency == v;
        if i < k {
          assert log[..k][i] == log[i];
        }
      }
    }
  }

  lemma TargetRecorded<E>(log: Log<E>, u: nat, v: nat)
    ensures v in Firsts(DependenciesIn(log, u)) <==> Joins(log, u, v)
  {
    var edges := DependenciesIn(log, u);
    if v in Firsts(edges) {
      var i :| 0 <= i < |edges| && Firsts(edges)[i] == v;
      DependencyRecorded(log, u, v, edges[i].1);
      assert edges[i] == (v, edges[i].1);
      var j :| 0 <= j < |log| && log[j] == Record(u, v, edges[i].1);
    }
    if Joins(log, u, v) {
      var i :| 0 <= i < |log| && log[i].dependent == u && log[i].dependency == v;
      DependencyRecorded(log, u, v, log[i].tag);
      assert log[i] == Record(u, v, log[i].tag);
      var j :| 0 <= j < |edges| && edges[j] == (v, log[i].tag);
      assert Firsts(edges)[j] == v;
    }
  }

  lemma LastNotJoined<E>(log: Log<E>, n: nat)
    requires WfLog(log, n) && log != []
    ensures var k := |log| - 1;
            WfLog(log[..k], n) && !Joins(log[..k], log[k].dependent, log[k].dependency)
  {
  }

  lemma {:induction false} TargetsDistinct<E>(log: Log<E>, n: nat, u: nat)
    requires WfLog(log, n)
    ensures Distinct(Firsts(DependenciesIn(log, u)))
  {
    hide WfLog, Joins;
    if log != [] {
      var k := |log| - 1;
      var rest := log[..k];
      LastNotJoined(log, n);
      TargetsDistinct(rest, n, u);
      TargetRecorded(rest, u, log[k].dependency);
      if log[k].dependent == u {
        assert Firsts(DependenciesIn(log, u)) == Firsts(DependenciesIn(rest, u)) + [log[k].dependency];
      }
    }
  }

  lemma {:induction false} DependentsDistinct<E>(log: Log<E>, n: nat, v: nat)
    requires WfLog(log, n)
    ensures Distinct(DependentsIn(log, v))
  {
    hide WfLog, Joins;
    if log != [] {
      var k := |log| - 1;
      LastNotJoined(log, n);
      DependentsDistinct(log[..k], n, v);
      DependentRecorded(log[..k], log[k].dependent, v);
    }
  }

  /** The two projections describe one graph, whose edges are those recorded. */
  lemma ProjectionsAgree<E>(log: Log<E>, n: nat)
    requires WfLog(log, n)
    ensures WfAdjacency(AdjacencyOf(log, n))
    ensures Mirror(Targets(AdjacencyOf(log, n)), ReverseOf(log, n))
    ensures forall u: nat, v: nat :: Edge(Targets(AdjacencyOf(log, n)), u, v) <==> Joins(log, u, v)
  {
    var d: Adjacency<E> := AdjacencyOf(log, n);
    var g, h := Targets(d), ReverseOf(log, n);
    forall u, i | 0 <= u < n && 0 <= i < |d[u]|
      ensures d[u][i].0 < n
    {
      assert Firsts(d[u])[i] == d[u][i].0;
      TargetRecorded(log, u, d[u][i].0);
    }
    forall u: nat | u < n
      ensures Distinct(g[u]) && Distinct(h[u])
    {
      TargetsDistinct(log, n, u);
      DependentsDistinct(log, n, u);
    }
    forall u: nat, v: nat
      ensures u < n ==> (v in g[u] <==> Joins(log, u, v))
      ensures v < n ==> (u in h[v] <==> Joins(log, u, v))
      ensures Joins(log, u, v) ==> u < n && v < n
    {
      TargetRecorded(log, u, v);
      DependentRecorded(log, u, v);
    }
    forall u: nat, v: nat | v < n && u in h[v]
      ensures u < n
    {
      assert Joins(log, u, v);
    }
  }

  /** The label kept for an edge is the one of its only record. */
  lemma LabelRecorded<E>(log: Log<E>, n: nat, u: nat, v: nat, tag: E)
    requires u < n
    ensures (v, tag) in AdjacencyOf(log, n)[u] <==> Record(u, v, tag) in log
  {
    DependencyRecorded(log, u, v, tag);
  }
}
