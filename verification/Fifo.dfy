/** The first-in first-out topological order, characterised without an
    algorithm, and the steps of Kahn's algorithm that build it. `g` lists the
    dependencies of every node and `h` its dependents, both in edge insertion
    order. */
module Fifo {
  import opened Digraph

  /** `h` lists the edges of `g` from the other end, each once. */
  ghost predicate Mirror(g: Graph, h: Graph) {
    && Wf(g) && Wf(h) && |h| == |g|
    && (forall u: nat :: u < |g| ==> Distinct(g[u]) && Distinct(h[u]))
    && (forall u: nat, v: nat :: u < |g| && v < |g| ==> (v in g[u] <==> u in h[v]))
  }

  /** `v` becomes free of pending dependencies at `at`: a node without
      dependencies before everything else, in node order; any other node when
      its last-emitted dependency `order[at.0]` is, in the order `at.1` of the
      edges recorded to that dependency. */
  ghost predicate ReleasedAt(g: Graph, h: Graph, order: seq<nat>, v: nat, at: (int, nat)) {
    && v < |g| && |h| == |g|
    && (if at.0 == -1 then
          g[v] == [] && at.1 == v
        else
          && 0 <= at.0 < |order|
          && order[at.0] < |g|
          && at.1 < |h[order[at.0]]|
          && h[order[at.0]][at.1] == v
          && forall x: nat :: x in g[v] ==> x in order[..at.0 + 1])
  }

  predicate Before(a: (int, nat), b: (int, nat)) {
    a.0 < b.0 || (a.0 == b.0 && a.1 < b.1)
  }

  /** Nodes are listed strictly in order of release. */
  ghost predicate FirstInFirstOut(g: Graph, h: Graph, order: seq<nat>) {
    forall i, j, a, b | 0 <= i < j < |order| ::
      ReleasedAt(g, h, order, order[i], a) && ReleasedAt(g, h, order, order[j], b) ==> Before(a, b)
  }

  ghost predicate FifoOrder(g: Graph, h: Graph, order: seq<nat>) {
    TopologicalOrder(g, order) && FirstInFirstOut(g, h, order)
  }

  lemma ReleaseUnique(g: Graph, h: Graph, order: seq<nat>, v: nat, a: (int, nat), b: (int, nat))
    requires Mirror(g, h) && Distinct(order)
    requires ReleasedAt(g, h, order, v, a) && ReleasedAt(g, h, order, v, b)
    ensures a == b
  {
    if a.0 != -1 {
      ReleaserIsDependency(g, h, order, v, a);
    }
    if b.0 != -1 {
      ReleaserIsDependency(g, h, order, v, b);
    }
    if a.0 != -1 && b.0 != -1 {
      assert order[a.0] in order[..b.0 + 1];
      assert order[b.0] in order[..a.0 + 1];
    }
  }

  lemma ReleaserIsDependency(g: Graph, h: Graph, order: seq<nat>, v: nat, a: (int, nat))
    requires Mirror(g, h) && ReleasedAt(g, h, order, v, a) && a.0 != -1
    ensures order[a.0] in g[v]
  {
    assert v in h[order[a.0]];
  }

  /** Every node of a dependencies-first order is released before its place. */
  lemma ReleaseExists(g: Graph, h: Graph, order: seq<nat>, i: nat) returns (at: (int, nat))
    requires Mirror(g, h) && DependenciesFirst(g, order) && i < |order| && order[i] < |g|
    ensures ReleasedAt(g, h, order, order[i], at) && at.0 < i
  {
    var v := order[i];
    if g[v] == [] {
      at := (-1, v);
    } else {
      assert forall x: nat :: x in g[v] ==> Edge(g, v, x) && x in order[..i];
      var k := LastOf(order, i, g[v]);
      var u := order[k];
      assert v in h[u];
      var s :| 0 <= s < |h[u]| && h[u][s] == v;
      at := (k as int, s);
    }
  }

  lemma {:induction false} LastOf(order: seq<nat>, i: nat, deps: seq<nat>) returns (k: nat)
    requires i <= |order| && deps != [] && forall x: nat :: x in deps ==> x in order[..i]
    ensures k < i && order[k] in deps
    ensures forall x: nat :: x in deps ==> x in order[..k + 1]
    decreases i
  {
    assert deps[0] in order[..i];
    if order[i - 1] in deps {
      k := i - 1;
    } else {
      assert order[..i] == order[..i - 1] + [order[i - 1]];
      k := LastOf(order, i - 1, deps);
    }
  }

  lemma ReleaseInPrefix(g: Graph, h: Graph, p: seq<nat>, q: seq<nat>, k: nat, v: nat, at: (int, nat))
    requires ReleasedAt(g, h, p, v, at) && at.0 < k && k <= |p| && k <= |q| && p[..k] == q[..k]
    ensures ReleasedAt(g, h, q, v, at)
  {
    if at.0 != -1 {
      assert p[at.0] == p[..k][at.0] == q[..k][at.0] == q[at.0];
      assert p[..at.0 + 1] == p[..k][..at.0 + 1] == q[..k][..at.0 + 1] == q[..at.0 + 1];
    }
  }

  /** The characterisation leaves no choice. */
  lemma {:induction false} FifoOrderUnique(g: Graph, h: Graph, p: seq<nat>, q: seq<nat>, k: nat)
    requires Mirror(g, h) && FifoOrder(g, h, p) && FifoOrder(g, h, q) && k <= |g|
    ensures p[..k] == q[..k]
  {
    if k > 0 {
      var i := k - 1;
      FifoOrderUnique(g, h, p, q, i);
      PermutationNode(|g|, p, i);
      PermutationNode(|g|, q, i);
      var a := ReleaseExists(g, h, p, i);
      var b := ReleaseExists(g, h, q, i);
      ReleaseInPrefix(g, h, p, q, i, p[i], a);
      ReleaseInPrefix(g, h, q, p, i, q[i], b);
      if p[i] != q[i] {
        FirstDifference(g, h, p, q, i, a, b);
        FirstDifference(g, h, q, p, i, b, a);
      }
      assert p[..k] == p[..i] + [p[i]] && q[..k] == q[..i] + [q[i]];
    }
  }

  lemma FirstDifference(g: Graph, h: Graph, p: seq<nat>, q: seq<nat>, i: nat, a: (int, nat), b: (int, nat))
    requires FifoOrder(g, h, p) && FifoOrder(g, h, q) && i < |g| && p[..i] == q[..i] && p[i] != q[i]
    requires ReleasedAt(g, h, p, p[i], a) && ReleasedAt(g, h, p, q[i], b)
    ensures Before(a, b)
  {
    var j := LaterPlace(|g|, q, p, i);
    assert ReleasedAt(g, h, p, p[j], b);
  }

  lemma LaterPlace(n: nat, q: seq<nat>, p: seq<nat>, i: nat) returns (j: nat)
    requires Permutation(n, p) && Permutation(n, q) && i < n && p[..i] == q[..i] && p[i] != q[i]
    ensures i < j < n && p[j] == q[i]
  {
    PermutationNode(n, q, i);
    assert q[i] in p;
    assert forall k :: 0 <= k < i ==> p[..i][k] == p[k] && q[..i][k] == q[k];
    j :| 0 <= j < n && p[j] == q[i];
  }

  // The steps of Kahn's algorithm

  /** The dependencies of `v` that `done` does not list. */
  ghost function Missing(g: Graph, v: nat, done: seq<nat>): set<nat>
    requires v < |g|
  {
    set x: nat | x in g[v] && x !in done
  }

  lemma MissingNone(g: Graph, v: nat)
    requires v < |g| && Distinct(g[v])
    ensures |Missing(g, v, [])| == |g[v]|
  {
    SeqCardinality(g[v]);
    assert Missing(g, v, []) == set x: nat | x in g[v];
  }

  /** `queued` is every node enqueued so far and `head` how many of them were
      taken off the queue; `at` records when each was released. */
  ghost predicate Queue(g: Graph, h: Graph, pending: seq<nat>, queued: seq<nat>, head: nat, at: seq<(int, nat)>) {
    && Mirror(g, h)
    && |pending| == |g|
    && Distinct(queued) && (forall v: nat :: v in queued ==> v < |g|)
    && head <= |queued| == |at|
    && (forall v: nat :: v < |g| ==> (v in queued <==> pending[v] == 0))
    && (forall i :: 0 <= i < |at| ==> at[i].0 < i && at[i].0 < head && ReleasedAt(g, h, queued, queued[i], at[i]))
    && (forall i, j :: 0 <= i < j < |at| ==> Before(at[i], at[j]))
  }

  /** Between two emissions, `pending` counts the missing dependencies. */
  ghost predicate Counted(g: Graph, pending: seq<nat>, done: seq<nat>) {
    |pending| == |g| && forall v: nat :: v < |g| ==> pending[v] == |Missing(g, v, done)|
  }

  /** While the dependents of `u` are being released, `pending` counts `u` as
      done for the first `j` of them only. */
  ghost predicate PartlyCounted(g: Graph, h: Graph, pending: seq<nat>, done: seq<nat>, u: nat, j: nat) {
    && |pending| == |g| && u < |h| && j <= |h[u]|
    && forall v: nat :: v < |g| ==>
         pending[v] == |Missing(g, v, if v in h[u][..j] then done + [u] else done)|
  }

  ghost predicate ReleasedEarlier(at: seq<(int, nat)>, next: (int, nat)) {
    forall i :: 0 <= i < |at| ==> Before(at[i], next)
  }

  lemma BeginRelease(g: Graph, h: Graph, pending: seq<nat>, done: seq<nat>, u: nat)
    requires Counted(g, pending, done) && u < |h|
    ensures PartlyCounted(g, h, pending, done, u, 0)
  {
  }

  lemma EndRelease(g: Graph, h: Graph, pending: seq<nat>, done: seq<nat>, u: nat)
    requires Mirror(g, h) && u < |g| && PartlyCounted(g, h, pending, done, u, |h[u]|)
    ensures Counted(g, pending, done + [u])
  {
    assert h[u][..|h[u]|] == h[u];
    forall v: nat | v < |g|
      ensures pending[v] == |Missing(g, v, done + [u])|
    {
      if v !in h[u] {
        assert Missing(g, v, done) == Missing(g, v, done + [u]);
      }
    }
  }

  /** The next dependent still counts `u`, so its counter is positive; taking
      `u` off is exact. */
  lemma CountDown(g: Graph, h: Graph, pending: seq<nat>, done: seq<nat>, u: nat, j: nat)
    requires Mirror(g, h) && u < |g| && u !in done && j < |h[u]|
    requires PartlyCounted(g, h, pending, done, u, j)
    ensures var v := h[u][j];
            && v < |g| && pending[v] > 0
            && PartlyCounted(g, h, pending[v := pending[v] - 1], done, u, j + 1)
    ensures var v := h[u][j];
            pending[v] == 1 ==> forall x: nat :: x in g[v] ==> x in done + [u]
  {
    var v := h[u][j];
    assert v in h[u] && u in g[v];
    assert v !in h[u][..j];
    var before, after := Missing(g, v, done), Missing(g, v, done + [u]);
    assert u in before && after == before - {u};
    assert |after| == |before| - 1;
    assert h[u][..j + 1] == h[u][..j] + [v];
    if pending[v] == 1 {
      forall x: nat | x in g[v]
        ensures x in done + [u]
      {
        assert after == {};
        assert x !in after;
      }
    }
  }

  /** The dependent at place `j` of the node taken off last is released there. */
  lemma ReleasedNow(g: Graph, h: Graph, queued: seq<nat>, head: nat, j: nat)
    requires |h| == |g| && 0 < head <= |queued| && queued[head - 1] < |g| && j < |h[queued[head - 1]]|
    requires var v := h[queued[head - 1]][j]; v < |g| && forall x: nat :: x in g[v] ==> x in queued[..head]
    ensures var v := h[queued[head - 1]][j]; ReleasedAt(g, h, queued + [v], v, (head - 1, j))
  {
    var v := h[queued[head - 1]][j];
    assert (queued + [v])[..head] == queued[..head];
  }

  /** Queueing a node leaves every earlier release in place. */
  lemma ReleasedStill(g: Graph, h: Graph, queued: seq<nat>, v: nat, at: seq<(int, nat)>)
    requires |at| == |queued|
    requires forall i :: 0 <= i < |at| ==> at[i].0 < i && ReleasedAt(g, h, queued, queued[i], at[i])
    ensures forall i :: 0 <= i < |at| ==> ReleasedAt(g, h, queued + [v], queued[i], at[i])
  {
    hide ReleasedAt;
    assert (queued + [v])[..|queued|] == queued[..|queued|];
    forall i | 0 <= i < |at|
      ensures ReleasedAt(g, h, queued + [v], queued[i], at[i])
    {
      ReleaseInPrefix(g, h, queued, queued + [v], |queued|, queued[i], at[i]);
    }
  }

  /** Queueing a node whose last dependency was just taken off. */
  lemma Release(g: Graph, h: Graph, pending: seq<nat>, queued: seq<nat>, head: nat, at: seq<(int, nat)>, j: nat)
    requires Queue(g, h, pending, queued, head, at) && 0 < head
    requires ReleasedEarlier(at, (head - 1, j))
    requires queued[head - 1] < |h| && j < |h[queued[head - 1]]|
    requires var v := h[queued[head - 1]][j]; v < |g| && pending[v] == 1
    requires forall x: nat :: x in g[h[queued[head - 1]][j]] ==> x in queued[..head]
    ensures var v := h[queued[head - 1]][j];
            && v !in queued
            && Queue(g, h, pending[v := 0], queued + [v], head, at + [(head - 1, j)])
            && ReleasedEarlier(at + [(head - 1, j)], (head - 1, j + 1))
  {
    hide Mirror, ReleasedAt;
    MirrorSizes(g, h);
    ReleasedNow(g, h, queued, head, j);
    ReleasedStill(g, h, queued, h[queued[head - 1]][j], at);
  }

  lemma MirrorSizes(g: Graph, h: Graph)
    requires Mirror(g, h)
    ensures |h| == |g|
  {
  }

  /** A counter that stays positive queues nothing. */
  lemma Postpone(g: Graph, h: Graph, pending: seq<nat>, queued: seq<nat>, head: nat, at: seq<(int, nat)>, v: nat)
    requires Queue(g, h, pending, queued, head, at) && v < |g| && pending[v] > 1
    ensures Queue(g, h, pending[v := pending[v] - 1], queued, head, at)
  {
  }

  lemma QueueFifo(g: Graph, h: Graph, queued: seq<nat>, at: seq<(int, nat)>)
    requires Mirror(g, h) && Distinct(queued) && |at| == |queued|
    requires forall i :: 0 <= i < |at| ==> ReleasedAt(g, h, queued, queued[i], at[i])
    requires forall i, j :: 0 <= i < j < |at| ==> Before(at[i], at[j])
    ensures FirstInFirstOut(g, h, queued)
  {
    hide Mirror, ReleasedAt, Before, Distinct;
    forall i, j, a, b |
      && 0 <= i < j < |queued|
      && ReleasedAt(g, h, queued, queued[i], a)
      && ReleasedAt(g, h, queued, queued[j], b)
      ensures Before(a, b)
    {
      ReleaseUnique(g, h, queued, queued[i], a, at[i]);
      ReleaseUnique(g, h, queued, queued[j], b, at[j]);
    }
  }

  lemma QueueOrdered(g: Graph, h: Graph, pending: seq<nat>, queued: seq<nat>, at: seq<(int, nat)>)
    requires Queue(g, h, pending, queued, |queued|, at)
    ensures DependenciesFirst(g, queued) && FirstInFirstOut(g, h, queued)
  {
    hide Mirror, FirstInFirstOut, Before;
    QueueFifo(g, h, queued, at);
    forall j, v: nat | 0 <= j < |queued| && Edge(g, queued[j], v)
      ensures v in queued[..j]
    {
      assert ReleasedAt(g, h, queued, queued[j], at[j]);
      assert v in queued[..at[j].0 + 1];
      var i :| 0 <= i < at[j].0 + 1 && queued[i] == v;
      assert queued[..j][i] == v;
    }
  }

  /** When the queue runs empty on an acyclic graph, every node was queued. */
  lemma {:induction false} AllQueued(g: Graph, h: Graph, pending: seq<nat>, queued: seq<nat>, at: seq<(int, nat)>,
                                     order: seq<nat>, k: nat)
    requires Queue(g, h, pending, queued, |queued|, at) && Counted(g, pending, queued)
    requires TopologicalOrder(g, order) && k <= |order|
    ensures forall i :: 0 <= i < k ==> order[i] in queued
  {
    if k > 0 {
      AllQueued(g, h, pending, queued, at, order, k - 1);
      var v := order[k - 1];
      assert v in order;
      forall x: nat | x in g[v]
        ensures x in queued
      {
        assert Edge(g, v, x) && x in order[..k - 1];
      }
      assert Missing(g, v, queued) == {};
    }
  }

  lemma EmptiedQueue(g: Graph, h: Graph, pending: seq<nat>, queued: seq<nat>, at: seq<(int, nat)>, order: seq<nat>)
    requires Queue(g, h, pending, queued, |queued|, at) && Counted(g, pending, queued)
    requires TopologicalOrder(g, order)
    ensures FifoOrder(g, h, queued)
  {
    QueueOrdered(g, h, pending, queued, at);
    AllQueued(g, h, pending, queued, at, order, |order|);
    forall v: nat | v < |g|
      ensures v in queued
    {
      assert v in order;
    }
    AllListed(queued, |g|);
  }

  // The loop

  /** Nodes without dependencies below `node` are queued in node order. */
  ghost predicate Enqueuing(g: Graph, h: Graph, pending: seq<nat>, ready: seq<nat>, node: nat) {
    && Mirror(g, h) && |pending| == |g|
    && (forall v: nat :: v < |g| ==> pending[v] == |g[v]|)
    && (forall v: nat :: v in ready <==> v < node && v < |g| && g[v] == [])
    && (forall i, j :: 0 <= i < j < |ready| ==> ready[i] < ready[j])
  }

  lemma EnqueueFree(g: Graph, h: Graph, pending: seq<nat>, ready: seq<nat>, node: nat)
    requires Enqueuing(g, h, pending, ready, node) && node < |g|
    ensures Enqueuing(g, h, pending, if pending[node] == 0 then ready + [node] else ready, node + 1)
  {
    assert forall i :: 0 <= i < |ready| ==> ready[i] in ready;
  }

  ghost predicate Ranked(ranks: seq<nat>, prefix: seq<nat>) {
    forall i :: 0 <= i < |prefix| ==> prefix[i] < |ranks| && ranks[prefix[i]] == i
  }

  /** The loop state between two emissions. */
  ghost predicate Emitting(g: Graph, h: Graph, pending: seq<nat>, queued: seq<nat>, head: nat, at: seq<(int, nat)>,
                           ranks: seq<nat>) {
    && Queue(g, h, pending, queued, head, at)
    && Counted(g, pending, queued[..head])
    && |ranks| == |g| && Ranked(ranks, queued[..head])
  }

  /** The loop state while the last node taken off releases its dependents. */
  ghost predicate Releasing(g: Graph, h: Graph, pending: seq<nat>, queued: seq<nat>, head: nat, at: seq<(int, nat)>,
                            j: nat) {
    && 0 < head && Queue(g, h, pending, queued, head, at)
    && PartlyCounted(g, h, pending, queued[..head - 1], queued[head - 1], j)
    && ReleasedEarlier(at, (head - 1, j))
  }

  lemma BeginQueue(g: Graph, h: Graph, pending: seq<nat>, ready: seq<nat>, ranks: seq<nat>)
    returns (at: seq<(int, nat)>)
    requires Enqueuing(g, h, pending, ready, |g|) && |ranks| == |g|
    ensures Emitting(g, h, pending, ready, 0, at, ranks)
  {
    at := seq(|ready|, i requires 0 <= i < |ready| => (-1, ready[i]));
    forall v: nat | v < |g|
      ensures pending[v] == |Missing(g, v, [])|
    {
      MissingNone(g, v);
    }
    assert ready[..0] == [];
    forall i | 0 <= i < |at|
      ensures ReleasedAt(g, h, ready, ready[i], at[i])
    {
      assert ready[i] in ready;
    }
  }

  lemma TakeOff(g: Graph, h: Graph, pending: seq<nat>, queued: seq<nat>, head: nat, at: seq<(int, nat)>,
                ranks: seq<nat>)
    requires Emitting(g, h, pending, queued, head, at, ranks) && head < |queued|
    ensures queued[head] < |g| && head < |g|
    ensures Releasing(g, h, pending, queued, head + 1, at, 0)
    ensures Ranked(ranks[queued[head] := head], queued[..head + 1])
  {
    hide ReleasedAt, Counted, PartlyCounted;
    assert queued[head] in queued;
    DistinctBound(queued, |g|);
    BeginRelease(g, h, pending, queued[..head], queued[head]);
    hide Mirror;
  }

  /** One dependent: its counter goes down without saturating, and it is
      queued exactly when the counter reaches zero. */
  lemma ReleaseNext(g: Graph, h: Graph, pending: seq<nat>, queued: seq<nat>, head: nat, at: seq<(int, nat)>, j: nat)
    returns (queued': seq<nat>, at': seq<(int, nat)>)
    requires Releasing(g, h, pending, queued, head, at, j)
    requires queued[head - 1] < |h| && j < |h[queued[head - 1]]|
    ensures var v := h[queued[head - 1]][j];
            && v < |pending| && pending[v] > 0
            && queued' == (if pending[v] == 1 then queued + [v] else queued)
            && Releasing(g, h, pending[v := pending[v] - 1], queued', head, at', j + 1)
  {
    hide ReleasedAt, PartlyCounted;
    var u := queued[head - 1];
    var v := h[u][j];
    assert queued[head - 1] in queued;
    assert queued[..head] == queued[..head - 1] + [u];
    CountDown(g, h, pending, queued[..head - 1], u, j);
    if pending[v] == 1 {
      Release(g, h, pending, queued, head, at, j);
      queued', at' := queued + [v], at + [(head - 1, j)];
      assert queued'[..head - 1] == queued[..head - 1];
    } else {
      Postpone(g, h, pending, queued, head, at, v);
      queued', at' := queued, at;
    }
  }

  lemma EndEmission(g: Graph, h: Graph, pending: seq<nat>, queued: seq<nat>, head: nat, at: seq<(int, nat)>,
                    ranks: seq<nat>)
    requires 0 < head && head <= |queued| && queued[head - 1] < |h|
    requires Releasing(g, h, pending, queued, head, at, |h[queued[head - 1]]|)
    requires |ranks| == |g| && Ranked(ranks, queued[..head])
    ensures Emitting(g, h, pending, queued, head, at, ranks)
  {
    hide Mirror, ReleasedAt, Before, Distinct, Counted, PartlyCounted, Ranked, ReleasedEarlier;
    assert queued[..head] == queued[..head - 1] + [queued[head - 1]];
    MirrorSizes(g, h);
    EndRelease(g, h, pending, queued[..head - 1], queued[head - 1]);
  }

  ghost predicate RanksFifo(g: Graph, h: Graph, ranks: seq<nat>) {
    exists order :: FifoOrder(g, h, order) && |ranks| == |order| && Ranked(ranks, order)
  }

  lemma EndQueue(g: Graph, h: Graph, pending: seq<nat>, queued: seq<nat>, at: seq<(int, nat)>, ranks: seq<nat>,
                 order: seq<nat>)
    requires Emitting(g, h, pending, queued, |queued|, at, ranks) && TopologicalOrder(g, order)
    ensures RanksFifo(g, h, ranks)
  {
    assert queued[..|queued|] == queued;
    EmptiedQueue(g, h, pending, queued, at, order);
  }
}
