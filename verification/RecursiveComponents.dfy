/** The reading-order tool's recursive component search, proved with the step
    lemmas of the explicit-stack loop. */
module RecursiveComponents {
  import opened Outcomes
  import opened Digraph
  import opened Numbers
  import SC = StrongComponents

  /** The frames of the callers once the edge to the callee counts as tried. */
  ghost function Outer(path: seq<SC.Frame>): seq<SC.Frame> {
    if path == [] then []
    else path[|path| - 1 := (path[|path| - 1].0, path[|path| - 1].1 + 1)]
  }

  lemma EnterCall(g: Graph, s: SC.State, onStack: seq<bool>, v: nat)
    requires SC.Run(g, s, onStack) && v < |g| && SC.Num(s.index, v) < 0 && (s.path != [] ==> SC.Trying(g, s, v))
    ensures |s.index| == |s.low| == |onStack| == |g| && s.next < |g|
    ensures SC.Run(g, SC.State(s.index[v := Some(s.next)], s.low[v := s.next], s.next + 1, s.stack + [v],
                               Outer(s.path) + [(v, 0)], s.components), onStack[v := true])
  {
    hide SC.Inv;
    SC.RunInRange(g, s, onStack);
    if s.path == [] {
      SC.EnterRuns(g, s, onStack, v);
    } else {
      SC.DiscoverRuns(g, s, onStack, v);
    }
  }

  lemma TryingEdge(g: Graph, s: SC.State, onStack: seq<bool>, v: nat, i: nat)
    requires SC.Run(g, s, onStack) && s.path != [] && s.path[|s.path| - 1] == (v, i) && v < |g| && i < |g[v]|
    ensures SC.Trying(g, s, g[v][i]) && g[v][i] < |g|
    ensures |s.index| == |s.low| == |onStack| == |g|
  {
    SC.RunInRange(g, s, onStack);
  }

  class Components {
    var index: seq<Option<nat>>
    var lowlink: seq<nat>
    var onStack: seq<bool>
    var stack: seq<nat>
    var counter: nat
    var sccs: seq<seq<nat>>

    constructor (n: nat)
      ensures index == seq(n, _ => None) && lowlink == seq(n, _ => 0) && onStack == seq(n, _ => false)
      ensures stack == [] && counter == 0 && sccs == []
    {
      index, lowlink, onStack := seq(n, _ => None), seq(n, _ => 0), seq(n, _ => false);
      stack, counter, sccs := [], 0, [];
    }

    /** The search state while the calls `path` are active. */
    ghost function Now(path: seq<SC.Frame>): SC.State
      reads this
    {
      SC.State(index, lowlink, counter, stack, path, sccs)
    }

    /** After a call for `v` the caller has only its own low link to lower. */
    ghost predicate Returned(g: Graph, v: nat, path: seq<SC.Frame>)
      reads this
    {
      && |index| == |lowlink| == |onStack| == |g|
      && if path == [] then SC.Run(g, Now([]), onStack)
         else
           var parent := path[|path| - 1].0;
           && v < |g| && parent < |g|
           && SC.Run(g, SC.Lower(Now(path), parent, lowlink[v]), onStack)
    }

    method StrongConnect(g: Graph, v: nat, ghost path: seq<SC.Frame>)
      requires SC.Run(g, Now(path), onStack) && v < |g| && SC.Num(index, v) < 0
      requires path != [] ==> SC.Trying(g, Now(path), v)
      modifies this
      ensures Returned(g, v, Outer(path))
      ensures |index| == |old(index)| && old(counter) < counter <= |g|
      ensures SC.Num(index, v) >= 0 && forall u: nat :: SC.Num(old(index), u) >= 0 ==> SC.Num(index, u) >= 0
      decreases |g| - counter, 1
    {
      hide SC.Run, SC.Inv;
      ghost var outer := Outer(path);
      ghost var number := counter;
      assert |index| == |lowlink| == |onStack| == |g| && counter <= |g| by {
        SC.RunInRange(g, Now(path), onStack);
      }
      EnterCall(g, Now(path), onStack, v);
      index := index[v := Some(counter)];
      lowlink := lowlink[v := counter];
      counter := counter + 1;
      stack := stack + [v];
      onStack := onStack[v := true];
      for i := 0 to |g[v]|
        invariant SC.Run(g, Now(outer + [(v, i)]), onStack)
        invariant |index| == |lowlink| == |onStack| == |g| && number < counter <= |g|
        invariant SC.Num(index, v) >= 0 && forall u: nat :: SC.Num(old(index), u) >= 0 ==> SC.Num(index, u) >= 0
      {
        TryDependency(g, v, i, outer);
      }
      Finish(g, v, outer);
    }

    /** Follow the `i`-th dependency of `v`. */
    method TryDependency(g: Graph, v: nat, i: nat, ghost outer: seq<SC.Frame>)
      requires v < |g| && i < |g[v]| && SC.Run(g, Now(outer + [(v, i)]), onStack)
      requires |index| == |lowlink| == |onStack| == |g| && counter <= |g| && SC.Num(index, v) >= 0
      modifies this
      ensures SC.Run(g, Now(outer + [(v, i + 1)]), onStack)
      ensures |index| == |lowlink| == |onStack| == |g| && old(counter) <= counter <= |g|
      ensures forall u: nat :: SC.Num(old(index), u) >= 0 ==> SC.Num(index, u) >= 0
      decreases |g| - counter, 2
    {
      hide SC.Run, SC.Inv, SC.Trying;
      ghost var frames, after := outer + [(v, i)], outer + [(v, i + 1)];
      assert frames[|outer| := (v, i + 1)] == after;
      var w := g[v][i];
      TryingEdge(g, Now(frames), onStack, v, i);
      if index[w].None? {
        StrongConnect(g, w, frames);
        lowlink := lowlink[v := Min(lowlink[v], lowlink[w])];
      } else if onStack[w] {
        SC.TouchRuns(g, Now(frames), onStack, w);
        lowlink := lowlink[v := Min(lowlink[v], index[w].value)];
      } else {
        SC.PassRuns(g, Now(frames), onStack, w);
      }
    }

    /** Pop the component of `v` when `v` is its own low link. */
    method Finish(g: Graph, v: nat, ghost outer: seq<SC.Frame>)
      requires v < |g| && SC.Run(g, Now(outer + [(v, |g[v]|)]), onStack) && |index| == |lowlink| == |onStack| == |g|
      requires SC.Num(index, v) >= 0
      modifies this
      ensures Returned(g, v, outer) && index == old(index) && counter == old(counter)
    {
      hide SC.Run, SC.Inv;
      ghost var s, flags := Now(outer + [(v, |g[v]|)]), onStack;
      assert s.path[|s.path| - 1] == (v, |g[v]|) && s.path[..|s.path| - 1] == outer;
      SC.RunInRange(g, s, onStack);
      if Some(lowlink[v]) == index[v] {
        var component: seq<nat> := [];
        SC.BeginPop(g, s, onStack);
        while stack != []
          invariant SC.Popped(s, stack, onStack, component) && v in stack
          invariant index == s.index && lowlink == s.low && counter == s.next && sccs == s.components
        {
          var w := stack[|stack| - 1];
          SC.PopOne(s, stack, onStack, component);
          stack := stack[..|stack| - 1];
          onStack := onStack[w := false];
          component := component + [w];
          if w == v {
            break;
          }
        }
        SC.CloseRuns(g, s, flags, stack, onStack, component);
        sccs := sccs + [component];
      } else {
        SC.LeaveRuns(g, s, onStack);
      }
    }
  }
}
