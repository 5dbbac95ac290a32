/** Building a validated signature, with the binding state it updates. */
module SignatureBuilding {
  import opened Outcomes
  import opened Digraph
  import opened Monomials
  import opened Signatures
  import opened SignatureEquivalence
  import opened SignatureValidation

  // Marks on binder positions

  ghost predicate BoundMarks(bound: seq<bool>, params: seq<Param>) {
    forall v: nat :: v < |bound| ==> (bound[v] <==> BoundBy(params, v))
  }

  ghost predicate AxisMarks(used: seq<bool>, params: seq<Param>) {
    forall x: nat :: x < |used| ==> (used[x] <==> AxisOf(params, x))
  }

  lemma BoundByLast(params: seq<Param>, param: Param, v: nat)
    ensures BoundBy(params + [param], v) <==> BoundBy(params, v) || Binds(param.kind, v)
  {
    var after := params + [param];
    if BoundBy(params, v) {
      var j :| 0 <= j < |params| && Binds(params[j].kind, v);
      assert after[j] == params[j];
    }
    if Binds(param.kind, v) {
      assert after[|params|] == param;
    }
  }

  lemma AxisOfLast(params: seq<Param>, param: Param, x: nat)
    ensures AxisOf(params + [param], x) <==> AxisOf(params, x) || x in Axes(param.kind)
  {
    var after := params + [param];
    if AxisOf(params, x) {
      var j :| 0 <= j < |params| && x in Axes(params[j].kind);
      assert after[j] == params[j];
    }
    if x in Axes(param.kind) {
      assert after[|params|] == param;
    }
  }

  lemma BoundMarksLast(before: seq<bool>, after: seq<bool>, params: seq<Param>, param: Param)
    requires BoundMarks(before, params) && |after| == |before|
    requires forall v: nat :: v < |after| ==> (after[v] <==> before[v] || Binds(param.kind, v))
    ensures BoundMarks(after, params + [param])
  {
    hide BoundBy, Binds;
    forall v: nat
      ensures BoundBy(params + [param], v) <==> BoundBy(params, v) || Binds(param.kind, v)
    {
      BoundByLast(params, param, v);
    }
  }

  lemma AxisMarksLast(before: seq<bool>, after: seq<bool>, params: seq<Param>, param: Param)
    requires AxisMarks(before, params) && |after| == |before|
    requires forall x: nat :: x < |after| ==> (after[x] <==> before[x] || x in Axes(param.kind))
    ensures AxisMarks(after, params + [param])
  {
    hide AxisOf, Axes;
    forall x: nat
      ensures AxisOf(params + [param], x) <==> AxisOf(params, x) || x in Axes(param.kind)
    {
      AxisOfLast(params, param, x);
    }
  }

  method MarkAll(marks: array<bool>, xs: seq<nat>)
    requires forall x :: x in xs ==> x < marks.Length
    modifies marks
    ensures forall x: nat :: x < marks.Length ==> (marks[x] <==> old(marks[x]) || x in xs)
  {
    for i := 0 to |xs|
      invariant forall x: nat :: x < marks.Length ==> (marks[x] <==> old(marks[x]) || x in xs[..i])
    {
      assert xs[i] in xs && xs[..i + 1] == xs[..i] + [xs[i]];
      marks[xs[i]] := true;
    }
    assert xs[..|xs|] == xs;
  }

  ghost predicate Marked(marks: seq<bool>, x: nat) {
    x < |marks| && marks[x]
  }

  ghost predicate AllMarked(marks: seq<bool>, xs: seq<nat>) {
    forall i :: 0 <= i < |xs| ==> Marked(marks, xs[i])
  }

  ghost predicate FirstWithoutMark(marks: seq<bool>, xs: seq<nat>, x: nat) {
    exists i :: 0 <= i < |xs| && xs[i] == x && !Marked(marks, x) && forall j :: 0 <= j < i ==> Marked(marks, xs[j])
  }

  /** The first of `xs` without a mark. */
  method FirstUnmarked(marks: array<bool>, xs: seq<nat>) returns (r: Option<nat>)
    ensures r.None? ==> AllMarked(marks[..], xs)
    ensures r.Some? ==> FirstWithoutMark(marks[..], xs, r.value)
  {
    for i := 0 to |xs|
      invariant forall j :: 0 <= j < i ==> Marked(marks[..], xs[j])
    {
      if !(xs[i] < marks.Length && marks[xs[i]]) {
        return Some(xs[i]);
      }
    }
    r := None;
  }

  /** The first unmarked position. */
  method FirstFalse(marks: array<bool>) returns (r: nat)
    ensures r <= marks.Length && (forall j :: 0 <= j < r ==> marks[j]) && (r < marks.Length ==> !marks[r])
  {
    r := 0;
    while r < marks.Length && marks[r]
      invariant r <= marks.Length && forall j :: 0 <= j < r ==> marks[j]
    {
      r := r + 1;
    }
  }

  /** `k` is the first variable of a resolved kind that `params` leave unbound. */
  ghost predicate FirstUnboundAt(params: seq<Param>, kind: ParamKind, k: nat) {
    && k in Vars(kind) && !BoundBy(params, k)
    && forall j: nat :: j in Vars(kind) && j < k ==> BoundBy(params, j)
  }

  lemma BareVars(kind: ParamKind, v: nat, n: nat)
    requires Binds(kind, v) && WfScalar(Element(kind), n)
    ensures v < n && Vars(kind) == {v} && forall u: nat :: Binds(kind, u) <==> u == v
  {
  }

  lemma NotBare(kind: ParamKind)
    requires Element(kind).Quantity? ==> AsBareVar(Element(kind).monomial).None?
    ensures forall u: nat :: !Binds(kind, u)
  {
  }

  lemma FirstUnmarkedUnbound(marks: seq<bool>, params: seq<Param>, kind: ParamKind, k: nat)
    requires WfScalar(Element(kind), |marks|) && BoundMarks(marks, params)
    requires FirstWithoutMark(marks, InOrder(Vars(kind)), k)
    ensures k < |marks| && FirstUnboundAt(params, kind, k)
  {
    hide BoundBy, Vars, WfScalar, BoundMarks;
    var keys := InOrder(Vars(kind));
    var i :| 0 <= i < |keys| && keys[i] == k && !Marked(marks, k) && forall j :: 0 <= j < i ==> Marked(marks, keys[j]);
    assert keys[i] in keys;
    VarMarked(marks, params, kind, k);
    forall j: nat | j in Vars(kind) && j < k
      ensures BoundBy(params, j)
    {
      assert j in keys;
      var l :| 0 <= l < |keys| && keys[l] == j;
      assert l < i;
      VarMarked(marks, params, kind, j);
    }
  }

  lemma VarMarked(marks: seq<bool>, params: seq<Param>, kind: ParamKind, v: nat)
    requires WfScalar(Element(kind), |marks|) && BoundMarks(marks, params) && v in Vars(kind)
    ensures v < |marks| && (Marked(marks, v) <==> BoundBy(params, v))
  {
    hide BoundBy;
  }

  lemma AllMarkedBound(marks: seq<bool>, params: seq<Param>, kind: ParamKind)
    requires WfScalar(Element(kind), |marks|) && BoundMarks(marks, params)
    requires AllMarked(marks, InOrder(Vars(kind)))
    ensures forall v: nat :: v in Vars(kind) ==> BoundBy(params, v)
  {
    hide BoundBy;
    var keys := InOrder(Vars(kind));
    forall v: nat | v in Vars(kind)
      ensures BoundBy(params, v)
    {
      assert v in keys;
      var i :| 0 <= i < |keys| && keys[i] == v;
    }
  }

  /** Which binders have a binding occurrence so far. */
  class BindingState {
    const bound: array<bool>
    const usedIndexes: array<bool>

    constructor (dims: nat, indexes: nat)
      ensures bound.Length == dims && usedIndexes.Length == indexes && bound != usedIndexes
      ensures fresh(bound) && fresh(usedIndexes) && Describes([])
    {
      bound := new bool[dims](_ => false);
      usedIndexes := new bool[indexes](_ => false);
    }

    ghost predicate Describes(params: seq<Param>)
      reads bound, usedIndexes
    {
      BoundMarks(bound[..], params) && AxisMarks(usedIndexes[..], params)
    }

    /** Resolve one parameter and record what it binds. */
    method AddParam(dims: seq<nat>, indexes: seq<nat>, param: Param, ghost before: seq<Param>)
      returns (r: Result<Param, SignatureError>)
      requires bound.Length == |dims| && usedIndexes.Length == |indexes| && bound != usedIndexes
      requires WfWritten(param.kind) && Describes(before)
      modifies bound, usedIndexes
      ensures var kind := ResolveKind(dims, indexes, param.kind);
              match r
              case Ok(p) => kind == Ok(p.kind) && p.name == param.name && EarlierBound(before, p.kind)
                            && Describes(before + [p])
              case Err(error) =>
                || kind == Err(error)
                || (kind.Ok? && error.UseBeforeBinding? && error.param == param.name
                    && exists k: nat :: k < |dims| && error.name == dims[k] && !Binds(kind.value, k)
                                        && FirstUnboundAt(before, kind.value, k))
    {
      hide BoundMarks, AxisMarks, ResolveMonomial, BoundBy, AxisOf, EarlierBound;
      ghost var unused := usedIndexes[..];
      ResolveKindCorrect(dims, indexes, param.kind);
      var axes: seq<nat> := [];
      if param.kind.Indexed? {
        match ResolveAxes(indexes, param.kind.axes) {
          case Err(error) => return Err(error);
          case Ok(resolved) =>
            ResolveAxesCorrect(indexes, param.kind.axes);
            axes := resolved;
            MarkAll(usedIndexes, axes);
        }
      }
      var element := ResolveScalar(dims, Element(param.kind));
      if element.Err? {
        return Err(element.error);
      }
      var kind := if param.kind.Indexed? then Indexed(element.value, axes) else Scalar(element.value);
      assert ResolveKind(dims, indexes, param.kind) == Ok(kind);
      r := BindVars(bound, dims, Param(param.name, kind), before);
      if r.Ok? {
        AxisMarksLast(unused, usedIndexes[..], before, r.value);
      }
    }
  }

  /** Record the variable that a resolved parameter binds, or check that the
      variables of its compound monomial are bound. */
  method BindVars(bound: array<bool>, dims: seq<nat>, param: Param, ghost before: seq<Param>)
    returns (r: Result<Param, SignatureError>)
    requires bound.Length == |dims| && BoundMarks(bound[..], before)
    requires WfScalar(Element(param.kind), |dims|)
    modifies bound
    ensures match r
            case Ok(p) => p == param && EarlierBound(before, p.kind) && BoundMarks(bound[..], before + [p])
            case Err(error) =>
              && error.UseBeforeBinding? && error.param == param.name
              && exists k: nat :: k < |dims| && error.name == dims[k] && !Binds(param.kind, k)
                                  && FirstUnboundAt(before, param.kind, k)
  {
    hide BoundMarks, BoundBy, WfScalar, AsBareVar;
    ghost var unbound := bound[..];
    if Element(param.kind).Quantity? {
      var monomial := Element(param.kind).monomial;
      match AsBareVar(monomial) {
        case Some(v) =>
          BareVars(param.kind, v, |dims|);
          bound[v] := true;
          assert bound[..] == unbound[v := true];
        case None =>
          NotBare(param.kind);
          var keys := InOrder(monomial.vars.Keys);
          var k := FirstUnmarked(bound, keys);
          if k.Some? {
            FirstUnmarkedUnbound(bound[..], before, param.kind, k.value);
            return Err(UseBeforeBinding(dims[k.value], param.name));
          }
          AllMarkedBound(bound[..], before, param.kind);
      }
    } else {
      NotBare(param.kind);
    }
    BoundMarksLast(unbound, bound[..], before, param);
    r := Ok(param);
  }

  // From resolved positions back to written names

  ghost predicate Progress(d: Signature, i: nat, resolved: seq<Param>)
    requires i <= |d.params|
  {
    ParamsFine(d, i) && ResolvesAll(resolved, d.params[..i], d.dims, d.indexes)
  }

  lemma BoundFine(d: Signature, i: nat, resolved: seq<Param>, kind: ParamKind, written: ParamKind)
    requires i <= |d.params| && Progress(d, i, resolved) && Resolves(kind, written, d.dims, d.indexes)
    requires forall v :: v in Vars(written) ==> v in d.dims
    requires forall k: nat :: k in Vars(kind) ==> Binds(kind, k) || BoundBy(resolved, k)
    ensures EarlierBound(d.params[..i], written)
  {
    hide ParamFine, ResolvesAll, Resolves, Vars, Binds, BoundBy;
    forall v: nat | v in Vars(written)
      ensures Binds(written, v) || BoundBy(d.params[..i], v)
    {
      var k :| 0 <= k < |d.dims| && d.dims[k] == v;
      ResolvedVars(kind, written, d.dims, d.indexes, k);
      ResolvedBinds(kind, written, d.dims, d.indexes, k);
      ResolvedBoundBy(resolved, d.params[..i], d.dims, d.indexes, k);
    }
  }

  lemma UnboundWritten(d: Signature, i: nat, resolved: seq<Param>, kind: ParamKind, written: ParamKind, k: nat)
    requires i <= |d.params| && Progress(d, i, resolved) && Resolves(kind, written, d.dims, d.indexes)
    requires k < |d.dims| && FirstUnboundAt(resolved, kind, k)
    ensures FirstUnbound(written, d.dims, d.params[..i], d.dims[k])
    ensures Binds(written, d.dims[k]) <==> Binds(kind, k)
  {
    hide ParamFine, ResolvesAll, Resolves, Vars, Binds, BoundBy;
    ResolvedVars(kind, written, d.dims, d.indexes, k);
    ResolvedBinds(kind, written, d.dims, d.indexes, k);
    ResolvedBoundBy(resolved, d.params[..i], d.dims, d.indexes, k);
    forall j: nat | j < k && d.dims[j] in Vars(written)
      ensures BoundBy(d.params[..i], d.dims[j])
    {
      ResolvedVars(kind, written, d.dims, d.indexes, j);
      ResolvedBoundBy(resolved, d.params[..i], d.dims, d.indexes, j);
    }
  }

  lemma ProgressStep(d: Signature, i: nat, resolved: seq<Param>, p: Param)
    requires i < |d.params| && Progress(d, i, resolved) && p.name == d.params[i].name
    requires Resolves(p.kind, d.params[i].kind, d.dims, d.indexes) && Declared(d.params[i].kind, d.dims, d.indexes)
    requires EarlierBound(resolved, p.kind)
    ensures Progress(d, i + 1, resolved + [p])
  {
    hide Resolves, Vars, Binds, BoundBy;
    BoundFine(d, i, resolved, p.kind, d.params[i].kind);
    assert d.params[..i + 1] == d.params[..i] + [d.params[i]];
  }

  // Duplicates

  method FirstDuplicate(xs: seq<nat>) returns (r: Option<nat>)
    ensures r.None? ==> Distinct(xs)
    ensures r.Some? ==> FirstRepeat(xs, r.value)
  {
    var declared: set<nat> := {};
    for i := 0 to |xs|
      invariant forall x: nat :: x in declared <==> x in xs[..i]
      invariant Distinct(xs[..i])
    {
      if xs[i] in declared {
        return Some(xs[i]);
      }
      declared := declared + {xs[i]};
      assert xs[..i + 1] == xs[..i] + [xs[i]];
    }
    assert xs[..|xs|] == xs;
    r := None;
  }

  method DuplicateParam(params: seq<Param>) returns (r: Option<SignatureError>)
    ensures r.None? ==> NamesDistinct(params)
    ensures r.Some? ==>
      && r.value.DuplicateParamName? && r.value.first < r.value.duplicate < |params|
      && NamesDistinct(params[..r.value.duplicate])
      && params[r.value.first].name == r.value.name == params[r.value.duplicate].name
  {
    var declared: map<nat, nat> := map[];
    for i := 0 to |params|
      invariant forall x: nat :: x in declared ==> declared[x] < i && params[declared[x]].name == x
      invariant forall j :: 0 <= j < i ==> params[j].name in declared
      invariant NamesDistinct(params[..i])
    {
      if params[i].name in declared {
        return Some(DuplicateParamName(params[i].name, declared[params[i].name], i));
      }
      declared := declared[params[i].name := i];
      assert params[..i + 1] == params[..i] + [params[i]];
    }
    assert params[..|params|] == params;
    r := None;
  }

  // The result kind

  lemma AxesFine(d: Signature, resolved: seq<Param>, kind: ParamKind)
    requires Progress(d, |d.params|, resolved) && d.result.Value? && Resolves(kind, d.result.kind, d.dims, d.indexes)
    ensures forall i :: 0 <= i < |Axes(kind)| ==>
              (AxisOf(resolved, Axes(kind)[i]) <==> AxisOf(d.params, Axes(d.result.kind)[i]))
  {
    hide AxisOf, ParamsFine, ResolvesAll;
    assert d.params[..|d.params|] == d.params;
    forall i | 0 <= i < |Axes(kind)|
      ensures AxisOf(resolved, Axes(kind)[i]) <==> AxisOf(d.params, Axes(d.result.kind)[i])
    {
      DistinctBinders(d, |d.params|);
      ResolvedAxisOf(resolved, d.params, d.dims, d.indexes, Axes(kind)[i]);
    }
  }

  /** The result kind has been resolved against the parameters so far. */
  ghost predicate ResultResolved(d: Signature, resolved: seq<Param>, kind: ParamKind) {
    && Progress(d, |d.params|, resolved) && d.result.Value?
    && Resolves(kind, d.result.kind, d.dims, d.indexes) && Declared(d.result.kind, d.dims, d.indexes)
  }

  ghost predicate AxesCovered(d: Signature) {
    d.result.Value? ==> forall x: nat :: x in Axes(d.result.kind) ==> AxisOf(d.params, x)
  }

  lemma AxisNames(kind: ParamKind, written: ParamKind, dims: seq<nat>, indexes: seq<nat>)
    requires Resolves(kind, written, dims, indexes)
    ensures |Axes(kind)| == |Axes(written)|
    ensures forall i :: 0 <= i < |Axes(kind)| ==>
            Axes(kind)[i] < |indexes| && Axes(written)[i] == indexes[Axes(kind)[i]]
  {
  }

  lemma UnusedAxis(d: Signature, used: seq<bool>, resolved: seq<Param>, kind: ParamKind, x: nat)
    requires ResultResolved(d, resolved, kind) && |used| == |d.indexes| && AxisMarks(used, resolved)
    requires FirstWithoutMark(used, Axes(kind), x)
    ensures ResultError(d, UnboundResultIndexVar(NameOf(d.indexes, x)))
  {
    hide AxisOf, ParamsFine, ResolvesAll, Axes, Declared, Resolves;
    AxisNames(kind, d.result.kind, d.dims, d.indexes);
    AxesFine(d, resolved, kind);
    var i :| 0 <= i < |Axes(kind)| && Axes(kind)[i] == x && !Marked(used, x)
             && forall j :: 0 <= j < i ==> Marked(used, Axes(kind)[j]);
    assert Axes(d.result.kind)[i] == NameOf(d.indexes, x);
    assert forall j :: 0 <= j < i ==> AxisOf(d.params, Axes(d.result.kind)[j]);
    assert FirstNeverAxis(Axes(d.result.kind), d.params, NameOf(d.indexes, x));
  }

  lemma AllAxesUsed(d: Signature, used: seq<bool>, resolved: seq<Param>, kind: ParamKind)
    requires ResultResolved(d, resolved, kind) && |used| == |d.indexes| && AxisMarks(used, resolved)
    requires AllMarked(used, Axes(kind))
    ensures AxesCovered(d)
  {
    hide AxisOf, ParamsFine, ResolvesAll, Axes, Declared, Resolves;
    AxisNames(kind, d.result.kind, d.dims, d.indexes);
    AxesFine(d, resolved, kind);
    forall x: nat | x in Axes(d.result.kind)
      ensures AxisOf(d.params, x)
    {
      var i :| 0 <= i < |Axes(d.result.kind)| && Axes(d.result.kind)[i] == x;
      assert Marked(used, Axes(kind)[i]);
    }
  }

  lemma UnboundVar(d: Signature, bound: seq<bool>, resolved: seq<Param>, kind: ParamKind, k: nat)
    requires ResultResolved(d, resolved, kind) && AxesCovered(d) && |bound| == |d.dims| && BoundMarks(bound, resolved)
    requires FirstWithoutMark(bound, InOrder(Vars(kind)), k)
    ensures ResultError(d, UnboundResultVar(NameOf(d.dims, k)))
  {
    hide BoundBy, AxisOf, ParamsFine, ResolvesAll, Vars, Axes, Declared, BoundMarks, FirstUnbound, FirstUnboundAt,
         FirstWithoutMark;
    FirstUnmarkedUnbound(bound, resolved, kind, k);
    UnboundWritten(d, |d.params|, resolved, kind, d.result.kind, k);
    assert d.params[..|d.params|] == d.params;
  }

  lemma AllVarsBound(d: Signature, bound: seq<bool>, resolved: seq<Param>, kind: ParamKind)
    requires ResultResolved(d, resolved, kind) && AxesCovered(d) && |bound| == |d.dims| && BoundMarks(bound, resolved)
    requires AllMarked(bound, InOrder(Vars(kind)))
    ensures ResultFine(d)
  {
    hide BoundBy, AxisOf, ParamsFine, ResolvesAll, Vars, Axes, BoundMarks, AllMarked;
    AllMarkedBound(bound, resolved, kind);
    assert d.params[..|d.params|] == d.params;
    forall v: nat | v in Vars(d.result.kind)
      ensures BoundBy(d.params, v)
    {
      var k :| 0 <= k < |d.dims| && d.dims[k] == v;
      DistinctBinders(d, |d.params|);
      ResolvedVars(kind, d.result.kind, d.dims, d.indexes, k);
      ResolvedBoundBy(resolved, d.params, d.dims, d.indexes, k);
    }
  }

  lemma DistinctBinders(d: Signature, i: nat)
    requires i <= |d.params| && ParamsFine(d, i)
    ensures Distinct(d.dims) && Distinct(d.indexes)
  {
  }

  /** Resolve the result, whose variables must all be bound by parameters. */
  method ResolveResult(d: Signature, state: BindingState, ghost resolved: seq<Param>)
    returns (r: Result<ResultKind, SignatureError>)
    requires state.bound.Length == |d.dims| && state.usedIndexes.Length == |d.indexes|
    requires Progress(d, |d.params|, resolved) && state.Describes(resolved)
    requires d.result.Value? ==> WfWritten(d.result.kind)
    ensures match r
            case Ok(result) =>
              && ResultFine(d) && RenamedResult(result, d.result, d.dims, d.indexes) && SameRecord(result, d.result)
              && (result.Value? ==> WfKind(result.kind, |d.dims|, |d.indexes|))
            case Err(error) => ResultError(d, error)
  {
    hide ParamsFine, ResolvesAll, BoundMarks, AxisMarks, Resolves, BoundBy, AxisOf, AllMarked, FirstWithoutMark,
         ResultError, ResolveKind, AxesCovered, WfKind, ResultResolved, Progress, KindError, InOrder;
    match d.result
    case Struct(record, fields) =>
      r := Ok(Struct(record, fields));
    case Value(written) =>
      ResolveKindCorrect(d.dims, d.indexes, written);
      match ResolveKind(d.dims, d.indexes, written)
      case Err(error) =>
        UndeclaredResult(d, resolved, error);
        r := Err(error);
      case Ok(kind) =>
        ResultKindResolved(d, resolved, kind);
        var axis := FirstUnmarked(state.usedIndexes, Axes(kind));
        if axis.Some? {
          UnusedAxis(d, state.usedIndexes[..], resolved, kind, axis.value);
          return Err(UnboundResultIndexVar(NameOf(d.indexes, axis.value)));
        }
        AllAxesUsed(d, state.usedIndexes[..], resolved, kind);
        var v := FirstUnmarked(state.bound, InOrder(Vars(kind)));
        if v.Some? {
          UnboundVar(d, state.bound[..], resolved, kind, v.value);
          return Err(UnboundResultVar(NameOf(d.dims, v.value)));
        }
        AllVarsBound(d, state.bound[..], resolved, kind);
        r := Ok(Value(kind));
  }

  lemma UndeclaredResult(d: Signature, resolved: seq<Param>, e: SignatureError)
    requires Progress(d, |d.params|, resolved) && d.result.Value? && KindError(d.result.kind, d.dims, d.indexes, e)
    ensures ResultError(d, e)
  {
  }

  lemma ResultKindResolved(d: Signature, resolved: seq<Param>, kind: ParamKind)
    requires Progress(d, |d.params|, resolved) && d.result.Value?
    requires Resolves(kind, d.result.kind, d.dims, d.indexes) && Declared(d.result.kind, d.dims, d.indexes)
    ensures ResultResolved(d, resolved, kind) && WfKind(kind, |d.dims|, |d.indexes|)
    ensures RenamedResult(Value(kind), d.result, d.dims, d.indexes)
  {
  }

  // The whole signature

  /** Every occurrence of a position stands for the name declared there. */
  ghost predicate ResolvedSignature(s: Signature, d: Signature) {
    && s.dims == d.dims && s.indexes == d.indexes
    && ResolvesAll(s.params, d.params, d.dims, d.indexes)
    && RenamedResult(s.result, d.result, d.dims, d.indexes) && SameRecord(s.result, d.result)
  }

  /** Binders and parameter names are distinct. */
  method CheckHeader(d: Signature) returns (r: Option<SignatureError>)
    ensures r.None? ==> HeaderFine(d)
    ensures r.Some? ==> FirstViolation(d, r.value)
  {
    hide ParamError, ResultError, UnusedError, FirstRepeat;
    var dim := FirstDuplicate(d.dims);
    if dim.Some? {
      return Some(DuplicateDimVar(dim.value));
    }
    var index := FirstDuplicate(d.indexes);
    if index.Some? {
      return Some(DuplicateIndexVar(index.value));
    }
    r := DuplicateParam(d.params);
  }

  method AddParams(d: Signature, state: BindingState) returns (r: Result<seq<Param>, SignatureError>)
    requires HeaderFine(d) && WfDraft(d) && state.Describes([])
    requires state.bound.Length == |d.dims| && state.usedIndexes.Length == |d.indexes|
             && state.bound != state.usedIndexes
    modifies state.bound, state.usedIndexes
    ensures match r
            case Ok(params) => Progress(d, |d.params|, params) && state.Describes(params)
            case Err(error) => exists i: nat :: i < |d.params| && ParamError(d, i, error)
  {
    hide Distinct, NamesDistinct, ParamFine, ParamError, ResolvesAll, Resolves, BoundBy, AxisOf, BoundMarks, AxisMarks,
         ResolveKind, WfWritten, KindError, EarlierBound, FirstUnboundAt;
    var params: seq<Param> := [];
    NoProgress(d);
    for i := 0 to |d.params|
      invariant Progress(d, i, params) && state.Describes(params)
    {
      var p := state.AddParam(d.dims, d.indexes, d.params[i], params);
      ResolveKindCorrect(d.dims, d.indexes, d.params[i].kind);
      if p.Err? {
        ParamErrorHolds(d, i, params, p.error);
        return Err(p.error);
      }
      ProgressStep(d, i, params, p.value);
      params := params + [p.value];
    }
    r := Ok(params);
  }

  lemma NoProgress(d: Signature)
    requires HeaderFine(d)
    ensures Progress(d, 0, [])
  {
  }

  lemma ParamErrorHolds(d: Signature, i: nat, resolved: seq<Param>, e: SignatureError)
    requires i < |d.params| && Progress(d, i, resolved) && WfWritten(d.params[i].kind)
    requires var kind := ResolveKind(d.dims, d.indexes, d.params[i].kind);
             || kind == Err(e)
             || (kind.Ok? && e.UseBeforeBinding? && e.param == d.params[i].name
                 && exists k: nat :: k < |d.dims| && e.name == d.dims[k] && !Binds(kind.value, k)
                                     && FirstUnboundAt(resolved, kind.value, k))
    ensures ParamError(d, i, e)
  {
    hide ParamFine, ResolvesAll, Resolves, ResolveKind, WfWritten, KindError, FirstUnboundAt, FirstUnbound, Binds,
         Declared;
    var written := d.params[i].kind;
    ResolveKindCorrect(d.dims, d.indexes, written);
    var kind := ResolveKind(d.dims, d.indexes, written);
    if kind.Ok? {
      var k: nat :| k < |d.dims| && e.name == d.dims[k] && !Binds(kind.value, k)
          && FirstUnboundAt(resolved, kind.value, k);
      UnboundWritten(d, i, resolved, kind.value, written, k);
    }
  }

  /** Every declared dimension variable is bound and every index used. */
  method CheckUsed(d: Signature, state: BindingState, s: Signature) returns (r: Result<Signature, SignatureError>)
    requires state.bound.Length == |d.dims| && state.usedIndexes.Length == |d.indexes|
    requires s.dims == d.dims && s.indexes == d.indexes
    requires Progress(d, |d.params|, s.params) && state.Describes(s.params) && ResultFine(d)
    ensures match r
            case Ok(t) => t == s && WellFormed(d)
            case Err(error) => UnusedError(d, error)
  {
    hide ParamsFine, ResolvesAll, ResultFine, BoundBy, AxisOf, BoundMarks, AxisMarks, FirstNeverBound, FirstNeverAxis;
    var v := FirstFalse(state.bound);
    BoundNames(d, state.bound[..], s.params, v);
    if v < state.bound.Length {
      return Err(DimVarNeverBound(d.dims[v]));
    }
    var x := FirstFalse(state.usedIndexes);
    AxisNamesUsed(d, state.usedIndexes[..], s.params, x);
    if x < state.usedIndexes.Length {
      return Err(IndexVarNeverUsed(d.indexes[x]));
    }
    r := Ok(s);
  }

  lemma BoundNames(d: Signature, bound: seq<bool>, resolved: seq<Param>, v: nat)
    requires Progress(d, |d.params|, resolved) && BoundMarks(bound, resolved) && v <= |bound| == |d.dims|
    requires (forall j :: 0 <= j < v ==> bound[j]) && (v < |bound| ==> !bound[v])
    ensures v < |bound| ==> FirstNeverBound(d.dims, d.params, d.dims[v])
    ensures v == |bound| ==> forall name :: name in d.dims ==> BoundBy(d.params, name)
  {
    hide ParamsFine, ResolvesAll, BoundBy;
    DistinctBinders(d, |d.params|);
    assert d.params[..|d.params|] == d.params;
    forall k: nat | k < |d.dims|
      ensures bound[k] <==> BoundBy(d.params, d.dims[k])
    {
      ResolvedBoundBy(resolved, d.params, d.dims, d.indexes, k);
    }
  }

  lemma AxisNamesUsed(d: Signature, used: seq<bool>, resolved: seq<Param>, x: nat)
    requires Progress(d, |d.params|, resolved) && AxisMarks(used, resolved) && x <= |used| == |d.indexes|
    requires (forall j :: 0 <= j < x ==> used[j]) && (x < |used| ==> !used[x])
    ensures x < |used| ==> FirstNeverAxis(d.indexes, d.params, d.indexes[x])
    ensures x == |used| ==> forall name :: name in d.indexes ==> AxisOf(d.params, name)
  {
    hide ParamsFine, ResolvesAll, AxisOf;
    DistinctBinders(d, |d.params|);
    assert d.params[..|d.params|] == d.params;
    forall k: nat | k < |d.indexes|
      ensures used[k] <==> AxisOf(d.params, d.indexes[k])
    {
      ResolvedAxisOf(resolved, d.params, d.dims, d.indexes, k);
    }
  }

  lemma ResolvedValid(s: Signature, d: Signature)
    requires WellFormed(d) && ResolvedSignature(s, d)
    requires s.result.Value? ==> WfKind(s.result.kind, |d.dims|, |d.indexes|)
    ensures ValidSignature(s)
  {
    hide WfKind, BoundBy, AxisOf, Vars, Binds, RenamedKind, Declared, Axes, Distinct;
    forall i, v: nat | 0 <= i < |s.params| && v in Vars(s.params[i].kind)
      ensures Binds(s.params[i].kind, v) || BoundBy(s.params[..i], v)
    {
      ResolvedEarlier(s, d, i, v);
    }
    forall v: nat | v < |s.dims|
      ensures BoundBy(s.params, v)
    {
      assert d.dims[v] in d.dims;
      ResolvedBoundBy(s.params, d.params, d.dims, d.indexes, v);
    }
    forall x: nat | x < |s.indexes|
      ensures AxisOf(s.params, x)
    {
      assert d.indexes[x] in d.indexes;
      ResolvedAxisOf(s.params, d.params, d.dims, d.indexes, x);
    }
  }

  lemma ResolvedEarlier(s: Signature, d: Signature, i: nat, v: nat)
    requires WellFormed(d) && ResolvedSignature(s, d) && i < |s.params| && v in Vars(s.params[i].kind)
    ensures Binds(s.params[i].kind, v) || BoundBy(s.params[..i], v)
  {
    hide BoundBy, Binds, RenamedKind, Declared, Distinct, Vars, ResultFine;
    var kind, written := s.params[i].kind, d.params[i].kind;
    VarsInRange(kind, |d.dims|, |d.indexes|, v);
    ResolvedVars(kind, written, d.dims, d.indexes, v);
    ResolvedBinds(kind, written, d.dims, d.indexes, v);
    assert ParamFine(d, i);
    ResolvedBoundBy(s.params[..i], d.params[..i], d.dims, d.indexes, v);
  }

  lemma VarsInRange(kind: ParamKind, dims: nat, indexes: nat, v: nat)
    requires WfKind(kind, dims, indexes) && v in Vars(kind)
    ensures v < dims
  {
  }

  // A reported violation is one

  lemma ViolationNotWellFormed(d: Signature, e: SignatureError)
    requires FirstViolation(d, e)
    ensures !WellFormed(d)
  {
    hide KindError, FirstUnbound, ParamError, ResultError, UnusedError;
    if i: nat :| i < |d.params| && ParamError(d, i, e) {
      ParamViolates(d, i, e);
    } else if ResultError(d, e) {
      ResultViolates(d, e);
    } else if UnusedError(d, e) {
      UnusedViolates(d, e);
    }
  }

  lemma KindViolates(kind: ParamKind, dims: seq<nat>, indexes: seq<nat>, e: SignatureError)
    requires KindError(kind, dims, indexes, e)
    ensures !Declared(kind, dims, indexes)
  {
    if e.UndeclaredDimVar? {
      var keys := InOrder(Vars(kind));
      assert e.name in keys;
    }
  }

  lemma ParamViolates(d: Signature, i: nat, e: SignatureError)
    requires i < |d.params| && ParamError(d, i, e)
    ensures !WellFormed(d)
  {
    hide KindError, Declared, ResultFine;
    if KindError(d.params[i].kind, d.dims, d.indexes, e) {
      KindViolates(d.params[i].kind, d.dims, d.indexes, e);
    }
    if WellFormed(d) {
      FineParam(d, i);
    }
  }

  lemma FineParam(d: Signature, i: nat)
    requires WellFormed(d) && i < |d.params|
    ensures ParamFine(d, i)
  {
  }

  lemma ResultViolates(d: Signature, e: SignatureError)
    requires ResultError(d, e)
    ensures !WellFormed(d)
  {
    hide KindError, Declared, ParamsFine, BoundBy, AxisOf;
    if KindError(d.result.kind, d.dims, d.indexes, e) {
      KindViolates(d.result.kind, d.dims, d.indexes, e);
    }
  }

  lemma UnusedViolates(d: Signature, e: SignatureError)
    requires UnusedError(d, e)
    ensures !WellFormed(d)
  {
    hide ParamsFine, BoundBy, AxisOf;
  }

  /** Accepts exactly the well-formed signatures; what it accepts is valid and
      is the written one with names replaced by positions; what it rejects it
      rejects for the first violation. */
  method TryFromParts(d: Signature) returns (r: Result<Signature, SignatureError>)
    requires WfDraft(d)
    ensures r.Ok? <==> WellFormed(d)
    ensures r.Ok? ==> ValidSignature(r.value) && ResolvedSignature(r.value, d)
    ensures r.Err? ==> FirstViolation(d, r.error)
  {
    hide ParamsFine, ParamError, ResultError, UnusedError, ResolvesAll, ResultFine, RenamedResult, WfKind, Resolves,
         BoundBy, AxisOf, BoundMarks, AxisMarks, ValidSignature, WellFormed;
    var header := CheckHeader(d);
    if header.Some? {
      r := Err(header.value);
    } else {
      var state := new BindingState(|d.dims|, |d.indexes|);
      var params := AddParams(d, state);
      if params.Err? {
        r := Err(params.error);
      } else {
        var result := ResolveResult(d, state, params.value);
        if result.Err? {
          r := Err(result.error);
        } else {
          var s := Signature(d.dims, d.indexes, params.value, result.value);
          r := CheckUsed(d, state, s);
          if r.Ok? {
            assert d.params[..|d.params|] == d.params;
            ResolvedValid(s, d);
          }
        }
      }
    }
    if r.Err? {
      ViolationNotWellFormed(d, r.error);
    }
  }

  // The accepted signature is determined by the written one

  lemma MonomialDetermined(m: DimMonomial, n: DimMonomial, written: DimMonomial, dims: seq<nat>)
    requires Distinct(dims) && RenamedMonomial(m, written, dims) && RenamedMonomial(n, written, dims)
    ensures m == n
  {
    hide RenamedMonomial, Distinct;
    FixedDetermined(m, n, written, dims);
    VarsCovered(m, n, written, dims);
    VarsCovered(n, m, written, dims);
    assert m.vars.Keys == n.vars.Keys;
  }

  lemma FixedDetermined(m: DimMonomial, n: DimMonomial, written: DimMonomial, dims: seq<nat>)
    requires RenamedMonomial(m, written, dims) && RenamedMonomial(n, written, dims)
    ensures m.fixed == n.fixed
  {
  }

  lemma VarsCovered(m: DimMonomial, n: DimMonomial, written: DimMonomial, dims: seq<nat>)
    requires Distinct(dims) && RenamedMonomial(m, written, dims) && RenamedMonomial(n, written, dims)
    ensures forall k :: k in m.vars ==> k in n.vars && n.vars[k] == m.vars[k]
  {
    forall k | k in m.vars
      ensures k in n.vars && n.vars[k] == m.vars[k]
    {
      var j: nat :| j in n.vars && j < |dims| && dims[j] == dims[k];
      assert j == k;
    }
  }

  lemma KindDetermined(k: ParamKind, l: ParamKind, written: ParamKind, dims: seq<nat>, indexes: seq<nat>)
    requires Distinct(dims) && Distinct(indexes)
    requires RenamedKind(k, written, dims, indexes) && RenamedKind(l, written, dims, indexes)
    ensures k == l
  {
    hide RenamedMonomial;
    if Element(k).Quantity? {
      MonomialDetermined(Element(k).monomial, Element(l).monomial, Element(written).monomial, dims);
    }
    if k.Indexed? {
      assert forall i :: 0 <= i < |k.axes| ==> indexes[k.axes[i]] == indexes[l.axes[i]];
      assert k.axes == l.axes;
    }
  }

  lemma ResolvedDetermined(s: Signature, t: Signature, d: Signature)
    requires HeaderFine(d) && ResolvedSignature(s, d) && ResolvedSignature(t, d)
    ensures s == t
  {
    hide RenamedKind, NamesDistinct, Distinct, WfKind;
    forall i | 0 <= i < |d.params|
      ensures s.params[i] == t.params[i]
    {
      KindDetermined(s.params[i].kind, t.params[i].kind, d.params[i].kind, d.dims, d.indexes);
    }
    assert s.params == t.params;
    if d.result.Value? {
      KindDetermined(s.result.kind, t.result.kind, d.result.kind, d.dims, d.indexes);
    }
  }

  // Numbering binders in place

  /** Give `binder` the next number unless it has one. */
  method NumberInPlace(order: array<Option<nat>>, binder: nat, next: nat) returns (after: nat)
    modifies order
    ensures (order[..], after) == Number(old(order[..]), next, binder)
  {
    after := next;
    if binder < order.Length && order[binder].None? {
      order[binder] := Some(next);
      after := next + 1;
    }
    assert order[..] == Number(old(order[..]), next, binder).0;
  }

  method NumberEach(order: array<Option<nat>>, binders: seq<nat>, next: nat) returns (after: nat)
    modifies order
    ensures (order[..], after) == NumberAll(old(order[..]), next, binders)
  {
    after := next;
    for i := 0 to |binders|
      invariant (order[..], after) == NumberAll(old(order[..]), next, binders[..i])
    {
      assert binders[..i + 1][..i] == binders[..i];
      after := NumberInPlace(order, binders[i], after);
    }
    assert binders[..|binders|] == binders;
  }

  lemma NumberMore(start: Slots, xs: seq<nat>, ys: seq<nat>, before: (Slots, nat), after: (Slots, nat))
    requires before == NumberAll(start, 0, xs) && after == NumberAll(before.0, before.1, ys)
    ensures after == NumberAll(start, 0, xs + ys)
  {
    NumberAllConcat(start, 0, xs, ys);
  }

  /** Number the binders of a signature by first occurrence. */
  method FirstOccurrenceOf(s: Signature) returns (r: FirstOccurrence)
    ensures r == OrderOf(s)
  {
    hide NumberAll, InOrder, Vars, Axes;
    var dims := new Option<nat>[|s.dims|](_ => None);
    var indexes := new Option<nat>[|s.indexes|](_ => None);
    var nextDim, nextIndex := 0, 0;
    NumberNone(|s.dims|);
    NumberNone(|s.indexes|);
    assert dims[..] == Fresh(|s.dims|) && indexes[..] == Fresh(|s.indexes|);
    for i := 0 to |s.params|
      invariant (dims[..], nextDim) == NumberAll(Fresh(|s.dims|), 0, DimOccurrences(s.params[..i]))
      invariant (indexes[..], nextIndex) == NumberAll(Fresh(|s.indexes|), 0, AxisOccurrences(s.params[..i]))
    {
      assert s.params[..i + 1][..i] == s.params[..i];
      ghost var d, x := (dims[..], nextDim), (indexes[..], nextIndex);
      var kind := s.params[i].kind;
      nextDim := NumberEach(dims, InOrder(Vars(kind)), nextDim);
      nextIndex := NumberEach(indexes, Axes(kind), nextIndex);
      NumberMore(Fresh(|s.dims|), DimOccurrences(s.params[..i]), InOrder(Vars(kind)), d, (dims[..], nextDim));
      NumberMore(Fresh(|s.indexes|), AxisOccurrences(s.params[..i]), Axes(kind), x, (indexes[..], nextIndex));
    }
    assert s.params[..|s.params|] == s.params;
    r := FirstOccurrence(dims[..], indexes[..]);
  }

  lemma NumberNone(n: nat)
    ensures NumberAll(Fresh(n), 0, []) == (Fresh(n), 0)
  {
  }
}
