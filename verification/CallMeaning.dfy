/** What it means for a call to have a type, stated without the call checker's walk
    over the arguments, and what makes it overflow. */
module CallMeaning {
  import opened Outcomes
  import opened Monomials
  import opened Signatures
  import opened CallTyping
  import opened MonomialValues

  ghost predicate WfArg(arg: ArgType) {
    match arg
    case QuantityType(dimension) => WfMonomial(dimension)
    case IndexedType(element, _) => WfArg(element)
    case _ => true
  }

  ghost predicate WfArgs(args: seq<ArgType>) {
    forall i :: 0 <= i < |args| ==> WfArg(args[i])
  }

  // Instances of kinds

  ghost predicate ElementInstance(t: ArgType, kind: ScalarKind, dims: map<nat, Monomial>) {
    match kind
    case BoolKind => t == BoolType
    case IntKind => t == IntType
    case Quantity(m) => t.QuantityType? && HasValue(m, dims, t.dimension)
  }

  /** An array over the indexes of `axes`, outermost first. */
  ghost predicate ArrayInstance(t: ArgType, kind: ScalarKind, axes: seq<nat>, g: Walk)
    decreases |axes|
  {
    if axes == [] then ElementInstance(t, kind, g.dims)
    else
      && t.IndexedType? && axes[0] in g.axes && t.index == g.axes[axes[0]]
      && ArrayInstance(t.element, kind, axes[1..], g)
  }

  /** `t` is `kind` with dimension and index variables replaced as `g` says. */
  ghost predicate Instance(t: ArgType, kind: ParamKind, g: Walk) {
    ArrayInstance(t, Element(kind), Axes(kind), g)
  }

  /** A compound monomial can be evaluated; a bare variable is only compared. */
  ghost predicate CompoundFits(kind: ScalarKind, dims: map<nat, Monomial>) {
    kind.Quantity? && AsBareVar(kind.monomial).None? ==> FitsIn(kind.monomial, dims)
  }

  ghost predicate MatchesParam(arg: ArgType, kind: ParamKind, g: Walk) {
    Instance(arg, kind, g) && CompoundFits(Element(kind), g.dims)
  }

  /** The first `n` arguments are instances of their parameters. */
  ghost predicate Matches(params: seq<Param>, args: seq<ArgType>, n: nat, g: Walk)
    requires n <= |params| && n <= |args|
  {
    WfDims(g.dims) && forall i :: 0 <= i < n ==> MatchesParam(args[i], params[i].kind, g)
  }

  ghost predicate ResultFits(result: ResultKind, dims: map<nat, Monomial>) {
    result.Value? && Element(result.kind).Quantity? ==> FitsIn(Element(result.kind).monomial, dims)
  }

  ghost predicate ResultInstance(t: ArgType, result: ResultKind, g: Walk) {
    match result
    case Struct(record, _) => t == StructType(record)
    case Value(kind) => Instance(t, kind, g)
  }

  ghost predicate TypedBy(s: Signature, args: seq<ArgType>, t: ArgType, g: Walk) {
    && |args| == |s.params| && Matches(s.params, args, |args|, g)
    && ResultInstance(t, s.result, g) && ResultFits(s.result, g.dims)
  }

  /** Some dimensions for the dimension variables and indexes for the index
      variables make every argument an instance of its parameter and `t` the
      instance of the result. */
  ghost predicate HasType(s: Signature, args: seq<ArgType>, t: ArgType) {
    exists g :: TypedBy(s, args, t, g)
  }

  // What the arguments determine

  /** The first bare occurrence of a variable gives its dimension. */
  function GivenDims(dims: map<nat, Monomial>, kind: ScalarKind, leaf: ArgType): map<nat, Monomial> {
    if kind.Quantity? && leaf.QuantityType? then
      match AsBareVar(kind.monomial)
      case Some(v) => if v in dims then dims else dims[v := leaf.dimension]
      case None => dims
    else dims
  }

  function GivenAxes(bound: map<nat, nat>, axes: seq<nat>, found: seq<nat>): map<nat, nat>
    requires |axes| <= |found|
    decreases |axes|
  {
    if axes == [] then bound
    else
      var last := |axes| - 1;
      var before := GivenAxes(bound, axes[..last], found);
      if axes[last] in before then before else before[axes[last] := found[last]]
  }

  /** What the first `n` arguments give to the variables, whether or not they
      match. */
  function Given(params: seq<Param>, args: seq<ArgType>, n: nat): Walk
    requires n <= |params| && n <= |args|
    decreases n
  {
    if n == 0 then Walk(map[], map[])
    else
      var before := Given(params, args, n - 1);
      var kind := params[n - 1].kind;
      match Peel(args[n - 1], |Axes(kind)|)
      case None => before
      case Some((leaf, found)) =>
        Walk(GivenDims(before.dims, Element(kind), leaf), GivenAxes(before.axes, Axes(kind), found))
  }

  /** An argument of the right shape for a compound monomial whose value has no
      representable exponents. */
  ghost predicate OverflowsAt(kind: ParamKind, arg: ArgType, dims: map<nat, Monomial>) {
    var leaf := Peel(arg, |Axes(kind)|);
    && leaf.Some? && leaf.value.0.QuantityType?
    && Element(kind).Quantity? && !CompoundFits(Element(kind), dims)
  }

  /** The arguments before the `n`th match, and the `n`th overflows. */
  ghost predicate OverflowsParam(s: Signature, args: seq<ArgType>, n: nat)
    requires n < |s.params| && n < |args|
  {
    var g := Given(s.params, args, n);
    Matches(s.params, args, n, g) && OverflowsAt(s.params[n].kind, args[n], g.dims)
  }

  ghost predicate AllMatch(s: Signature, args: seq<ArgType>) {
    |args| == |s.params| && Matches(s.params, args, |args|, Given(s.params, args, |args|))
  }

  /** Evaluating a compound monomial overflows: that of the first parameter whose
      argument does not match, or that of the result. */
  ghost predicate Overflows(s: Signature, args: seq<ArgType>) {
    && |args| == |s.params|
    && (|| (exists n: nat :: n < |args| && OverflowsParam(s, args, n))
        || (AllMatch(s, args) && !ResultFits(s.result, Given(s.params, args, |args|).dims)))
  }

  /** Every variable is bound, or the monomial is about to bind it. */
  ghost predicate Ready(m: DimMonomial, dims: map<nat, Monomial>) {
    AsBareVar(m).None? ==> AllBound(m, dims)
  }

  ghost predicate ScalarReady(kind: ScalarKind, dims: map<nat, Monomial>) {
    kind.Quantity? ==> Ready(kind.monomial, dims)
  }

  ghost predicate WfElement(kind: ScalarKind) {
    kind.Quantity? ==> WfDimMonomial(kind.monomial)
  }

  // What a successful step binds

  lemma QuantityBinds(dims: map<nat, Monomial>, n: nat, m: DimMonomial, found: Monomial)
    requires WfDims(dims) && WfMonomial(found)
    ensures var r := CheckQuantity(dims, n, m, found);
            r.Ok? ==>
              && WfDims(r.value) && dims.Keys <= r.value.Keys
              && forall v: nat :: AsBareVar(m) == Some(v) ==> v in r.value
  {
    hide WfMonomial, Eval, AsBareVar;
  }

  lemma {:induction false} AxesBind(bound: map<nat, nat>, n: nat, axes: seq<nat>, found: seq<nat>)
    requires |axes| <= |found|
    ensures var r := BindAxes(bound, n, axes, found);
            r.Ok? ==> bound.Keys <= r.value.Keys && forall x :: x in axes ==> x in r.value
    decreases |axes|
  {
    if axes != [] {
      var last := |axes| - 1;
      AxesBind(bound, n, axes[..last], found);
      assert axes == axes[..last] + [axes[last]];
    }
  }

  lemma {:induction false} PeelWf(arg: ArgType, rank: nat)
    requires WfArg(arg)
    ensures Peel(arg, rank).Some? ==> WfArg(Peel(arg, rank).value.0)
    decreases rank
  {
    if rank > 0 && arg.IndexedType? {
      PeelWf(arg.element, rank - 1);
    }
  }

  /** What is bound stays bound, and the parameter's own binders become bound. */
  ghost predicate Extends(before: Walk, after: Walk, kind: ParamKind) {
    && WfDims(after.dims) && before.dims.Keys <= after.dims.Keys && before.axes.Keys <= after.axes.Keys
    && (forall v: nat :: Binds(kind, v) ==> v in after.dims)
    && (forall x: nat :: x in Axes(kind) ==> x in after.axes)
  }

  lemma ElementBinds(dims: map<nat, Monomial>, n: nat, kind: ScalarKind, arg: ArgType)
    requires WfDims(dims) && WfArg(arg)
    ensures var r := CheckElement(dims, n, kind, arg);
            r.Ok? ==>
              && WfDims(r.value) && dims.Keys <= r.value.Keys
              && forall v: nat :: kind.Quantity? && AsBareVar(kind.monomial) == Some(v) ==> v in r.value
  {
    hide CheckQuantity, AsBareVar, WfDims;
    if kind.Quantity? && arg.QuantityType? {
      QuantityBinds(dims, n, kind.monomial, arg.dimension);
    }
  }

  lemma ParamBinds(walk: Walk, n: nat, kind: ParamKind, arg: ArgType)
    requires WfDims(walk.dims) && WfArg(arg)
    ensures var r := CheckParam(walk, n, kind, arg); r.Ok? ==> Extends(walk, r.value, kind)
  {
    hide CheckElement, BindAxes, Peel, WfDims, AsBareVar, WfArg;
    match kind
    case Scalar(scalar) =>
      ElementBinds(walk.dims, n, scalar, arg);
    case Indexed(element, axes) =>
      PeelWf(arg, |axes|);
      if Peel(arg, |axes|).Some? {
        var (inner, found) := Peel(arg, |axes|).value;
        ElementBinds(walk.dims, n, element, inner);
        AxesBind(walk.axes, n, axes, found);
      }
  }

  /** Every binder that `params` bind has a value. */
  ghost predicate Covers(walk: Walk, params: seq<Param>) {
    && WfDims(walk.dims)
    && (forall v: nat :: BoundBy(params, v) ==> v in walk.dims)
    && (forall x: nat :: AxisOf(params, x) ==> x in walk.axes)
  }

  lemma CoversMore(before: Walk, after: Walk, params: seq<Param>, n: nat)
    requires n < |params| && Covers(before, params[..n]) && Extends(before, after, params[n].kind)
    ensures Covers(after, params[..n + 1])
  {
    hide Binds, Axes, WfDims;
    var more := params[..n + 1];
    forall v: nat | BoundBy(more, v)
      ensures v in after.dims
    {
      var j :| 0 <= j < |more| && Binds(more[j].kind, v);
      if j < n {
        assert params[..n][j] == more[j];
        assert BoundBy(params[..n], v);
      }
    }
    forall x: nat | AxisOf(more, x)
      ensures x in after.axes
    {
      var j :| 0 <= j < |more| && x in Axes(more[j].kind);
      if j < n {
        assert params[..n][j] == more[j];
        assert AxisOf(params[..n], x);
      }
    }
  }

  lemma {:induction false} WalkCovers(params: seq<Param>, args: seq<ArgType>, n: nat)
    requires n <= |params| && n <= |args| && WfArgs(args)
    ensures var r := CheckParams(params, args, n); r.Ok? ==> Covers(r.value, params[..n])
  {
    hide CheckParam, Extends, Covers, WfArg;
    if n == 0 {
      NothingCovered(params);
    } else {
      WalkCovers(params, args, n - 1);
      var before := CheckParams(params, args, n - 1);
      if before.Ok? {
        CoveredWf(before.value, params[..n - 1]);
        ParamBinds(before.value, n - 1, params[n - 1].kind, args[n - 1]);
        if CheckParams(params, args, n).Ok? {
          CoversMore(before.value, CheckParams(params, args, n).value, params, n - 1);
        }
      }
    }
  }

  lemma NothingCovered(params: seq<Param>)
    ensures Covers(Walk(map[], map[]), params[..0])
  {
  }

  lemma CoveredWf(walk: Walk, params: seq<Param>)
    requires Covers(walk, params)
    ensures WfDims(walk.dims)
  {
  }

  lemma ReadyFor(s: Signature, walk: Walk, n: nat)
    requires ValidSignature(s) && n < |s.params| && Covers(walk, s.params[..n])
    ensures ScalarReady(Element(s.params[n].kind), walk.dims) && WfElement(Element(s.params[n].kind))
  {
    hide BoundBy, AxisOf, AsBareVar, WfDims;
    var kind := s.params[n].kind;
    assert WfKind(kind, |s.dims|, |s.indexes|);
    if Element(kind).Quantity? && AsBareVar(Element(kind).monomial).None? {
      forall v | v in Element(kind).monomial.vars
        ensures v in walk.dims
      {
        assert v in Vars(kind);
      }
    }
  }

  lemma ResultBound(s: Signature, walk: Walk)
    requires ValidSignature(s) && Covers(walk, s.params) && s.result.Value?
    ensures var kind := s.result.kind;
            && WfElement(Element(kind)) && (Element(kind).Quantity? ==> AllBound(Element(kind).monomial, walk.dims))
            && forall x :: x in Axes(kind) ==> x in walk.axes
  {
    hide BoundBy, AxisOf, WfDims;
    assert WfKind(s.result.kind, |s.dims|, |s.indexes|);
  }

  // Taking an argument apart

  /** A scalar is an array without axes. */
  function CheckPeeled(walk: Walk, n: nat, kind: ParamKind, peeled: Option<(ArgType, seq<nat>)>)
    : Result<Walk, CallError>
    requires peeled.Some? ==> |peeled.value.1| == |Axes(kind)|
  {
    match peeled
    case None => Err(KindMismatch(n))
    case Some((leaf, found)) =>
      match CheckElement(walk.dims, n, Element(kind), leaf)
      case Err(error) => Err(error)
      case Ok(dims) =>
        match BindAxes(walk.axes, n, Axes(kind), found)
        case Err(error) => Err(error)
        case Ok(axes) => Ok(Walk(dims, axes))
  }

  lemma ParamPeeled(walk: Walk, n: nat, kind: ParamKind, arg: ArgType)
    ensures CheckParam(walk, n, kind, arg) == CheckPeeled(walk, n, kind, Peel(arg, |Axes(kind)|))
  {
    hide CheckElement;
  }

  /** Each axis variable has the index found at its place. */
  ghost predicate AxesAre(axes: seq<nat>, found: seq<nat>, bound: map<nat, nat>) {
    |axes| == |found| && forall i :: 0 <= i < |axes| ==> axes[i] in bound && bound[axes[i]] == found[i]
  }

  lemma {:induction false} ArrayPeeled(t: ArgType, kind: ScalarKind, axes: seq<nat>, g: Walk)
    ensures var peeled := Peel(t, |axes|);
            ArrayInstance(t, kind, axes, g) <==>
              peeled.Some? && ElementInstance(peeled.value.0, kind, g.dims) && AxesAre(axes, peeled.value.1, g.axes)
    decreases |axes|
  {
    hide ElementInstance;
    if axes != [] && t.IndexedType? {
      ArrayPeeled(t.element, kind, axes[1..], g);
      var inner := Peel(t.element, |axes| - 1);
      if inner.Some? {
        AxesCons(axes, t.index, inner.value.1, g.axes);
      }
    }
  }

  lemma AxesCons(axes: seq<nat>, first: nat, rest: seq<nat>, bound: map<nat, nat>)
    requires axes != [] && |rest| == |axes| - 1
    ensures AxesAre(axes, [first] + rest, bound) <==>
              axes[0] in bound && bound[axes[0]] == first && AxesAre(axes[1..], rest, bound)
  {
    var found := [first] + rest;
    if AxesAre(axes[1..], rest, bound) && axes[0] in bound && bound[axes[0]] == first {
      forall i | 0 <= i < |axes|
        ensures axes[i] in bound && bound[axes[i]] == found[i]
      {
        if i > 0 {
          assert axes[1..][i - 1] == axes[i] && rest[i - 1] == found[i];
        }
      }
    }
    if AxesAre(axes, found, bound) {
      forall i | 0 <= i < |rest|
        ensures axes[1..][i] in bound && bound[axes[1..][i]] == rest[i]
      {
        assert axes[1..][i] == axes[i + 1] && rest[i] == found[i + 1];
      }
    }
  }

  // One element

  lemma ElementSound(dims: map<nat, Monomial>, n: nat, kind: ScalarKind, leaf: ArgType)
    requires WfElement(kind) && WfDims(dims) && WfArg(leaf) && ScalarReady(kind, dims)
    ensures var r := CheckElement(dims, n, kind, leaf);
            r.Ok? ==>
              && WfDims(r.value) && Within(dims, r.value) && r.value == GivenDims(dims, kind, leaf)
              && ElementInstance(leaf, kind, r.value) && CompoundFits(kind, r.value)
  {
    hide WfDimMonomial, Eval, HasValue, FitsIn, AsBareVar, AllBound, WfMonomial;
    if kind.Quantity? && leaf.QuantityType? {
      var m := kind.monomial;
      match AsBareVar(m)
      case Some(v) =>
        var after := GivenDims(dims, kind, leaf);
        BareValue(m, v, after, leaf.dimension);
      case None =>
        EvalValue(m, dims);
    }
  }

  lemma ElementComplete(dims: map<nat, Monomial>, n: nat, kind: ScalarKind, leaf: ArgType, g: map<nat, Monomial>)
    requires WfElement(kind) && WfDims(dims) && WfDims(g) && ScalarReady(kind, dims) && Within(dims, g)
    requires ElementInstance(leaf, kind, g) && CompoundFits(kind, g)
    ensures var r := CheckElement(dims, n, kind, leaf); r.Ok? && Within(r.value, g)
  {
    hide WfDimMonomial, Eval, HasValue, FitsIn, AsBareVar, WfMonomial, AllBound;
    if kind.Quantity? {
      var m := kind.monomial;
      match AsBareVar(m)
      case Some(v) =>
        BareBound(m, v, g, leaf.dimension);
        BareValue(m, v, g, leaf.dimension);
      case None =>
        ValueWithin(m, dims, g, leaf.dimension);
        EvalValue(m, dims);
        ValueUnique(m, dims, leaf.dimension, Eval(m, dims).value);
    }
  }

  lemma BareBound(m: DimMonomial, v: nat, dims: map<nat, Monomial>, d: Monomial)
    requires AsBareVar(m) == Some(v) && HasValue(m, dims, d)
    ensures v in dims
  {
    hide AsBareVar, IsProduct;
    BareIs(m, v);
    assert v in m.vars;
  }

  lemma ElementOverflow(dims: map<nat, Monomial>, n: nat, kind: ScalarKind, leaf: ArgType)
    requires WfElement(kind) && WfDims(dims) && ScalarReady(kind, dims)
    ensures CheckElement(dims, n, kind, leaf) == Err(DimensionOverflow) <==>
              leaf.QuantityType? && kind.Quantity? && !CompoundFits(kind, dims)
    ensures var r := CheckElement(dims, n, kind, leaf); r != Err(UnboundDim) && r != Err(UnboundIndex)
  {
    hide WfDimMonomial, WfDims, Eval, FitsIn, AsBareVar, AllBound;
    if kind.Quantity? && leaf.QuantityType? && AsBareVar(kind.monomial).None? {
      EvalValue(kind.monomial, dims);
    }
  }

  // The axes of one parameter

  lemma {:induction false} AxesSound(bound: map<nat, nat>, n: nat, axes: seq<nat>, found: seq<nat>)
    requires |axes| <= |found|
    ensures var r := BindAxes(bound, n, axes, found);
            if r.Ok? then r.value == GivenAxes(bound, axes, found) && Within(bound, r.value)
                          && AxesAre(axes, found[..|axes|], r.value)
            else r.error.AxisMismatch?
    decreases |axes|
  {
    if axes != [] {
      var last := |axes| - 1;
      AxesSound(bound, n, axes[..last], found);
      var r := BindAxes(bound, n, axes, found);
      if r.Ok? {
        var before := BindAxes(bound, n, axes[..last], found).value;
        forall i | 0 <= i < |axes|
          ensures axes[i] in r.value && r.value[axes[i]] == found[i]
        {
          if i < last {
            assert axes[..last][i] == axes[i] && found[..last][i] == found[i];
          }
        }
      }
    }
  }

  lemma {:induction false} AxesComplete(bound: map<nat, nat>, n: nat, axes: seq<nat>, found: seq<nat>, g: map<nat, nat>)
    requires |axes| <= |found| && Within(bound, g)
    requires forall i :: 0 <= i < |axes| ==> axes[i] in g && g[axes[i]] == found[i]
    ensures var r := BindAxes(bound, n, axes, found); r.Ok? && Within(r.value, g)
    decreases |axes|
  {
    if axes != [] {
      var last := |axes| - 1;
      AxesComplete(bound, n, axes[..last], found, g);
    }
  }

  // One argument

  ghost predicate WalkWithin(a: Walk, b: Walk) {
    Within(a.dims, b.dims) && Within(a.axes, b.axes)
  }

  /** What a successful step establishes. */
  ghost predicate StepTyped(before: Walk, after: Walk, kind: ParamKind, arg: ArgType) {
    WfDims(after.dims) && WalkWithin(before, after) && MatchesParam(arg, kind, after)
  }

  lemma ParamSound(walk: Walk, n: nat, kind: ParamKind, arg: ArgType)
    requires WfElement(Element(kind)) && WfDims(walk.dims) && WfArg(arg) && ScalarReady(Element(kind), walk.dims)
    ensures var r := CheckParam(walk, n, kind, arg); r.Ok? ==> StepTyped(walk, r.value, kind, arg)
  {
    hide CheckElement, CheckParam, BindAxes, ScalarReady, WfElement, WfDims, WfArg, ElementInstance, CompoundFits,
         GivenDims, GivenAxes, ArrayInstance, Peel;
    ParamPeeled(walk, n, kind, arg);
    var peeled := Peel(arg, |Axes(kind)|);
    if peeled.Some? {
      var (leaf, found) := peeled.value;
      PeelWf(arg, |Axes(kind)|);
      ElementSound(walk.dims, n, Element(kind), leaf);
      AxesSound(walk.axes, n, Axes(kind), found);
      assert found[..|Axes(kind)|] == found;
      if CheckParam(walk, n, kind, arg).Ok? {
        ArrayPeeled(arg, Element(kind), Axes(kind), CheckParam(walk, n, kind, arg).value);
      }
    }
  }

  lemma ParamGiven(params: seq<Param>, args: seq<ArgType>, n: nat)
    requires n < |params| && n < |args|
    requires var kind := params[n].kind; WfElement(Element(kind)) && WfArg(args[n])
    requires var g := Given(params, args, n); WfDims(g.dims) && ScalarReady(Element(params[n].kind), g.dims)
    ensures var r := CheckParam(Given(params, args, n), n, params[n].kind, args[n]);
            r.Ok? ==> r.value == Given(params, args, n + 1)
  {
    hide CheckElement, CheckParam, BindAxes, ScalarReady, WfElement, WfDims, WfArg, ElementInstance, CompoundFits,
         GivenDims, GivenAxes, Peel;
    var walk, kind, arg := Given(params, args, n), params[n].kind, args[n];
    ParamPeeled(walk, n, kind, arg);
    var peeled := Peel(arg, |Axes(kind)|);
    if peeled.Some? {
      var (leaf, found) := peeled.value;
      PeelWf(arg, |Axes(kind)|);
      ElementSound(walk.dims, n, Element(kind), leaf);
      AxesSound(walk.axes, n, Axes(kind), found);
    }
  }

  lemma ParamComplete(walk: Walk, n: nat, kind: ParamKind, arg: ArgType, g: Walk)
    requires WfElement(Element(kind)) && WfDims(walk.dims) && ScalarReady(Element(kind), walk.dims)
    requires WfDims(g.dims) && WalkWithin(walk, g) && MatchesParam(arg, kind, g)
    ensures var r := CheckParam(walk, n, kind, arg); r.Ok? && WalkWithin(r.value, g)
  {
    hide CheckElement, CheckParam, BindAxes, ScalarReady, WfElement, WfDims, ElementInstance, CompoundFits,
         ArrayInstance, Peel, Within;
    ParamPeeled(walk, n, kind, arg);
    ArrayPeeled(arg, Element(kind), Axes(kind), g);
    var (leaf, found) := Peel(arg, |Axes(kind)|).value;
    ElementComplete(walk.dims, n, Element(kind), leaf, g.dims);
    AxesComplete(walk.axes, n, Axes(kind), found, g.axes);
  }

  lemma ParamOverflow(walk: Walk, n: nat, kind: ParamKind, arg: ArgType)
    requires WfElement(Element(kind)) && WfDims(walk.dims) && ScalarReady(Element(kind), walk.dims)
    ensures CheckParam(walk, n, kind, arg) == Err(DimensionOverflow) <==> OverflowsAt(kind, arg, walk.dims)
    ensures var r := CheckParam(walk, n, kind, arg); r != Err(UnboundDim) && r != Err(UnboundIndex)
  {
    hide CheckElement, CheckParam, BindAxes, ScalarReady, WfElement, WfDims, CompoundFits, Peel, GivenAxes;
    ParamPeeled(walk, n, kind, arg);
    var peeled := Peel(arg, |Axes(kind)|);
    if peeled.Some? {
      ElementOverflow(walk.dims, n, Element(kind), peeled.value.0);
      AxesSound(walk.axes, n, Axes(kind), peeled.value.1);
    }
  }

  // All arguments

  /** More bindings keep an instance an instance, and none is lost by leaving out
      bindings that the kind does not mention. */
  lemma InstanceWithin(t: ArgType, kind: ParamKind, a: Walk, b: Walk)
    requires WfElement(Element(kind)) && WalkWithin(a, b)
    requires Element(kind).Quantity? ==> AllBound(Element(kind).monomial, a.dims)
    requires forall x :: x in Axes(kind) ==> x in a.axes
    ensures Instance(t, kind, a) <==> Instance(t, kind, b)
    ensures CompoundFits(Element(kind), a.dims) <==> CompoundFits(Element(kind), b.dims)
  {
    hide ArrayInstance, HasValue, FitsIn, WfDimMonomial, AsBareVar, AllBound, Peel;
    var element, axes := Element(kind), Axes(kind);
    ArrayPeeled(t, element, axes, a);
    ArrayPeeled(t, element, axes, b);
    if Peel(t, |axes|).Some? {
      var (leaf, found) := Peel(t, |axes|).value;
      assert forall i :: 0 <= i < |axes| ==> axes[i] in axes;
      if element.Quantity? {
        var d := if leaf.QuantityType? then leaf.dimension else map[];
        ValueWithin(element.monomial, a.dims, b.dims, d);
      }
    } else if element.Quantity? {
      ValueWithin(element.monomial, a.dims, b.dims, map[]);
    }
  }

  lemma {:induction false} InstanceBound(t: ArgType, kind: ScalarKind, axes: seq<nat>, g: Walk)
    requires ArrayInstance(t, kind, axes, g)
    ensures kind.Quantity? ==> AllBound(kind.monomial, g.dims)
    ensures forall x :: x in axes ==> x in g.axes
    decreases |axes|
  {
    hide IsProduct, WfDimMonomial;
    if axes != [] {
      InstanceBound(t.element, kind, axes[1..], g);
    }
  }

  lemma MatchesMore(arg: ArgType, kind: ParamKind, a: Walk, b: Walk)
    requires WfElement(Element(kind)) && WalkWithin(a, b) && MatchesParam(arg, kind, a)
    ensures MatchesParam(arg, kind, b)
  {
    hide ArrayInstance, CompoundFits, WfElement, Within;
    InstanceBound(arg, Element(kind), Axes(kind), a);
    InstanceWithin(arg, kind, a, b);
  }

  lemma WfElements(s: Signature, i: nat)
    requires ValidSignature(s) && i < |s.params|
    ensures WfElement(Element(s.params[i].kind))
  {
    assert WfKind(s.params[i].kind, |s.dims|, |s.indexes|);
  }

  /** A walk that succeeds has found what the arguments give, and every argument
      so far is an instance of its parameter. */
  ghost predicate WalkTyped(s: Signature, args: seq<ArgType>, n: nat, walk: Walk)
    requires n <= |s.params| && n <= |args|
  {
    && walk == Given(s.params, args, n) && Matches(s.params, args, n, walk)
    && Covers(walk, s.params[..n])
  }

  lemma {:induction false} WalkSound(s: Signature, args: seq<ArgType>, n: nat)
    requires ValidSignature(s) && WfArgs(args) && n <= |s.params| && n <= |args|
    ensures var r := CheckParams(s.params, args, n); r.Ok? ==> WalkTyped(s, args, n, r.value)
    decreases n
  {
    hide CheckParam, ValidSignature, Covers, MatchesParam, WfArg, Given, WfElement, ScalarReady, WalkWithin;
    WalkCovers(s.params, args, n);
    if n == 0 {
      NothingGiven(s.params, args);
    } else if CheckParams(s.params, args, n).Ok? {
      WalkSound(s, args, n - 1);
      var before, after := CheckParams(s.params, args, n - 1).value, CheckParams(s.params, args, n).value;
      var kind := s.params[n - 1].kind;
      ReadyFor(s, before, n - 1);
      ParamSound(before, n - 1, kind, args[n - 1]);
      ParamGiven(s.params, args, n - 1);
      forall i | 0 <= i < n - 1
        ensures MatchesParam(args[i], s.params[i].kind, after)
      {
        WfElements(s, i);
        MatchesMore(args[i], s.params[i].kind, before, after);
      }
    }
  }

  lemma NothingGiven(params: seq<Param>, args: seq<ArgType>)
    ensures Given(params, args, 0) == Walk(map[], map[])
  {
  }

  /** Arguments that are instances under any bindings pass, and give no more than
      those bindings. */
  lemma {:induction false} WalkComplete(s: Signature, args: seq<ArgType>, n: nat, g: Walk)
    requires ValidSignature(s) && WfArgs(args) && n <= |s.params| && n <= |args|
    requires Matches(s.params, args, n, g)
    ensures var r := CheckParams(s.params, args, n); r.Ok? && WalkWithin(r.value, g)
    decreases n
  {
    hide CheckParam, ValidSignature, Covers, MatchesParam, WfArg, WfDims, WfElement, ScalarReady;
    if n > 0 {
      WalkComplete(s, args, n - 1, g);
      WalkCovers(s.params, args, n - 1);
      var before := CheckParams(s.params, args, n - 1).value;
      CoveredWf(before, s.params[..n - 1]);
      ReadyFor(s, before, n - 1);
      ParamComplete(before, n - 1, s.params[n - 1].kind, args[n - 1], g);
    }
  }

  lemma PassesIffMatches(s: Signature, args: seq<ArgType>, n: nat)
    requires ValidSignature(s) && WfArgs(args) && n <= |s.params| && n <= |args|
    ensures CheckParams(s.params, args, n).Ok? <==> Matches(s.params, args, n, Given(s.params, args, n))
    ensures var r := CheckParams(s.params, args, n); r.Ok? ==> WalkTyped(s, args, n, r.value)
  {
    hide CheckParams, ValidSignature, Matches, Given, WalkWithin, Covers, WfArgs;
    WalkSound(s, args, n);
    if Matches(s.params, args, n, Given(s.params, args, n)) {
      WalkComplete(s, args, n, Given(s.params, args, n));
    }
  }

  // Overflow in the arguments

  lemma OneOverflow(s: Signature, args: seq<ArgType>, n: nat)
    requires ValidSignature(s) && WfArgs(args) && n < |s.params| && n < |args|
    requires CheckParams(s.params, args, n).Ok?
    ensures var r := CheckParams(s.params, args, n + 1);
            && (r == Err(DimensionOverflow) <==> OverflowsParam(s, args, n))
            && r != Err(UnboundDim) && r != Err(UnboundIndex)
  {
    hide CheckParam, ValidSignature, Covers, Matches, WfArgs, Given, WfElement, ScalarReady, OverflowsAt;
    PassesIffMatches(s, args, n);
    var walk := CheckParams(s.params, args, n).value;
    CoveredWf(walk, s.params[..n]);
    ReadyFor(s, walk, n);
    ParamOverflow(walk, n, s.params[n].kind, args[n]);
  }

  lemma {:induction false} ParamsOverflow(s: Signature, args: seq<ArgType>, n: nat)
    requires ValidSignature(s) && WfArgs(args) && n <= |s.params| && n <= |args|
    ensures var r := CheckParams(s.params, args, n);
            && (r == Err(DimensionOverflow) <==> exists k: nat :: k < n && OverflowsParam(s, args, k))
            && r != Err(UnboundDim) && r != Err(UnboundIndex)
    decreases n
  {
    hide CheckParam, ValidSignature, WfArgs, OverflowsParam;
    if n > 0 {
      ParamsOverflow(s, args, n - 1);
      if CheckParams(s.params, args, n - 1).Ok? {
        OneOverflow(s, args, n - 1);
      } else {
        MatchedBefore(s, args, n - 1);
      }
    }
  }

  lemma MatchedBefore(s: Signature, args: seq<ArgType>, n: nat)
    requires ValidSignature(s) && WfArgs(args) && n < |s.params| && n < |args|
    ensures OverflowsParam(s, args, n) ==> CheckParams(s.params, args, n).Ok?
  {
    hide CheckParams, ValidSignature, WfArgs, Matches, Given, OverflowsAt, WalkTyped;
    PassesIffMatches(s, args, n);
  }

  // The result

  lemma ElementUnique(x: ArgType, y: ArgType, kind: ScalarKind, dims: map<nat, Monomial>)
    requires ElementInstance(x, kind, dims) && ElementInstance(y, kind, dims)
    ensures x == y
  {
    hide HasValue;
    if kind.Quantity? {
      ValueUnique(kind.monomial, dims, x.dimension, y.dimension);
    }
  }

  lemma {:induction false} WrapInstance(leaf: ArgType, kind: ScalarKind, g: Walk, axes: seq<nat>, t: ArgType)
    requires ElementInstance(leaf, kind, g.dims) && forall x :: x in axes ==> x in g.axes
    ensures WrapAxes(leaf, g.axes, axes).Ok?
    ensures ArrayInstance(t, kind, axes, g) <==> t == WrapAxes(leaf, g.axes, axes).value
    decreases |axes|
  {
    hide ElementInstance;
    if axes == [] {
      if ElementInstance(t, kind, g.dims) {
        ElementUnique(t, leaf, kind, g.dims);
      }
    } else {
      assert axes[0] in axes;
      WrapInstance(leaf, kind, g, axes[1..], if t.IndexedType? then t.element else t);
    }
  }

  lemma LeafTyped(kind: ScalarKind, dims: map<nat, Monomial>)
    requires WfElement(kind) && WfDims(dims) && (kind.Quantity? ==> AllBound(kind.monomial, dims))
    ensures ScalarType(dims, kind).Ok? <==> (kind.Quantity? ==> FitsIn(kind.monomial, dims))
    ensures if ScalarType(dims, kind).Ok? then ElementInstance(ScalarType(dims, kind).value, kind, dims)
            else ScalarType(dims, kind).error == DimensionOverflow
  {
    hide WfDimMonomial, WfDims, Eval, FitsIn, HasValue, AllBound;
    if kind.Quantity? {
      EvalValue(kind.monomial, dims);
    }
  }

  /** Once all arguments match, the result has exactly the type of its kind, or
      its monomial overflows. */
  lemma ResultTyped(s: Signature, walk: Walk, t: ArgType)
    requires ValidSignature(s) && Covers(walk, s.params)
    ensures ResultType(walk, s.result) == Ok(t) <==>
            ResultInstance(t, s.result, walk) && ResultFits(s.result, walk.dims)
    ensures ResultType(walk, s.result) == Err(DimensionOverflow) <==> !ResultFits(s.result, walk.dims)
    ensures ResultType(walk, s.result).Err? ==> ResultType(walk, s.result).error == DimensionOverflow
  {
    hide ValidSignature, Covers, WfDims, WfElement, ScalarType, WrapAxes, ElementInstance, ArrayInstance, FitsIn,
         AllBound;
    CoveredWf(walk, s.params);
    if s.result.Value? {
      var kind := s.result.kind;
      ResultBound(s, walk);
      LeafTyped(Element(kind), walk.dims);
      if ScalarType(walk.dims, Element(kind)).Ok? {
        WrapInstance(ScalarType(walk.dims, Element(kind)).value, Element(kind), walk, Axes(kind), t);
      }
    }
  }

  /** The result's type does not depend on bindings beyond the walk's. */
  lemma ResultWithin(s: Signature, walk: Walk, g: Walk, t: ArgType)
    requires ValidSignature(s) && Covers(walk, s.params) && WalkWithin(walk, g)
    ensures ResultInstance(t, s.result, walk) <==> ResultInstance(t, s.result, g)
    ensures ResultFits(s.result, walk.dims) <==> ResultFits(s.result, g.dims)
  {
    hide ValidSignature, Covers, WfDimMonomial, Within, Instance, FitsIn, AllBound;
    if s.result.Value? {
      var kind := s.result.kind;
      ResultBound(s, walk);
      InstanceWithin(t, kind, walk, g);
      if Element(kind).Quantity? {
        ValueWithin(Element(kind).monomial, walk.dims, g.dims, map[]);
      }
    }
  }

  // Whole calls

  /** The call checker answers `t` exactly when the call has type `t`. */
  lemma CallTypeExact(s: Signature, args: seq<ArgType>, t: ArgType)
    requires ValidSignature(s) && WfArgs(args)
    ensures CallType(s, args) == Ok(t) <==> HasType(s, args, t)
  {
    hide ValidSignature, WfArgs, CheckParams, ResultType, Given, Matches, ResultInstance, ResultFits, Covers,
         WalkWithin;
    if |args| == |s.params| {
      var n := |args|;
      assert s.params[..n] == s.params;
      PassesIffMatches(s, args, n);
      if CheckParams(s.params, args, n).Ok? {
        var walk := CheckParams(s.params, args, n).value;
        ResultTyped(s, walk, t);
        if CallType(s, args) == Ok(t) {
          assert TypedBy(s, args, t, walk);
        }
      }
      if HasType(s, args, t) {
        var g :| TypedBy(s, args, t, g);
        WalkComplete(s, args, n, g);
        ResultWithin(s, CheckParams(s.params, args, n).value, g, t);
      }
    }
  }

  /** The call checker reports an overflow exactly when the arguments cause one. */
  lemma OverflowExact(s: Signature, args: seq<ArgType>)
    requires ValidSignature(s) && WfArgs(args)
    ensures CallType(s, args) == Err(DimensionOverflow) <==> Overflows(s, args)
  {
    hide ValidSignature, WfArgs, CheckParams, ResultType, Given, Matches, OverflowsParam, ResultFits, Covers;
    if |args| == |s.params| {
      var n := |args|;
      assert s.params[..n] == s.params;
      PassesIffMatches(s, args, n);
      ParamsOverflow(s, args, n);
      if CheckParams(s.params, args, n).Ok? {
        ResultTyped(s, CheckParams(s.params, args, n).value, BoolType);
      }
    }
  }

  /** The two internal errors never arise: left-to-right evaluation meets no
      unbound dimension and no unbound index. */
  lemma CallNeverUnbound(s: Signature, args: seq<ArgType>)
    requires ValidSignature(s) && WfArgs(args)
    ensures CallType(s, args) != Err(UnboundDim) && CallType(s, args) != Err(UnboundIndex)
  {
    hide ValidSignature, WfArgs, CheckParams, ResultType, Given, Matches, OverflowsParam, ResultFits, Covers;
    if |args| == |s.params| {
      var n := |args|;
      assert s.params[..n] == s.params;
      PassesIffMatches(s, args, n);
      ParamsOverflow(s, args, n);
      if CheckParams(s.params, args, n).Ok? {
        ResultTyped(s, CheckParams(s.params, args, n).value, BoolType);
      }
    }
  }

  // What the arguments give

  /** Parameter `i` shows `v` bare and its argument has a quantity there. */
  predicate Gives(params: seq<Param>, args: seq<ArgType>, i: nat, v: nat)
    requires i < |params| && i < |args|
  {
    var leaf := Peel(args[i], |Axes(params[i].kind)|);
    Binds(params[i].kind, v) && leaf.Some? && leaf.value.0.QuantityType?
  }

  /** A variable's dimension is that of the first argument at a bare occurrence. */
  lemma {:induction false} GivenIsFirst(params: seq<Param>, args: seq<ArgType>, n: nat, v: nat)
    requires n <= |params| && n <= |args|
    ensures var dims := Given(params, args, n).dims;
            if v in dims then
              exists i: nat :: i < n && Gives(params, args, i, v)
                && dims[v] == Peel(args[i], |Axes(params[i].kind)|).value.0.dimension
                && forall j: nat :: j < i ==> !Gives(params, args, j, v)
            else forall j: nat :: j < n ==> !Gives(params, args, j, v)
    decreases n
  {
    hide Peel, AsBareVar;
    if n > 0 {
      GivenIsFirst(params, args, n - 1, v);
    }
  }
}
