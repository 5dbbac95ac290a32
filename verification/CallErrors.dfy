/** Which error a call is answered with, and why: every error stated by what the
    arguments give and where they stop matching. */
module CallErrors {
  import opened Outcomes
  import opened Monomials
  import opened Signatures
  import opened CallTyping
  import opened MonomialValues
  import opened CallMeaning

  /** The argument has the axes of the parameter and a leaf of the right sort. */
  predicate ShapeFits(kind: ParamKind, arg: ArgType) {
    var peeled := Peel(arg, |Axes(kind)|);
    && peeled.Some?
    && match Element(kind)
       case BoolKind => peeled.value.0 == BoolType
       case IntKind => peeled.value.0 == IntType
       case Quantity(_) => peeled.value.0.QuantityType?
  }

  /** A bare variable expects the dimension it was given, a compound monomial its
      value. */
  ghost predicate Expects(m: DimMonomial, dims: map<nat, Monomial>, d: Monomial) {
    match AsBareVar(m)
    case Some(v) => v in dims && dims[v] == d
    case None => HasValue(m, dims, d) && FitsIn(m, dims)
  }

  ghost predicate WrongDimension(g: Walk, kind: ParamKind, arg: ArgType, expected: Monomial, found: Monomial) {
    && ShapeFits(kind, arg) && Element(kind).Quantity?
    && Peel(arg, |Axes(kind)|).value.0 == QuantityType(found)
    && Expects(Element(kind).monomial, g.dims, expected) && expected != found
  }

  /** The leaf is an instance, the axes before `axis` agree with what is given,
      and the variable of `axis` was given another index. */
  ghost predicate WrongAxis(g: Walk, kind: ParamKind, arg: ArgType, axis: nat, boundTo: nat, index: nat) {
    && ShapeFits(kind, arg) && axis < |Axes(kind)|
    && var (leaf, found) := Peel(arg, |Axes(kind)|).value;
       var dims := GivenDims(g.dims, Element(kind), leaf);
       var seen := GivenAxes(g.axes, Axes(kind)[..axis], found);
       && ElementInstance(leaf, Element(kind), dims) && CompoundFits(Element(kind), dims)
       && AxesAre(Axes(kind)[..axis], found[..axis], seen)
       && Axes(kind)[axis] in seen && seen[Axes(kind)[axis]] == boundTo
       && found[axis] == index && boundTo != index
  }

  /** The arguments before the `n`th match their parameters. */
  ghost predicate MatchBefore(s: Signature, args: seq<ArgType>, n: nat) {
    && |args| == |s.params| && n < |args|
    && Matches(s.params, args, n, Given(s.params, args, n))
  }

  /** What it takes to be answered with `e`. */
  ghost predicate Causes(s: Signature, args: seq<ArgType>, e: CallError) {
    match e
    case WrongArity(arity, got) => |args| != |s.params| && arity == |s.params| && got == |args|
    case KindMismatch(n) => MatchBefore(s, args, n) && !ShapeFits(s.params[n].kind, args[n])
    case DimensionMismatch(n, expected, found) =>
      MatchBefore(s, args, n) && WrongDimension(Given(s.params, args, n), s.params[n].kind, args[n], expected, found)
    case AxisMismatch(n, axis, boundTo, index) =>
      MatchBefore(s, args, n) && WrongAxis(Given(s.params, args, n), s.params[n].kind, args[n], axis, boundTo, index)
    case DimensionOverflow => Overflows(s, args)
    case UnboundDim => false
    case UnboundIndex => false
  }

  // One step

  /** What it takes for the step at parameter `n` to fail with `e`. */
  ghost predicate StepCauses(g: Walk, n: nat, kind: ParamKind, arg: ArgType, e: CallError) {
    match e
    case KindMismatch(k) => k == n && !ShapeFits(kind, arg)
    case DimensionMismatch(k, expected, found) => k == n && WrongDimension(g, kind, arg, expected, found)
    case AxisMismatch(k, axis, boundTo, index) => k == n && WrongAxis(g, kind, arg, axis, boundTo, index)
    case DimensionOverflow => OverflowsAt(kind, arg, g.dims)
    case _ => false
  }

  lemma QuantityError(dims: map<nat, Monomial>, n: nat, m: DimMonomial, found: Monomial, e: CallError)
    requires WfDimMonomial(m) && WfDims(dims) && Ready(m, dims) && e != DimensionOverflow
    ensures CheckQuantity(dims, n, m, found) == Err(e) <==>
              e.DimensionMismatch? && e.param == n && e.found == found && Expects(m, dims, e.expected)
              && e.expected != found
  {
    hide WfDimMonomial, Eval, HasValue, FitsIn, AsBareVar, AllBound, WfDims;
    if AsBareVar(m).None? {
      EvalValue(m, dims);
      if e.DimensionMismatch? && HasValue(m, dims, e.expected) && Eval(m, dims).Ok? {
        ValueUnique(m, dims, e.expected, Eval(m, dims).value);
      }
    }
  }

  /** Only errors of this parameter, and an overflow is one of its monomial. */
  lemma ElementError(dims: map<nat, Monomial>, n: nat, kind: ScalarKind, leaf: ArgType, e: CallError)
    requires WfElement(kind) && WfDims(dims) && ScalarReady(kind, dims) && e != DimensionOverflow
    ensures CheckElement(dims, n, kind, leaf) == Err(e) <==>
              match kind
              case BoolKind => leaf != BoolType && e == KindMismatch(n)
              case IntKind => leaf != IntType && e == KindMismatch(n)
              case Quantity(m) =>
                if !leaf.QuantityType? then e == KindMismatch(n)
                else e.DimensionMismatch? && e.param == n && e.found == leaf.dimension
                     && Expects(m, dims, e.expected) && e.expected != leaf.dimension
  {
    hide WfDimMonomial, WfDims, CheckQuantity, Expects, Ready;
    if kind.Quantity? && leaf.QuantityType? {
      QuantityError(dims, n, kind.monomial, leaf.dimension, e);
    }
  }

  lemma {:induction false} GivenAxesMore(bound: map<nat, nat>, axes: seq<nat>, found: seq<nat>)
    requires |axes| <= |found|
    ensures Within(bound, GivenAxes(bound, axes, found))
    decreases |axes|
  {
    if axes != [] {
      GivenAxesMore(bound, axes[..|axes| - 1], found);
    }
  }

  lemma AxesPass(bound: map<nat, nat>, n: nat, axes: seq<nat>, found: seq<nat>)
    requires |axes| <= |found|
    ensures var seen := GivenAxes(bound, axes, found);
            && (BindAxes(bound, n, axes, found).Ok? <==> AxesAre(axes, found[..|axes|], seen))
            && (BindAxes(bound, n, axes, found).Ok? ==> BindAxes(bound, n, axes, found).value == seen)
  {
    hide BindAxes, GivenAxes, Within;
    var seen := GivenAxes(bound, axes, found);
    AxesSound(bound, n, axes, found);
    if AxesAre(axes, found[..|axes|], seen) {
      GivenAxesMore(bound, axes, found);
      AxesComplete(bound, n, axes, found, seen);
    }
  }

  /** Binding axes fails at the first one that disagrees. */
  lemma {:induction false} AxesError(bound: map<nat, nat>, n: nat, axes: seq<nat>, found: seq<nat>, e: CallError)
    requires |axes| <= |found|
    ensures BindAxes(bound, n, axes, found) == Err(e) <==>
              && e.AxisMismatch? && e.param == n && e.axis < |axes|
              && BindAxes(bound, n, axes[..e.axis], found).Ok?
              && BindAxis(BindAxes(bound, n, axes[..e.axis], found).value, n, e.axis, axes[e.axis], found[e.axis])
                 == Err(e)
    decreases |axes|
  {
    if axes != [] {
      var last := |axes| - 1;
      AxesError(bound, n, axes[..last], found, e);
      if e.AxisMismatch? && e.axis <= last {
        assert axes[..last][..e.axis] == axes[..e.axis];
        if e.axis < last && BindAxes(bound, n, axes[..e.axis], found).Ok?
           && BindAxis(BindAxes(bound, n, axes[..e.axis], found).value, n, e.axis, axes[e.axis], found[e.axis])
              == Err(e) {
          assert axes[..last][e.axis] == axes[e.axis];
        }
      }
    }
  }

  lemma AxesErrorGiven(bound: map<nat, nat>, n: nat, axes: seq<nat>, found: seq<nat>, e: CallError)
    requires |axes| <= |found|
    ensures BindAxes(bound, n, axes, found) == Err(e) <==>
              && e.AxisMismatch? && e.param == n && e.axis < |axes|
              && var seen := GivenAxes(bound, axes[..e.axis], found);
                 && AxesAre(axes[..e.axis], found[..e.axis], seen) && axes[e.axis] in seen
                 && seen[axes[e.axis]] == e.boundTo && found[e.axis] == e.index && e.boundTo != e.index
  {
    hide BindAxes, GivenAxes, AxesAre;
    AxesError(bound, n, axes, found, e);
    if e.AxisMismatch? && e.axis < |axes| {
      AxesPass(bound, n, axes[..e.axis], found);
    }
  }

  lemma ElementPasses(dims: map<nat, Monomial>, n: nat, kind: ScalarKind, leaf: ArgType)
    requires WfElement(kind) && WfDims(dims) && WfArg(leaf) && ScalarReady(kind, dims)
    ensures var given := GivenDims(dims, kind, leaf);
            CheckElement(dims, n, kind, leaf).Ok? <==> ElementInstance(leaf, kind, given) && CompoundFits(kind, given)
  {
    hide WfElement, ScalarReady, CheckElement, ElementInstance, CompoundFits, GivenDims, WfDims;
    ElementSound(dims, n, kind, leaf);
    var given := GivenDims(dims, kind, leaf);
    if ElementInstance(leaf, kind, given) && CompoundFits(kind, given) {
      GivenDimsMore(dims, kind, leaf);
      ElementComplete(dims, n, kind, leaf, given);
    }
  }

  lemma GivenDimsMore(dims: map<nat, Monomial>, kind: ScalarKind, leaf: ArgType)
    requires WfDims(dims) && WfArg(leaf)
    ensures Within(dims, GivenDims(dims, kind, leaf)) && WfDims(GivenDims(dims, kind, leaf))
  {
    hide AsBareVar, WfMonomial;
  }

  /** A leaf of the wrong sort is no instance. */
  lemma InstanceShape(kind: ParamKind, arg: ArgType, dims: map<nat, Monomial>)
    requires Peel(arg, |Axes(kind)|).Some?
    requires ElementInstance(Peel(arg, |Axes(kind)|).value.0, Element(kind), dims)
    ensures ShapeFits(kind, arg)
  {
  }

  lemma ParamError(walk: Walk, n: nat, kind: ParamKind, arg: ArgType, e: CallError)
    requires WfElement(Element(kind)) && WfDims(walk.dims) && WfArg(arg) && ScalarReady(Element(kind), walk.dims)
    ensures CheckParam(walk, n, kind, arg) == Err(e) <==> StepCauses(walk, n, kind, arg, e)
  {
    hide CheckElement, CheckParam, BindAxes, ScalarReady, WfElement, WfDims, WfArg, CompoundFits, Peel, GivenAxes,
         GivenDims, AxesAre, Expects, OverflowsAt, ElementInstance;
    ParamPeeled(walk, n, kind, arg);
    ParamOverflow(walk, n, kind, arg);
    var peeled := Peel(arg, |Axes(kind)|);
    if peeled.Some? && e != DimensionOverflow {
      var (leaf, found) := peeled.value;
      PeelWf(arg, |Axes(kind)|);
      ElementError(walk.dims, n, Element(kind), leaf, e);
      ElementPasses(walk.dims, n, Element(kind), leaf);
      AxesErrorGiven(walk.axes, n, Axes(kind), found, e);
      ElementSound(walk.dims, n, Element(kind), leaf);
      if CheckElement(walk.dims, n, Element(kind), leaf).Ok? {
        InstanceShape(kind, arg, GivenDims(walk.dims, Element(kind), leaf));
      }
    }
  }

  // All steps

  lemma StepError(s: Signature, args: seq<ArgType>, n: nat, e: CallError)
    requires ValidSignature(s) && WfArgs(args) && n < |s.params| && n < |args| && CheckParams(s.params, args, n).Ok?
    ensures CheckParams(s.params, args, n + 1) == Err(e) <==>
              StepCauses(Given(s.params, args, n), n, s.params[n].kind, args[n], e)
  {
    hide CheckParam, ValidSignature, Covers, Matches, WfArg, Given, WfElement, ScalarReady, StepCauses;
    PassesIffMatches(s, args, n);
    var walk := CheckParams(s.params, args, n).value;
    CoveredWf(walk, s.params[..n]);
    ReadyFor(s, walk, n);
    ParamError(walk, n, s.params[n].kind, args[n], e);
  }

  /** The walk fails at the first step that does. */
  lemma {:induction false} WalkError(s: Signature, args: seq<ArgType>, n: nat, e: CallError)
    requires ValidSignature(s) && WfArgs(args) && n <= |s.params| && n <= |args|
    ensures CheckParams(s.params, args, n) == Err(e) <==>
              exists k: nat :: k < n && Matches(s.params, args, k, Given(s.params, args, k))
                               && StepCauses(Given(s.params, args, k), k, s.params[k].kind, args[k], e)
    decreases n
  {
    hide CheckParam, ValidSignature, Matches, WfArgs, Given, StepCauses, WalkTyped;
    if n > 0 {
      WalkError(s, args, n - 1, e);
      PassesIffMatches(s, args, n - 1);
      if CheckParams(s.params, args, n - 1).Ok? {
        StepError(s, args, n - 1, e);
        forall k: nat | k < n - 1 && Matches(s.params, args, k, Given(s.params, args, k))
          ensures !StepCauses(Given(s.params, args, k), k, s.params[k].kind, args[k], e)
        {
          assert CheckParams(s.params, args, n - 1) != Err(e);
        }
      }
    }
  }

  lemma {:induction false} ResultError(s: Signature, args: seq<ArgType>, e: CallError)
    requires ValidSignature(s) && WfArgs(args) && |args| == |s.params| && CheckParams(s.params, args, |args|).Ok?
    ensures CallType(s, args) == Err(e) ==> e == DimensionOverflow
  {
    hide ValidSignature, WfArgs, CheckParams, ResultType, Given, Matches, ResultFits, Covers;
    assert s.params[..|args|] == s.params;
    PassesIffMatches(s, args, |args|);
    ResultTyped(s, CheckParams(s.params, args, |args|).value, BoolType);
  }

  /** A call is answered with an error exactly when it is caused. */
  lemma CallErrorExact(s: Signature, args: seq<ArgType>, e: CallError)
    requires ValidSignature(s) && WfArgs(args)
    ensures CallType(s, args) == Err(e) <==> Causes(s, args, e)
  {
    hide ValidSignature, WfArgs, CheckParams, ResultType, Given, Matches, WrongDimension, WrongAxis, ShapeFits,
         Overflows;
    if e == DimensionOverflow {
      OverflowExact(s, args);
    } else if |args| == |s.params| {
      WalkError(s, args, |args|, e);
      if CheckParams(s.params, args, |args|).Ok? {
        ResultError(s, args, e);
      }
    }
  }

  /** The call checker: one pass over the arguments, then the result. On a valid
      signature it answers a type exactly when the call has that type, and an
      error exactly when the arguments cause it. */
  method CheckCall(s: Signature, args: seq<ArgType>) returns (r: Result<ArgType, CallError>)
    ensures r == CallType(s, args)
    ensures ValidSignature(s) && WfArgs(args) ==>
              && (forall t :: r == Ok(t) <==> HasType(s, args, t))
              && (forall e :: r == Err(e) <==> Causes(s, args, e))
  {
    hide ValidSignature, WfArgs, HasType, Causes, CheckParam, ResultType;
    if ValidSignature(s) && WfArgs(args) {
      forall t
        ensures CallType(s, args) == Ok(t) <==> HasType(s, args, t)
      {
        CallTypeExact(s, args, t);
      }
      forall e
        ensures CallType(s, args) == Err(e) <==> Causes(s, args, e)
      {
        CallErrorExact(s, args, e);
      }
    }
    if |args| != |s.params| {
      return Err(WrongArity(|s.params|, |args|));
    }
    var walk := Walk(map[], map[]);
    for i := 0 to |args|
      invariant CheckParams(s.params, args, i) == Ok(walk)
    {
      match CheckParam(walk, i, s.params[i].kind, args[i]) {
        case Err(error) =>
          CheckStops(s.params, args, i + 1, |args|);
          return Err(error);
        case Ok(next) =>
          walk := next;
      }
    }
    r := ResultType(walk, s.result);
  }

  lemma {:induction false} CheckStops(params: seq<Param>, args: seq<ArgType>, n: nat, end: nat)
    requires n <= end <= |params| && end <= |args| && CheckParams(params, args, n).Err?
    ensures CheckParams(params, args, end) == CheckParams(params, args, n)
    decreases end
  {
    if n < end {
      CheckStops(params, args, n, end - 1);
    }
  }
}
