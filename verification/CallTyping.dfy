/** Typing a call against a signature: bare variables are bound by arguments
    from left to right, compound monomials are evaluated and compared. */
module CallTyping {
  import opened Outcomes
  import opened Ratios
  import opened Monomials
  import opened Signatures

  datatype ArgType =
    | QuantityType(dimension: Monomial)
    | BoolType
    | IntType
    | IndexedType(element: ArgType, index: nat)
    | StructType(record: nat)
    | OtherType(tag: nat)

  datatype CallError =
    | WrongArity(arity: nat, got: nat)
    | KindMismatch(param: nat)
    | DimensionMismatch(param: nat, expected: Monomial, found: Monomial)
    | AxisMismatch(param: nat, axis: nat, boundTo: nat, index: nat)
    | DimensionOverflow
    | UnboundDim
    | UnboundIndex

  // Evaluating a monomial

  datatype EvalError = UnboundVar(v: nat) | ExponentOverflow

  function Times(acc: Monomial, base: Monomial, exponent: Ratio): Result<Monomial, EvalError> {
    match TryPow(base, exponent)
    case Err(_) => Err(ExponentOverflow)
    case Ok(powered) =>
      match TryMul(acc, powered)
      case Err(_) => Err(ExponentOverflow)
      case Ok(product) => Ok(product)
  }

  /** The fixed factor times the powers of the bound variables `keys`. */
  function EvalKeys(m: DimMonomial, dims: map<nat, Monomial>, keys: seq<nat>): Result<Monomial, EvalError>
    requires forall k :: k in keys ==> k in m.vars
    decreases |keys|
  {
    if keys == [] then Ok(m.fixed)
    else
      var last := |keys| - 1;
      match EvalKeys(m, dims, keys[..last])
      case Err(error) => Err(error)
      case Ok(acc) =>
        if keys[last] !in dims then Err(UnboundVar(keys[last]))
        else Times(acc, dims[keys[last]], m.vars[keys[last]])
  }

  function Eval(m: DimMonomial, dims: map<nat, Monomial>): Result<Monomial, EvalError> {
    EvalKeys(m, dims, InOrder(m.vars.Keys))
  }

  lemma EvalNone(m: DimMonomial, dims: map<nat, Monomial>)
    ensures EvalKeys(m, dims, []) == Ok(m.fixed)
  {
  }

  lemma EvalNext(m: DimMonomial, dims: map<nat, Monomial>, keys: seq<nat>, i: nat, acc: Monomial)
    requires (forall k :: k in keys ==> k in m.vars) && i < |keys| && EvalKeys(m, dims, keys[..i]) == Ok(acc)
    ensures keys[i] in m.vars
    ensures EvalKeys(m, dims, keys[..i + 1]) ==
            if keys[i] !in dims then Err(UnboundVar(keys[i])) else Times(acc, dims[keys[i]], m.vars[keys[i]])
  {
    hide Times;
    assert keys[i] in keys && keys[..i + 1][..i] == keys[..i];
  }

  /** The dimension of `m` when each variable has its bound dimension. */
  method Evaluate(m: DimMonomial, dims: map<nat, Monomial>) returns (r: Result<Monomial, EvalError>)
    ensures r == Eval(m, dims)
  {
    hide EvalKeys, Times;
    var keys := InOrder(m.vars.Keys);
    var result := m.fixed;
    EvalNone(m, dims);
    assert keys[..0] == [];
    for i := 0 to |keys|
      invariant EvalKeys(m, dims, keys[..i]) == Ok(result)
    {
      EvalNext(m, dims, keys, i, result);
      if keys[i] !in dims {
        EvalStops(m, dims, keys, i + 1);
        return Err(UnboundVar(keys[i]));
      }
      match Times(result, dims[keys[i]], m.vars[keys[i]]) {
        case Err(error) =>
          EvalStops(m, dims, keys, i + 1);
          return Err(error);
        case Ok(product) =>
          result := product;
      }
    }
    assert keys[..|keys|] == keys;
    r := Ok(result);
  }

  lemma {:induction false} EvalStops(m: DimMonomial, dims: map<nat, Monomial>, keys: seq<nat>, n: nat)
    requires (forall k :: k in keys ==> k in m.vars) && n <= |keys| && EvalKeys(m, dims, keys[..n]).Err?
    ensures EvalKeys(m, dims, keys) == EvalKeys(m, dims, keys[..n])
    decreases |keys|
  {
    if n == |keys| {
      assert keys[..n] == keys;
    } else {
      var last := |keys| - 1;
      assert keys[..last][..n] == keys[..n];
      EvalStops(m, dims, keys[..last], n);
    }
  }

  // Checking one argument

  datatype Walk = Walk(dims: map<nat, Monomial>, axes: map<nat, nat>)

  function CheckQuantity(dims: map<nat, Monomial>, param: nat, m: DimMonomial, found: Monomial)
    : Result<map<nat, Monomial>, CallError>
  {
    match AsBareVar(m)
    case Some(v) =>
      if v !in dims then Ok(dims[v := found])
      else if found != dims[v] then Err(DimensionMismatch(param, dims[v], found))
      else Ok(dims)
    case None =>
      match Eval(m, dims)
      case Err(UnboundVar(_)) => Err(UnboundDim)
      case Err(ExponentOverflow) => Err(DimensionOverflow)
      case Ok(expected) => if found != expected then Err(DimensionMismatch(param, expected, found)) else Ok(dims)
  }

  function CheckElement(dims: map<nat, Monomial>, param: nat, kind: ScalarKind, arg: ArgType)
    : Result<map<nat, Monomial>, CallError>
  {
    match (kind, arg)
    case (BoolKind, BoolType) => Ok(dims)
    case (IntKind, IntType) => Ok(dims)
    case (Quantity(m), QuantityType(found)) => CheckQuantity(dims, param, m, found)
    case _ => Err(KindMismatch(param))
  }

  /** The element type and the axes, outermost first, of a `rank`-fold array. */
  function Peel(arg: ArgType, rank: nat): (r: Option<(ArgType, seq<nat>)>)
    ensures r.Some? ==> |r.value.1| == rank
    decreases rank
  {
    if rank == 0 then Some((arg, []))
    else if !arg.IndexedType? then None
    else
      match Peel(arg.element, rank - 1)
      case None => None
      case Some(inner) => Some((inner.0, [arg.index] + inner.1))
  }

  function BindAxis(bound: map<nat, nat>, param: nat, axis: nat, x: nat, found: nat): Result<map<nat, nat>, CallError> {
    if x !in bound then Ok(bound[x := found])
    else if bound[x] != found then Err(AxisMismatch(param, axis, bound[x], found))
    else Ok(bound)
  }

  function BindAxes(bound: map<nat, nat>, param: nat, axes: seq<nat>, found: seq<nat>): Result<map<nat, nat>, CallError>
    requires |axes| <= |found|
    decreases |axes|
  {
    if axes == [] then Ok(bound)
    else
      var last := |axes| - 1;
      match BindAxes(bound, param, axes[..last], found)
      case Err(error) => Err(error)
      case Ok(before) => BindAxis(before, param, last, axes[last], found[last])
  }

  function CheckParam(walk: Walk, param: nat, kind: ParamKind, arg: ArgType): Result<Walk, CallError> {
    match kind
    case Scalar(scalar) =>
      (match CheckElement(walk.dims, param, scalar, arg)
       case Err(error) => Err(error)
       case Ok(dims) => Ok(walk.(dims := dims)))
    case Indexed(element, axes) =>
      match Peel(arg, |axes|)
      case None => Err(KindMismatch(param))
      case Some((inner, found)) =>
        match CheckElement(walk.dims, param, element, inner)
        case Err(error) => Err(error)
        case Ok(dims) =>
          match BindAxes(walk.axes, param, axes, found)
          case Err(error) => Err(error)
          case Ok(bound) => Ok(Walk(dims, bound))
  }

  /** The bindings after the first `n` arguments. */
  function CheckParams(params: seq<Param>, args: seq<ArgType>, n: nat): Result<Walk, CallError>
    requires n <= |params| && n <= |args|
    decreases n
  {
    if n == 0 then Ok(Walk(map[], map[]))
    else
      match CheckParams(params, args, n - 1)
      case Err(error) => Err(error)
      case Ok(walk) => CheckParam(walk, n - 1, params[n - 1].kind, args[n - 1])
  }

  // The result type

  function ScalarType(dims: map<nat, Monomial>, kind: ScalarKind): Result<ArgType, CallError> {
    match kind
    case BoolKind => Ok(BoolType)
    case IntKind => Ok(IntType)
    case Quantity(m) =>
      match Eval(m, dims)
      case Err(UnboundVar(_)) => Err(UnboundDim)
      case Err(ExponentOverflow) => Err(DimensionOverflow)
      case Ok(dimension) => Ok(QuantityType(dimension))
  }

  function WrapAxes(leaf: ArgType, bound: map<nat, nat>, axes: seq<nat>): Result<ArgType, CallError>
    decreases |axes|
  {
    if axes == [] then Ok(leaf)
    else
      match WrapAxes(leaf, bound, axes[1..])
      case Err(error) => Err(error)
      case Ok(element) => if axes[0] in bound then Ok(IndexedType(element, bound[axes[0]])) else Err(UnboundIndex)
  }

  function ResultType(walk: Walk, result: ResultKind): Result<ArgType, CallError> {
    match result
    case Struct(record, _) => Ok(StructType(record))
    case Value(kind) =>
      match ScalarType(walk.dims, Element(kind))
      case Err(error) => Err(error)
      case Ok(leaf) => WrapAxes(leaf, walk.axes, Axes(kind))
  }

  function CallType(s: Signature, args: seq<ArgType>): Result<ArgType, CallError> {
    if |args| != |s.params| then Err(WrongArity(|s.params|, |args|))
    else
      match CheckParams(s.params, args, |args|)
      case Err(error) => Err(error)
      case Ok(walk) => ResultType(walk, s.result)
  }
}
