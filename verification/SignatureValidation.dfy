/** Validation: resolve binder names to positions and check that variables are
    declared, bound before compound use, and used. A signature as written is a
    `Signature` whose kinds mention names instead of positions. */
module SignatureValidation {
  import opened Outcomes
  import opened Digraph
  import opened Ratios
  import opened Monomials
  import opened Signatures

  datatype SignatureError =
    | DuplicateDimVar(name: nat)
    | DuplicateIndexVar(name: nat)
    | DuplicateParamName(name: nat, first: nat, duplicate: nat)
    | UndeclaredDimVar(name: nat)
    | UndeclaredIndexVar(name: nat)
    | ZeroExponent(name: nat)
    | DuplicateMonomialVar(name: nat)
    | UseBeforeBinding(name: nat, param: nat)
    | UnboundResultIndexVar(name: nat)
    | UnboundResultVar(name: nat)
    | DimVarNeverBound(name: nat)
    | IndexVarNeverUsed(name: nat)

  // Resolving names

  /** The first position of `name`. */
  function Position(names: seq<nat>, name: nat): (r: Option<nat>)
    ensures r.Some? <==> name in names
    ensures r.Some? ==> r.value < |names| && names[r.value] == name && name !in names[..r.value]
    decreases |names|
  {
    if names == [] then None
    else
      var last := |names| - 1;
      var earlier := Position(names[..last], name);
      if earlier.Some? then earlier
      else if names[last] == name then Some(last) else None
  }

  type Factor = (nat, Ratio)

  function ResolveVars(dims: seq<nat>, vars: Monomial, keys: seq<nat>): Result<seq<Factor>, SignatureError>
    requires forall k :: k in keys ==> k in vars
    decreases |keys|
  {
    if keys == [] then Ok([])
    else
      match Position(dims, keys[0])
      case None => Err(UndeclaredDimVar(keys[0]))
      case Some(position) =>
        match ResolveVars(dims, vars, keys[1..])
        case Err(error) => Err(error)
        case Ok(rest) => Ok([(position, vars[keys[0]])] + rest)
  }

  datatype FactorError = ZeroFactor(key: nat) | DuplicateKey(key: nat)

  /** Build a monomial from factors as written. */
  function TryFromFactors(acc: Monomial, factors: seq<Factor>): Result<Monomial, FactorError>
    decreases |factors|
  {
    if factors == [] then Ok(acc)
    else
      var (key, exponent) := factors[0];
      if exponent.num == 0 then Err(ZeroFactor(key))
      else if key in acc then Err(DuplicateKey(key))
      else TryFromFactors(acc[key := exponent], factors[1..])
  }

  function NameOf(dims: seq<nat>, position: nat): nat {
    if position < |dims| then dims[position] else 0
  }

  function ResolveMonomial(dims: seq<nat>, m: DimMonomial): Result<DimMonomial, SignatureError> {
    match ResolveVars(dims, m.vars, InOrder(m.vars.Keys))
    case Err(error) => Err(error)
    case Ok(factors) =>
      match TryFromFactors(map[], factors)
      case Err(ZeroFactor(key)) => Err(ZeroExponent(NameOf(dims, key)))
      case Err(DuplicateKey(key)) => Err(DuplicateMonomialVar(NameOf(dims, key)))
      case Ok(vars) => Ok(DimMonomial(vars, m.fixed))
  }

  function ResolveScalar(dims: seq<nat>, scalar: ScalarKind): Result<ScalarKind, SignatureError> {
    match scalar
    case Quantity(m) =>
      (match ResolveMonomial(dims, m)
       case Err(error) => Err(error)
       case Ok(resolved) => Ok(Quantity(resolved)))
    case BoolKind => Ok(BoolKind)
    case IntKind => Ok(IntKind)
  }

  function ResolveAxes(indexes: seq<nat>, axes: seq<nat>): Result<seq<nat>, SignatureError>
    decreases |axes|
  {
    if axes == [] then Ok([])
    else
      match Position(indexes, axes[0])
      case None => Err(UndeclaredIndexVar(axes[0]))
      case Some(position) =>
        match ResolveAxes(indexes, axes[1..])
        case Err(error) => Err(error)
        case Ok(rest) => Ok([position] + rest)
  }

  function ResolveKind(dims: seq<nat>, indexes: seq<nat>, kind: ParamKind): Result<ParamKind, SignatureError> {
    match ResolveAxes(indexes, Axes(kind))
    case Err(error) => Err(error)
    case Ok(axes) =>
      match ResolveScalar(dims, Element(kind))
      case Err(error) => Err(error)
      case Ok(scalar) => Ok(if kind.Indexed? then Indexed(scalar, axes) else Scalar(scalar))
  }

  // Resolution is correct

  /** `x` is the first of `xs` that is not in `declared`. */
  ghost predicate FirstUndeclared(xs: seq<nat>, declared: seq<nat>, x: nat) {
    exists i :: 0 <= i < |xs| && xs[i] == x && x !in declared && forall j :: 0 <= j < i ==> xs[j] in declared
  }

  ghost predicate FactorsOf(factors: seq<Factor>, dims: seq<nat>, vars: Monomial, keys: seq<nat>)
    requires forall k :: k in keys ==> k in vars
  {
    && |factors| == |keys|
    && forall i :: 0 <= i < |keys| ==>
         factors[i].0 < |dims| && dims[factors[i].0] == keys[i] && factors[i].1 == vars[keys[i]]
  }

  lemma UndeclaredLater(keys: seq<nat>, declared: seq<nat>, name: nat)
    requires keys != [] && keys[0] in declared && FirstUndeclared(keys[1..], declared, name)
    ensures FirstUndeclared(keys, declared, name)
  {
    var rest := keys[1..];
    var i :| 0 <= i < |rest| && rest[i] == name && name !in declared && forall j :: 0 <= j < i ==> rest[j] in declared;
    forall j | 0 <= j < i + 1
      ensures keys[j] in declared
    {
      if j > 0 {
        assert keys[j] == rest[j - 1];
      }
    }
    assert keys[i + 1] == name;
  }

  lemma {:induction false} ResolveVarsCorrect(dims: seq<nat>, vars: Monomial, keys: seq<nat>)
    requires forall k :: k in keys ==> k in vars
    ensures var r := ResolveVars(dims, vars, keys);
            if r.Ok? then FactorsOf(r.value, dims, vars, keys)
            else r.error.UndeclaredDimVar? && FirstUndeclared(keys, dims, r.error.name)
    decreases |keys|
  {
    if keys != [] && keys[0] in dims {
      var rest := keys[1..];
      assert keys == [keys[0]] + rest;
      ResolveVarsCorrect(dims, vars, rest);
      var r := ResolveVars(dims, vars, rest);
      if r.Err? {
        UndeclaredLater(keys, dims, r.error.name);
      }
    } else if keys != [] {
      assert keys[0] == ResolveVars(dims, vars, keys).error.name;
    }
  }

  lemma {:induction false} FactorsAccepted(acc: Monomial, factors: seq<Factor>)
    requires forall i, j :: 0 <= i < j < |factors| ==> factors[i].0 != factors[j].0
    requires forall i :: 0 <= i < |factors| ==> factors[i].0 !in acc && factors[i].1.num != 0
    ensures var r := TryFromFactors(acc, factors);
            && r.Ok?
            && (forall i :: 0 <= i < |factors| ==> factors[i].0 in r.value && r.value[factors[i].0] == factors[i].1)
            && (forall k :: k in acc ==> k in r.value && r.value[k] == acc[k])
            && (forall k :: k in r.value ==> k in acc || exists i :: 0 <= i < |factors| && factors[i].0 == k)
    decreases |factors|
  {
    if factors != [] {
      var rest, next := factors[1..], acc[factors[0].0 := factors[0].1];
      assert forall i :: 0 <= i < |rest| ==> rest[i] == factors[i + 1];
      FactorsAccepted(next, rest);
      var r := TryFromFactors(next, rest).value;
      forall i | 0 <= i < |factors|
        ensures factors[i].0 in r && r[factors[i].0] == factors[i].1
      {
        if i == 0 {
          assert factors[0].0 in next;
        } else {
          assert rest[i - 1] == factors[i];
        }
      }
      forall k | k in r
        ensures k in acc || exists i :: 0 <= i < |factors| && factors[i].0 == k
      {
        if k !in next {
          var i :| 0 <= i < |rest| && rest[i].0 == k;
          assert factors[i + 1].0 == k;
        } else if k !in acc {
          assert factors[0].0 == k;
        }
      }
    }
  }

  lemma ExponentNotZero(e: Ratio)
    requires Valid(e) && e != ZERO
    ensures e.num != 0
  {
    ValZero(e);
  }

  /** Resolution keeps every exponent, and its only error is an undeclared
      variable: factors of a monomial never repeat and never vanish. */
  lemma ResolveMonomialCorrect(dims: seq<nat>, m: DimMonomial)
    requires WfMonomial(m.vars)
    ensures var r := ResolveMonomial(dims, m);
            if r.Ok? then RenamedMonomial(r.value, m, dims) && WfMonomial(r.value.vars)
            else r.error.UndeclaredDimVar? && FirstUndeclared(InOrder(m.vars.Keys), dims, r.error.name)
  {
    hide RenamedMonomial, Valid;
    var keys := InOrder(m.vars.Keys);
    ResolveVarsCorrect(dims, m.vars, keys);
    var resolved := ResolveVars(dims, m.vars, keys);
    if resolved.Ok? {
      FactorsResolve(dims, m, resolved.value);
    }
  }

  lemma FactorsFresh(dims: seq<nat>, vars: Monomial, factors: seq<Factor>)
    requires WfMonomial(vars) && FactorsOf(factors, dims, vars, InOrder(vars.Keys))
    ensures forall i, j :: 0 <= i < j < |factors| ==> factors[i].0 != factors[j].0
    ensures forall i :: 0 <= i < |factors| ==> factors[i].1.num != 0
  {
    hide Valid;
    var keys := InOrder(vars.Keys);
    forall i | 0 <= i < |factors|
      ensures factors[i].1.num != 0
    {
      assert keys[i] in keys;
      ExponentNotZero(vars[keys[i]]);
    }
    forall i, j | 0 <= i < j < |factors|
      ensures factors[i].0 != factors[j].0
    {
      assert keys[i] < keys[j];
    }
  }

  lemma FactorsResolve(dims: seq<nat>, m: DimMonomial, factors: seq<Factor>)
    requires WfMonomial(m.vars) && FactorsOf(factors, dims, m.vars, InOrder(m.vars.Keys))
    ensures var r := TryFromFactors(map[], factors);
            r.Ok? && RenamedMonomial(DimMonomial(r.value, m.fixed), m, dims) && WfMonomial(r.value)
  {
    hide WfMonomial, TryFromFactors, FactorsOf;
    FactorsFresh(dims, m.vars, factors);
    FactorsAccepted(map[], factors);
    var vars := TryFromFactors(map[], factors).value;
    forall k | k in vars
      ensures k < |dims| && dims[k] in m.vars && m.vars[dims[k]] == vars[k]
    {
      var i :| 0 <= i < |factors| && factors[i].0 == k;
      FactorNamed(dims, m.vars, factors, i);
    }
    RenamedWf(vars, m.vars, dims);
    forall name | name in m.vars
      ensures exists k :: k in vars && k < |dims| && dims[k] == name
    {
      var i := NamedFactor(dims, m.vars, factors, name);
      assert factors[i].0 in vars;
    }
  }

  lemma FactorNamed(dims: seq<nat>, vars: Monomial, factors: seq<Factor>, i: nat)
    requires FactorsOf(factors, dims, vars, InOrder(vars.Keys)) && i < |factors|
    ensures factors[i].0 < |dims| && dims[factors[i].0] in vars && vars[dims[factors[i].0]] == factors[i].1
  {
    var keys := InOrder(vars.Keys);
    assert keys[i] in keys;
  }

  lemma NamedFactor(dims: seq<nat>, vars: Monomial, factors: seq<Factor>, name: nat) returns (i: nat)
    requires FactorsOf(factors, dims, vars, InOrder(vars.Keys)) && name in vars
    ensures i < |factors| && factors[i].0 < |dims| && dims[factors[i].0] == name
  {
    var keys := InOrder(vars.Keys);
    assert name in keys;
    i :| 0 <= i < |keys| && keys[i] == name;
  }

  lemma RenamedWf(vars: Monomial, written: Monomial, dims: seq<nat>)
    requires WfMonomial(written)
    requires forall k :: k in vars ==> k < |dims| && dims[k] in written && written[dims[k]] == vars[k]
    ensures WfMonomial(vars)
  {
  }

  lemma {:induction false} ResolveAxesCorrect(indexes: seq<nat>, axes: seq<nat>)
    ensures var r := ResolveAxes(indexes, axes);
            if r.Ok? then |r.value| == |axes| && forall i ::
               0 <= i < |axes| ==> r.value[i] < |indexes| && indexes[r.value[i]] == axes[i]
            else r.error.UndeclaredIndexVar? && FirstUndeclared(axes, indexes, r.error.name)
    decreases |axes|
  {
    if axes != [] && axes[0] in indexes {
      var rest := axes[1..];
      ResolveAxesCorrect(indexes, rest);
      var r := ResolveAxes(indexes, rest);
      if r.Err? {
        var i :| 0 <= i < |rest| && rest[i] == r.error.name && forall j :: 0 <= j < i ==> rest[j] in indexes;
        assert axes[i + 1] == r.error.name && forall j :: 0 <= j < i + 1 ==> axes[j] in indexes;
      }
    } else if axes != [] {
      assert axes[0] == ResolveAxes(indexes, axes).error.name;
    }
  }

  // What makes a written signature acceptable

  ghost predicate WfWritten(kind: ParamKind) {
    && (Element(kind).Quantity? ==> WfMonomial(Element(kind).monomial.vars) && WfMonomial(Element(kind).monomial.fixed))
    && (kind.Indexed? ==> kind.axes != [])
  }

  ghost predicate WfDraft(d: Signature) {
    && (forall i :: 0 <= i < |d.params| ==> WfWritten(d.params[i].kind))
    && (d.result.Value? ==> WfWritten(d.result.kind))
  }

  ghost predicate Declared(kind: ParamKind, dims: seq<nat>, indexes: seq<nat>) {
    (forall v :: v in Vars(kind) ==> v in dims) && (forall x :: x in Axes(kind) ==> x in indexes)
  }

  ghost predicate EarlierBound(before: seq<Param>, kind: ParamKind) {
    forall v: nat :: v in Vars(kind) ==> Binds(kind, v) || BoundBy(before, v)
  }

  ghost predicate NamesDistinct(params: seq<Param>) {
    forall i, j :: 0 <= i < j < |params| ==> params[i].name != params[j].name
  }

  ghost predicate HeaderFine(d: Signature) {
    Distinct(d.dims) && Distinct(d.indexes) && NamesDistinct(d.params)
  }

  ghost predicate ParamFine(d: Signature, i: nat)
    requires i < |d.params|
  {
    Declared(d.params[i].kind, d.dims, d.indexes) && EarlierBound(d.params[..i], d.params[i].kind)
  }

  ghost predicate ParamsFine(d: Signature, n: nat)
    requires n <= |d.params|
  {
    HeaderFine(d) && forall i :: 0 <= i < n ==> ParamFine(d, i)
  }

  ghost predicate ResultFine(d: Signature) {
    d.result.Value? ==>
      && Declared(d.result.kind, d.dims, d.indexes)
      && (forall x: nat :: x in Axes(d.result.kind) ==> AxisOf(d.params, x))
      && (forall v: nat :: v in Vars(d.result.kind) ==> BoundBy(d.params, v))
  }

  /** Distinct binders and parameters, every use declared, every variable bound
      before it is used in a compound monomial, results covered by parameters,
      nothing declared in vain. */
  ghost predicate WellFormed(d: Signature) {
    && ParamsFine(d, |d.params|) && ResultFine(d)
    && (forall v :: v in d.dims ==> BoundBy(d.params, v))
    && (forall x :: x in d.indexes ==> AxisOf(d.params, x))
  }

  // Which violation is reported

  ghost predicate FirstRepeat(xs: seq<nat>, x: nat) {
    exists j :: 0 <= j < |xs| && xs[j] == x && x in xs[..j] && Distinct(xs[..j])
  }

  ghost predicate KindError(kind: ParamKind, dims: seq<nat>, indexes: seq<nat>, e: SignatureError) {
    || (e.UndeclaredIndexVar? && FirstUndeclared(Axes(kind), indexes, e.name))
    || (e.UndeclaredDimVar? && (forall x :: x in Axes(kind) ==> x in indexes)
        && FirstUndeclared(InOrder(Vars(kind)), dims, e.name))
  }

  /** `v` is the first declared variable of `kind` that no parameter binds. */
  ghost predicate FirstUnbound(kind: ParamKind, dims: seq<nat>, params: seq<Param>, v: nat) {
    exists k: nat :: k < |dims| && dims[k] == v && v in Vars(kind) && !BoundBy(params, v)
      && forall j: nat :: j < k && dims[j] in Vars(kind) ==> BoundBy(params, dims[j])
  }

  ghost predicate FirstNeverBound(names: seq<nat>, params: seq<Param>, v: nat) {
    exists i :: 0 <= i < |names| && names[i] == v && !BoundBy(params, v)
      && forall j :: 0 <= j < i ==> BoundBy(params, names[j])
  }

  ghost predicate FirstNeverAxis(names: seq<nat>, params: seq<Param>, x: nat) {
    exists i :: 0 <= i < |names| && names[i] == x && !AxisOf(params, x)
      && forall j :: 0 <= j < i ==> AxisOf(params, names[j])
  }

  ghost predicate ParamError(d: Signature, i: nat, e: SignatureError)
    requires i < |d.params|
  {
    && ParamsFine(d, i)
    && var kind := d.params[i].kind;
       || KindError(kind, d.dims, d.indexes, e)
       || (e.UseBeforeBinding? && e.param == d.params[i].name && Declared(kind, d.dims, d.indexes)
           && FirstUnbound(kind, d.dims, d.params[..i], e.name) && !Binds(kind, e.name))
  }

  ghost predicate ResultError(d: Signature, e: SignatureError) {
    && ParamsFine(d, |d.params|)
    && d.result.Value?
    && (|| KindError(d.result.kind, d.dims, d.indexes, e)
        || (e.UnboundResultIndexVar? && Declared(d.result.kind, d.dims, d.indexes)
            && FirstNeverAxis(Axes(d.result.kind), d.params, e.name))
        || (e.UnboundResultVar? && Declared(d.result.kind, d.dims, d.indexes)
            && (forall x: nat :: x in Axes(d.result.kind) ==> AxisOf(d.params, x))
            && FirstUnbound(d.result.kind, d.dims, d.params, e.name)))
  }

  ghost predicate UnusedError(d: Signature, e: SignatureError) {
    && ParamsFine(d, |d.params|) && ResultFine(d)
    && (|| (e.DimVarNeverBound? && FirstNeverBound(d.dims, d.params, e.name))
        || (e.IndexVarNeverUsed? && (forall v :: v in d.dims ==> BoundBy(d.params, v))
            && FirstNeverAxis(d.indexes, d.params, e.name)))
  }

  /** `e` is the first violation in the order binders, parameters, result,
      unused binders. No written monomial can cause the two factor errors. */
  ghost predicate FirstViolation(d: Signature, e: SignatureError) {
    || (e.DuplicateDimVar? && FirstRepeat(d.dims, e.name))
    || (e.DuplicateIndexVar? && Distinct(d.dims) && FirstRepeat(d.indexes, e.name))
    || (e.DuplicateParamName? && Distinct(d.dims) && Distinct(d.indexes)
        && e.first < e.duplicate < |d.params| && NamesDistinct(d.params[..e.duplicate])
        && d.params[e.first].name == e.name == d.params[e.duplicate].name)
    || (exists i: nat :: i < |d.params| && ParamError(d, i, e))
    || ResultError(d, e)
    || UnusedError(d, e)
  }

  // Resolved kinds and written kinds bind alike

  ghost predicate Resolves(resolved: ParamKind, written: ParamKind, dims: seq<nat>, indexes: seq<nat>) {
    WfKind(resolved, |dims|, |indexes|) && RenamedKind(resolved, written, dims, indexes)
  }

  /** The only resolution errors are undeclared names. */
  lemma ResolveKindCorrect(dims: seq<nat>, indexes: seq<nat>, kind: ParamKind)
    requires WfWritten(kind)
    ensures var r := ResolveKind(dims, indexes, kind);
            if r.Ok? then Resolves(r.value, kind, dims, indexes) && Declared(kind, dims, indexes)
            else KindError(kind, dims, indexes, r.error)
  {
    hide ResolveMonomial, ResolveAxes, RenamedMonomial, WfMonomial, FirstUndeclared;
    ResolveAxesCorrect(indexes, Axes(kind));
    var axes := ResolveAxes(indexes, Axes(kind));
    if axes.Ok? {
      assert forall i :: 0 <= i < |Axes(kind)| ==> Axes(kind)[i] in indexes;
      if Element(kind).Quantity? {
        var m := Element(kind).monomial;
        ResolveMonomialCorrect(dims, m);
        if ResolveMonomial(dims, m).Ok? {
          RenamedDeclared(ResolveMonomial(dims, m).value, m, dims);
        }
      }
    }
  }

  lemma RenamedDeclared(m: DimMonomial, written: DimMonomial, dims: seq<nat>)
    requires RenamedMonomial(m, written, dims)
    ensures (forall k :: k in m.vars ==> k < |dims|) && (forall v :: v in written.vars ==> v in dims)
            && m.fixed == written.fixed
  {
  }

  lemma ResolvedVars(resolved: ParamKind, written: ParamKind, dims: seq<nat>, indexes: seq<nat>, k: nat)
    requires Resolves(resolved, written, dims, indexes) && Distinct(dims) && k < |dims|
    ensures k in Vars(resolved) <==> dims[k] in Vars(written)
  {
    if dims[k] in Vars(written) {
      var m := Element(resolved).monomial;
      var j: nat :| j in m.vars && j < |dims| && dims[j] == dims[k];
      assert j == k;
    }
  }

  lemma ResolvedBinds(resolved: ParamKind, written: ParamKind, dims: seq<nat>, indexes: seq<nat>, k: nat)
    requires Resolves(resolved, written, dims, indexes) && Distinct(dims) && k < |dims|
    ensures Binds(resolved, k) <==> Binds(written, dims[k])
  {
    if Binds(resolved, k) {
      ResolvedBare(resolved, written, dims, indexes, k);
    }
    if Binds(written, dims[k]) {
      WrittenBare(resolved, written, dims, indexes, k);
    }
  }

  lemma BareBinds(kind: ParamKind, v: nat)
    ensures Binds(kind, v) <==> Element(kind) == Quantity(DimMonomial(map[v := ONE], map[]))
  {
    if Element(kind) == Quantity(DimMonomial(map[v := ONE], map[])) {
      var m: Monomial := map[v := ONE];
      assert m.Keys == {v};
      assert v in m;
    }
  }

  lemma ResolvedBare(resolved: ParamKind, written: ParamKind, dims: seq<nat>, indexes: seq<nat>, k: nat)
    requires Resolves(resolved, written, dims, indexes) && k < |dims| && Binds(resolved, k)
    ensures Binds(written, dims[k])
  {
    BareBinds(resolved, k);
    var m, w := Element(resolved).monomial, Element(written).monomial;
    assert k in m.vars;
    assert w.vars == map[dims[k] := ONE];
    BareBinds(written, dims[k]);
  }

  lemma WrittenBare(resolved: ParamKind, written: ParamKind, dims: seq<nat>, indexes: seq<nat>, k: nat)
    requires Resolves(resolved, written, dims, indexes) && Distinct(dims) && k < |dims| && Binds(written, dims[k])
    ensures Binds(resolved, k)
  {
    BareBinds(written, dims[k]);
    var m, w := Element(resolved).monomial, Element(written).monomial;
    assert dims[k] in w.vars;
    assert m.vars == map[k := ONE];
    BareBinds(resolved, k);
  }

  lemma ResolvedAxes(resolved: ParamKind, written: ParamKind, dims: seq<nat>, indexes: seq<nat>, x: nat)
    requires Resolves(resolved, written, dims, indexes) && Distinct(indexes) && x < |indexes|
    ensures x in Axes(resolved) <==> indexes[x] in Axes(written)
  {
    if x in Axes(resolved) {
      var i :| 0 <= i < |Axes(resolved)| && Axes(resolved)[i] == x;
      assert Axes(written)[i] == indexes[x];
    }
    if indexes[x] in Axes(written) {
      var i :| 0 <= i < |Axes(written)| && Axes(written)[i] == indexes[x];
      assert Axes(resolved)[i] == x;
    }
  }

  ghost predicate ResolvesAll(resolved: seq<Param>, written: seq<Param>, dims: seq<nat>, indexes: seq<nat>) {
    && |resolved| == |written|
    && forall i :: 0 <= i < |written| ==>
         resolved[i].name == written[i].name && Resolves(resolved[i].kind, written[i].kind, dims, indexes)
  }

  lemma ResolvedBoundBy(resolved: seq<Param>, written: seq<Param>, dims: seq<nat>, indexes: seq<nat>, k: nat)
    requires ResolvesAll(resolved, written, dims, indexes) && Distinct(dims) && k < |dims|
    ensures BoundBy(resolved, k) <==> BoundBy(written, dims[k])
  {
    hide Binds, Resolves;
    forall j | 0 <= j < |written|
      ensures Binds(resolved[j].kind, k) <==> Binds(written[j].kind, dims[k])
    {
      ResolvedBinds(resolved[j].kind, written[j].kind, dims, indexes, k);
    }
  }

  lemma ResolvedAxisOf(resolved: seq<Param>, written: seq<Param>, dims: seq<nat>, indexes: seq<nat>, x: nat)
    requires ResolvesAll(resolved, written, dims, indexes) && Distinct(indexes) && x < |indexes|
    ensures AxisOf(resolved, x) <==> AxisOf(written, indexes[x])
  {
    hide Axes, Resolves;
    forall j | 0 <= j < |written|
      ensures x in Axes(resolved[j].kind) <==> indexes[x] in Axes(written[j].kind)
    {
      ResolvedAxes(resolved[j].kind, written[j].kind, dims, indexes, x);
    }
  }
}
