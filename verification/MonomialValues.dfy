/** What a signature monomial denotes once its variables have dimensions, and
    when evaluating it overflows. */
module MonomialValues {
  import opened Outcomes
  import opened Ratios
  import opened Monomials
  import opened Signatures
  import opened CallTyping

  ghost predicate WfDims(dims: map<nat, Monomial>) {
    forall v :: v in dims ==> WfMonomial(dims[v])
  }

  ghost predicate WfDimMonomial(m: DimMonomial) {
    WfMonomial(m.vars) && WfMonomial(m.fixed)
  }

  ghost predicate AllBound(m: DimMonomial, dims: map<nat, Monomial>) {
    forall k :: k in m.vars ==> k in dims
  }

  // The value of a monomial, one base dimension at a time

  /** The exponent of base dimension `b` that variable `k` contributes. */
  ghost function Term(vars: Monomial, dims: map<nat, Monomial>, b: nat, k: nat): real {
    if k in vars && k in dims && Valid(vars[k]) && WfMonomial(dims[k]) then Scaled(Exp(dims[k], b), vars[k]) else 0.0
  }

  ghost function Sum(vars: Monomial, dims: map<nat, Monomial>, b: nat, keys: seq<nat>): real {
    if keys == [] then 0.0
    else
      var last := |keys| - 1;
      Sum(vars, dims, b, keys[..last]) + Term(vars, dims, b, keys[last])
  }

  /** Every power and every partial product, in the order of `keys`, has
      representable exponents. */
  ghost predicate Fits(m: DimMonomial, dims: map<nat, Monomial>, keys: seq<nat>)
    requires WfMonomial(m.fixed)
    decreases |keys|
  {
    keys == [] ||
      (&& Fits(m, dims, keys[..|keys| - 1])
       && forall b: nat :: Representable(Term(m.vars, dims, b, keys[|keys| - 1]))
                           && Representable(Exp(m.fixed, b) + Sum(m.vars, dims, b, keys)))
  }

  ghost predicate IsProduct(r: Monomial, m: DimMonomial, dims: map<nat, Monomial>, keys: seq<nat>)
    requires WfMonomial(m.fixed)
  {
    WfMonomial(r) && forall b: nat :: Exp(r, b) == Exp(m.fixed, b) + Sum(m.vars, dims, b, keys)
  }

  ghost predicate StepFits(acc: Monomial, base: Monomial, e: Ratio)
    requires WfMonomial(acc) && WfMonomial(base) && Valid(e)
  {
    forall b: nat :: Representable(Scaled(Exp(base, b), e)) && Representable(Exp(acc, b) + Scaled(Exp(base, b), e))
  }

  lemma TimesExact(acc: Monomial, base: Monomial, e: Ratio)
    requires WfMonomial(acc) && WfMonomial(base) && Valid(e)
    ensures Times(acc, base, e).Ok? <==> StepFits(acc, base, e)
    ensures var r := Times(acc, base, e);
            if r.Ok? then WfMonomial(r.value) && forall b: nat ::
               Exp(r.value, b) == Exp(acc, b) + Scaled(Exp(base, b), e)
            else r.error == ExponentOverflow
  {
    hide TryPow, TryMul, Representable, Scaled, Exp, WfMonomial, Valid;
    TryPowExact(base, e);
    if TryPow(base, e).Ok? {
      TryMulExact(acc, TryPow(base, e).value);
    }
  }

  /** Evaluation with every variable bound fails only by overflow, exactly when
      a power or a partial product does not fit. */
  lemma {:induction false} EvalExact(m: DimMonomial, dims: map<nat, Monomial>, keys: seq<nat>)
    requires WfMonomial(m.vars) && WfMonomial(m.fixed) && WfDims(dims)
    requires forall k :: k in keys ==> k in m.vars && k in dims
    ensures EvalKeys(m, dims, keys).Ok? <==> Fits(m, dims, keys)
    ensures var r := EvalKeys(m, dims, keys);
            if r.Ok? then IsProduct(r.value, m, dims, keys) else r.error == ExponentOverflow
    decreases |keys|
  {
    hide Times, Representable, Term, Sum, Exp, Valid, IsProduct;
    if keys == [] {
      EmptyProduct(m, dims);
    } else {
      var last := |keys| - 1;
      assert keys[last] in keys;
      EvalExact(m, dims, keys[..last]);
      var before := EvalKeys(m, dims, keys[..last]);
      if before.Ok? {
        EvalStep(m, dims, keys, before.value);
      }
    }
  }

  lemma EmptyProduct(m: DimMonomial, dims: map<nat, Monomial>)
    requires WfMonomial(m.fixed)
    ensures IsProduct(m.fixed, m, dims, [])
  {
    hide WfMonomial, Exp;
  }

  lemma EvalStep(m: DimMonomial, dims: map<nat, Monomial>, keys: seq<nat>, acc: Monomial)
    requires WfMonomial(m.vars) && WfMonomial(m.fixed) && WfDims(dims) && keys != []
    requires keys[|keys| - 1] in m.vars && keys[|keys| - 1] in dims
    requires IsProduct(acc, m, dims, keys[..|keys| - 1]) && Fits(m, dims, keys[..|keys| - 1])
    ensures var k := keys[|keys| - 1];
            var r := Times(acc, dims[k], m.vars[k]);
            && (r.Ok? <==> Fits(m, dims, keys))
            && if r.Ok? then IsProduct(r.value, m, dims, keys) else r.error == ExponentOverflow
  {
    hide Times, Representable, Scaled, Exp, Valid, Term, Sum;
    var k := keys[|keys| - 1];
    TimesExact(acc, dims[k], m.vars[k]);
    StepIsTerm(m, dims, keys, acc);
  }

  lemma StepIsTerm(m: DimMonomial, dims: map<nat, Monomial>, keys: seq<nat>, acc: Monomial)
    requires WfMonomial(m.vars) && WfMonomial(m.fixed) && WfDims(dims) && keys != []
    requires keys[|keys| - 1] in m.vars && keys[|keys| - 1] in dims
    requires IsProduct(acc, m, dims, keys[..|keys| - 1])
    ensures var k := keys[|keys| - 1];
            forall b: nat :: Scaled(Exp(dims[k], b), m.vars[k]) == Term(m.vars, dims, b, k)
                             && Exp(acc, b) + Scaled(Exp(dims[k], b), m.vars[k])
                                == Exp(m.fixed, b) + Sum(m.vars, dims, b, keys)
  {
    hide Scaled, Exp;
  }

  // A monomial as a whole

  /** `d` is the dimension that `m` denotes: exponents are the exact sums. */
  ghost predicate HasValue(m: DimMonomial, dims: map<nat, Monomial>, d: Monomial) {
    WfDimMonomial(m) && AllBound(m, dims) && IsProduct(d, m, dims, InOrder(m.vars.Keys))
  }

  /** No power and no partial product overflows, in declaration order. */
  ghost predicate FitsIn(m: DimMonomial, dims: map<nat, Monomial>) {
    WfDimMonomial(m) && Fits(m, dims, InOrder(m.vars.Keys))
  }

  lemma EvalValue(m: DimMonomial, dims: map<nat, Monomial>)
    requires WfDimMonomial(m) && WfDims(dims) && AllBound(m, dims)
    ensures Eval(m, dims).Ok? <==> FitsIn(m, dims)
    ensures if Eval(m, dims).Ok? then HasValue(m, dims, Eval(m, dims).value)
            else Eval(m, dims).error == ExponentOverflow
  {
    hide EvalKeys, Fits, IsProduct, WfDims, WfMonomial;
    EvalExact(m, dims, InOrder(m.vars.Keys));
  }

  lemma ValueUnique(m: DimMonomial, dims: map<nat, Monomial>, x: Monomial, y: Monomial)
    requires HasValue(m, dims, x) && HasValue(m, dims, y)
    ensures x == y
  {
    hide Sum, WfMonomial, Exp;
    SameExponents(x, y);
  }

  // More bindings do not change a value

  ghost predicate Within<T>(a: map<nat, T>, b: map<nat, T>) {
    forall v :: v in a ==> v in b && a[v] == b[v]
  }

  lemma {:induction false} SumWithin(vars: Monomial, a: map<nat, Monomial>, b: map<nat, Monomial>, d: nat,
                                     keys: seq<nat>)
    requires Within(a, b) && forall k :: k in keys ==> k in a
    ensures Sum(vars, a, d, keys) == Sum(vars, b, d, keys)
    decreases |keys|
  {
    hide Scaled, Exp, Valid, WfMonomial;
    if keys != [] {
      var last := |keys| - 1;
      assert keys[last] in keys;
      SumWithin(vars, a, b, d, keys[..last]);
    }
  }

  lemma {:induction false} FitsWithin(m: DimMonomial, a: map<nat, Monomial>, b: map<nat, Monomial>, keys: seq<nat>)
    requires WfMonomial(m.fixed) && Within(a, b) && forall k :: k in keys ==> k in a
    ensures Fits(m, a, keys) <==> Fits(m, b, keys)
    decreases |keys|
  {
    hide Scaled, Exp, Valid, WfMonomial, Representable, Sum;
    if keys != [] {
      var last := |keys| - 1;
      assert keys[last] in keys;
      FitsWithin(m, a, b, keys[..last]);
      forall d: nat
        ensures Sum(m.vars, a, d, keys) == Sum(m.vars, b, d, keys)
        ensures Term(m.vars, a, d, keys[last]) == Term(m.vars, b, d, keys[last])
      {
        SumWithin(m.vars, a, b, d, keys);
      }
    }
  }

  lemma ValueWithin(m: DimMonomial, a: map<nat, Monomial>, b: map<nat, Monomial>, d: Monomial)
    requires WfDimMonomial(m) && Within(a, b) && AllBound(m, a)
    ensures HasValue(m, a, d) <==> HasValue(m, b, d)
    ensures FitsIn(m, a) <==> FitsIn(m, b)
  {
    hide Sum, Fits, WfMonomial, Exp;
    var keys := InOrder(m.vars.Keys);
    FitsWithin(m, a, b, keys);
    forall x: nat
      ensures Sum(m.vars, a, x, keys) == Sum(m.vars, b, x, keys)
    {
      SumWithin(m.vars, a, b, x, keys);
    }
  }

  // A bare variable

  lemma BareIs(m: DimMonomial, v: nat)
    ensures AsBareVar(m) == Some(v) <==> m == DimMonomial(map[v := ONE], map[])
  {
    var bare: Monomial := map[v := ONE];
    assert bare.Keys == {v};
    assert v in bare;
  }

  lemma BareSum(v: nat, dims: map<nat, Monomial>, b: nat)
    requires v in dims && WfMonomial(dims[v])
    ensures Sum(map[v := ONE], dims, b, [v]) == Exp(dims[v], b)
  {
    hide Exp, WfMonomial;
    var vars: Monomial := map[v := ONE];
    assert [v][..0] == [];
    assert Sum(vars, dims, b, []) == 0.0;
    assert Valid(ONE) && Val(ONE) == 1.0 by { ValZero(ONE); }
  }

  /** A bare variable denotes its own dimension. */
  lemma BareValue(m: DimMonomial, v: nat, dims: map<nat, Monomial>, d: Monomial)
    requires AsBareVar(m) == Some(v) && WfDimMonomial(m) && v in dims && WfMonomial(dims[v])
    ensures HasValue(m, dims, d) <==> d == dims[v]
  {
    hide Sum, AsBareVar, WfMonomial;
    BareIs(m, v);
    assert m.vars.Keys == {v};
    InOrderSingle(v);
    forall b: nat
      ensures Exp(m.fixed, b) + Sum(m.vars, dims, b, [v]) == Exp(dims[v], b)
    {
      BareSum(v, dims, b);
    }
    assert HasValue(m, dims, dims[v]);
    if HasValue(m, dims, d) {
      ValueUnique(m, dims, d, dims[v]);
    }
  }
}
