/** Equivalent signatures type every call alike, exponent overflow apart. */
module CallEquivalence {
  import opened Numbers
  import opened Outcomes
  import opened Digraph
  import opened Sorting
  import opened Ratios
  import opened Monomials
  import opened Signatures
  import opened SignatureEquivalence
  import opened CallTyping
  import opened MonomialValues
  import opened CallMeaning

  // The sum does not depend on the order

  lemma {:induction false} SumRemove(vars: Monomial, dims: map<nat, Monomial>, b: nat, keys: seq<nat>, i: nat)
    requires i < |keys|
    ensures Sum(vars, dims, b, keys) == Sum(vars, dims, b, keys[..i] + keys[i + 1..]) + Term(vars, dims, b, keys[i])
    decreases |keys|
  {
    hide Term;
    var last := |keys| - 1;
    if i == last {
      assert keys[..i] + keys[i + 1..] == keys[..last];
    } else {
      var init, rest := keys[..last], keys[..i] + keys[i + 1..];
      SumRemove(vars, dims, b, init, i);
      assert rest[..|rest| - 1] == init[..i] + init[i + 1..];
      assert rest[|rest| - 1] == keys[last];
    }
  }

  lemma {:induction false} SumPermuted(vars: Monomial, dims: map<nat, Monomial>, b: nat, xs: seq<nat>, ys: seq<nat>)
    requires multiset(xs) == multiset(ys)
    ensures Sum(vars, dims, b, xs) == Sum(vars, dims, b, ys)
    decreases |xs|
  {
    hide Term;
    if xs == [] {
      assert |multiset(ys)| == 0;
    } else {
      var last := |xs| - 1;
      var i := FindLast(xs, ys);
      RemoveOne(xs, last);
      RemoveOne(ys, i);
      assert xs[..last] + xs[last + 1..] == xs[..last];
      SumPermuted(vars, dims, b, xs[..last], ys[..i] + ys[i + 1..]);
      SumRemove(vars, dims, b, ys, i);
    }
  }

  // Renamed monomials have equal values

  /** The renamed variables are bound to the same dimensions. */
  ghost predicate SameBindings(a: map<nat, Monomial>, b: map<nat, Monomial>, p: seq<nat>) {
    forall v: nat :: v < |p| ==> (v in a <==> p[v] in b) && (v in a ==> a[v] == b[p[v]])
  }

  lemma RenamedTerm(m: DimMonomial, r: DimMonomial, p: seq<nat>, a: map<nat, Monomial>, b: map<nat, Monomial>,
                    d: nat, k: nat)
    requires RenamedMonomial(m, r, p) && SameBindings(a, b, p) && k in m.vars
    ensures k < |p| && Term(m.vars, a, d, k) == Term(r.vars, b, d, p[k])
  {
    hide Scaled, Exp, Valid, WfMonomial;
  }

  lemma {:induction false} RenamedSum(m: DimMonomial, r: DimMonomial, p: seq<nat>, a: map<nat, Monomial>,
                                      b: map<nat, Monomial>,
                                      d: nat, xs: seq<nat>, ys: seq<nat>)
    requires RenamedMonomial(m, r, p) && SameBindings(a, b, p) && |xs| == |ys|
    requires forall i :: 0 <= i < |xs| ==> xs[i] in m.vars && xs[i] < |p| && ys[i] == p[xs[i]]
    ensures Sum(m.vars, a, d, xs) == Sum(r.vars, b, d, ys)
    decreases |xs|
  {
    hide Term, RenamedMonomial, SameBindings;
    if xs != [] {
      var last := |xs| - 1;
      RenamedSum(m, r, p, a, b, d, xs[..last], ys[..last]);
      RenamedTerm(m, r, p, a, b, d, xs[last]);
    }
  }

  /** `image` lists where `p` sends each of `keys`. */
  ghost predicate ImageOf(image: seq<nat>, keys: seq<nat>, p: seq<nat>) {
    |image| == |keys| && forall i :: 0 <= i < |keys| ==> keys[i] < |p| && image[i] == p[keys[i]]
  }

  lemma ImageMembers(m: DimMonomial, r: DimMonomial, p: seq<nat>, keys: seq<nat>, image: seq<nat>, j: nat)
    requires RenamedMonomial(m, r, p) && ImageOf(image, keys, p) && forall k: nat :: k in keys <==> k in m.vars
    ensures j in image <==> j in r.vars
  {
    if j in image {
      var i :| 0 <= i < |image| && image[i] == j;
      assert keys[i] in keys;
    }
    if j in r.vars {
      var k: nat :| k in m.vars && k < |p| && p[k] == j;
      assert k in keys;
      var i :| 0 <= i < |keys| && keys[i] == k;
      assert image[i] == j;
    }
  }

  /** The images of the variables of `m` are the variables of `r`. */
  lemma ImageKeys(m: DimMonomial, r: DimMonomial, p: seq<nat>) returns (image: seq<nat>)
    requires RenamedMonomial(m, r, p) && Distinct(p)
    ensures var keys := InOrder(m.vars.Keys);
            && ImageOf(image, keys, p) && multiset(image) == multiset(InOrder(r.vars.Keys))
            && forall i :: 0 <= i < |keys| ==> keys[i] in m.vars
  {
    hide RenamedMonomial, Distinct;
    var keys, others := InOrder(m.vars.Keys), InOrder(r.vars.Keys);
    forall i | 0 <= i < |keys|
      ensures keys[i] in m.vars && keys[i] < |p|
    {
      assert keys[i] in keys;
      RenamedBelow(m, r, p, keys[i]);
    }
    image := seq(|keys|, i requires 0 <= i < |keys| => p[keys[i]]);
    SameImage(m, r, p, keys, image, others);
  }

  lemma SameImage(m: DimMonomial, r: DimMonomial, p: seq<nat>, keys: seq<nat>, image: seq<nat>, others: seq<nat>)
    requires RenamedMonomial(m, r, p) && ImageOf(image, keys, p) && forall k: nat :: k in keys <==> k in m.vars
    requires forall j: nat :: j in others <==> j in r.vars
    requires Distinct(p) && Increasing(keys) && Increasing(others)
    ensures multiset(image) == multiset(others)
  {
    hide RenamedMonomial;
    forall j: nat
      ensures j in image <==> j in others
    {
      ImageMembers(m, r, p, keys, image, j);
    }
    DistinctSameMembers(image, others);
  }

  lemma RenamedBelow(m: DimMonomial, r: DimMonomial, p: seq<nat>, k: nat)
    requires RenamedMonomial(m, r, p) && k in m.vars
    ensures k < |p|
  {
  }

  /** With every variable bound, renamed monomials evaluate alike exactly when
      both fit or neither does. */
  lemma EvalRenamed(m: DimMonomial, r: DimMonomial, p: seq<nat>, a: map<nat, Monomial>, b: map<nat, Monomial>)
    requires WfDimMonomial(m) && WfDimMonomial(r) && WfDims(a) && WfDims(b)
    requires RenamedMonomial(m, r, p) && Distinct(p) && SameBindings(a, b, p) && AllBound(m, a)
    ensures AllBound(r, b)
    ensures Eval(m, a).Ok? || Eval(m, a).error == ExponentOverflow
    ensures Eval(r, b).Ok? || Eval(r, b).error == ExponentOverflow
    ensures Eval(m, a).Ok? && Eval(r, b).Ok? ==> Eval(m, a) == Eval(r, b)
    ensures Eval(m, a) == Eval(r, b) <==> (FitsIn(m, a) <==> FitsIn(r, b))
  {
    hide EvalKeys, Fits, Exp, WfMonomial, IsProduct, RenamedMonomial, SameBindings, Distinct;
    RenamedBound(m, r, p, a, b);
    var xs, ys := InOrder(m.vars.Keys), InOrder(r.vars.Keys);
    EvalExact(m, a, xs);
    EvalExact(r, b, ys);
    if Eval(m, a).Ok? && Eval(r, b).Ok? {
      SameProducts(m, r, p, a, b, Eval(m, a).value, Eval(r, b).value);
    }
  }

  lemma SameProducts(m: DimMonomial, r: DimMonomial, p: seq<nat>, a: map<nat, Monomial>, b: map<nat, Monomial>,
                     x: Monomial, y: Monomial)
    requires WfDimMonomial(m) && WfDimMonomial(r) && RenamedMonomial(m, r, p) && Distinct(p) && SameBindings(a, b, p)
    requires IsProduct(x, m, a, InOrder(m.vars.Keys)) && IsProduct(y, r, b, InOrder(r.vars.Keys))
    ensures x == y
  {
    hide Exp, WfMonomial, SameBindings, Distinct, Sum;
    var image := ImageKeys(m, r, p);
    forall d: nat
      ensures Exp(x, d) == Exp(y, d)
    {
      RenamedSum(m, r, p, a, b, d, InOrder(m.vars.Keys), image);
      SumPermuted(r.vars, b, d, image, InOrder(r.vars.Keys));
    }
    SameExponents(x, y);
  }

  lemma RenamedBound(m: DimMonomial, r: DimMonomial, p: seq<nat>, a: map<nat, Monomial>, b: map<nat, Monomial>)
    requires RenamedMonomial(m, r, p) && SameBindings(a, b, p) && AllBound(m, a)
    ensures AllBound(r, b)
  {
    forall j | j in r.vars
      ensures j in b
    {
      var k: nat :| k in m.vars && k < |p| && p[k] == j;
    }
  }

  // One argument

  lemma BareForward(m: DimMonomial, r: DimMonomial, p: seq<nat>, v: nat)
    requires RenamedMonomial(m, r, p) && AsBareVar(m) == Some(v)
    ensures v < |p| && AsBareVar(r) == Some(p[v])
  {
    BareIs(m, v);
    assert v in m.vars;
    assert r.vars == map[p[v] := ONE];
    BareIs(r, p[v]);
  }

  lemma BareBackward(m: DimMonomial, r: DimMonomial, p: seq<nat>, w: nat)
    requires RenamedMonomial(m, r, p) && Distinct(p) && AsBareVar(r) == Some(w)
    ensures AsBareVar(m).Some?
  {
    BareIs(r, w);
    assert w in r.vars;
    var v: nat :| v in m.vars && v < |p| && p[v] == w;
    assert m.vars == map[v := ONE];
    BareIs(m, v);
  }

  lemma BindSame(a: map<nat, Monomial>, b: map<nat, Monomial>, p: seq<nat>, v: nat, d: Monomial)
    requires SameBindings(a, b, p) && Distinct(p) && v < |p|
    ensures SameBindings(a[v := d], b[p[v] := d], p)
  {
  }

  /** Both fail alike, both succeed alike, or an exponent overflowed. */
  ghost predicate AgreeDims(x: Result<map<nat, Monomial>, CallError>, y: Result<map<nat, Monomial>, CallError>,
                            p: seq<nat>)
  {
    || x == Err(DimensionOverflow) || y == Err(DimensionOverflow)
    || (x.Ok? && y.Ok? && SameBindings(x.value, y.value, p))
    || (x.Err? && x == y && x.error != UnboundDim && x.error != UnboundIndex)
  }

  lemma QuantityAgrees(a: map<nat, Monomial>, b: map<nat, Monomial>, p: seq<nat>, n: nat,
                       m: DimMonomial, r: DimMonomial, found: Monomial)
    requires WfDimMonomial(m) && WfDimMonomial(r) && WfDims(a) && WfDims(b)
    requires RenamedMonomial(m, r, p) && Distinct(p) && SameBindings(a, b, p) && Ready(m, a)
    ensures AgreeDims(CheckQuantity(a, n, m, found), CheckQuantity(b, n, r, found), p)
  {
    hide AsBareVar, RenamedMonomial, SameBindings, WfDimMonomial, WfDims, Eval, Distinct, AllBound;
    match AsBareVar(m)
    case Some(v) =>
      BareForward(m, r, p, v);
      SameAt(a, b, p, v);
      BindSame(a, b, p, v, found);
    case None =>
      match AsBareVar(r)
      case Some(w) =>
        BareBackward(m, r, p, w);
      case None =>
        EvalRenamed(m, r, p, a, b);
  }

  lemma SameAt(a: map<nat, Monomial>, b: map<nat, Monomial>, p: seq<nat>, v: nat)
    requires SameBindings(a, b, p) && v < |p|
    ensures (v in a <==> p[v] in b) && (v in a ==> a[v] == b[p[v]])
  {
  }

  lemma ElementAgrees(a: map<nat, Monomial>, b: map<nat, Monomial>, p: seq<nat>, n: nat,
                      k: ScalarKind, l: ScalarKind, arg: ArgType)
    requires WfElement(k) && WfElement(l) && WfDims(a) && WfDims(b)
    requires RenamedScalar(k, l, p) && Distinct(p) && SameBindings(a, b, p) && ScalarReady(k, a)
    ensures AgreeDims(CheckElement(a, n, k, arg), CheckElement(b, n, l, arg), p)
  {
    hide RenamedMonomial, SameBindings, WfDimMonomial, WfDims, Distinct, Ready, CheckQuantity, AgreeDims;
    if k.Quantity? && arg.QuantityType? {
      QuantityAgrees(a, b, p, n, k.monomial, l.monomial, arg.dimension);
    } else {
      PlainAgrees(a, b, p, CheckElement(a, n, k, arg), CheckElement(b, n, l, arg), n);
    }
  }

  lemma PlainAgrees(a: map<nat, Monomial>, b: map<nat, Monomial>, p: seq<nat>,
                    x: Result<map<nat, Monomial>, CallError>, y: Result<map<nat, Monomial>, CallError>, n: nat)
    requires SameBindings(a, b, p)
    requires (x == Ok(a) && y == Ok(b)) || (x == y == Err(KindMismatch(n)))
    ensures AgreeDims(x, y, p)
  {
  }

  // Axes

  ghost predicate SameAxes(a: map<nat, nat>, b: map<nat, nat>, q: seq<nat>) {
    forall x: nat :: x < |q| ==> (x in a <==> q[x] in b) && (x in a ==> a[x] == b[q[x]])
  }

  ghost predicate AgreeAxes(x: Result<map<nat, nat>, CallError>, y: Result<map<nat, nat>, CallError>, q: seq<nat>) {
    || (x.Ok? && y.Ok? && SameAxes(x.value, y.value, q))
    || (x.Err? && x.error.AxisMismatch? && x == y)
  }

  ghost predicate RenamedAxes(axes: seq<nat>, others: seq<nat>, q: seq<nat>) {
    |axes| == |others| && forall i :: 0 <= i < |axes| ==> axes[i] < |q| && others[i] == q[axes[i]]
  }

  lemma {:induction false} AxesAgree(a: map<nat, nat>, b: map<nat, nat>, q: seq<nat>, n: nat,
                                     axes: seq<nat>, others: seq<nat>, found: seq<nat>)
    requires Distinct(q) && SameAxes(a, b, q) && |axes| <= |found| && RenamedAxes(axes, others, q)
    ensures AgreeAxes(BindAxes(a, n, axes, found), BindAxes(b, n, others, found), q)
    decreases |axes|
  {
    hide SameAxes, Distinct, BindAxis;
    if axes != [] {
      var last := |axes| - 1;
      AxesAgree(a, b, q, n, axes[..last], others[..last], found);
      var x, y := BindAxes(a, n, axes[..last], found), BindAxes(b, n, others[..last], found);
      if x.Ok? && y.Ok? {
        AxisAgrees(x.value, y.value, q, n, last, axes[last], found[last]);
      }
    }
  }

  lemma AxisAgrees(a: map<nat, nat>, b: map<nat, nat>, q: seq<nat>, n: nat, axis: nat, x: nat, found: nat)
    requires Distinct(q) && SameAxes(a, b, q) && x < |q|
    ensures AgreeAxes(BindAxis(a, n, axis, x, found), BindAxis(b, n, axis, q[x], found), q)
  {
  }

  lemma {:induction false} WrapAgree(leaf: ArgType, a: map<nat, nat>, b: map<nat, nat>, q: seq<nat>, axes: seq<nat>,
                                     others: seq<nat>)
    requires SameAxes(a, b, q) && RenamedAxes(axes, others, q) && forall x :: x in axes ==> x in a
    ensures WrapAxes(leaf, a, axes) == WrapAxes(leaf, b, others) && WrapAxes(leaf, a, axes).Ok?
    decreases |axes|
  {
    if axes != [] {
      assert axes[0] in axes;
      WrapAgree(leaf, a, b, q, axes[1..], others[1..]);
    }
  }

  // A whole call

  ghost predicate SameWalk(a: Walk, b: Walk, p: seq<nat>, q: seq<nat>) {
    SameBindings(a.dims, b.dims, p) && SameAxes(a.axes, b.axes, q)
  }

  ghost predicate AgreeWalk(x: Result<Walk, CallError>, y: Result<Walk, CallError>, p: seq<nat>, q: seq<nat>) {
    || x == Err(DimensionOverflow) || y == Err(DimensionOverflow)
    || (x.Ok? && y.Ok? && SameWalk(x.value, y.value, p, q))
    || (x.Err? && x == y && x.error != UnboundDim && x.error != UnboundIndex)
  }

  lemma ParamAgrees(a: Walk, b: Walk, p: seq<nat>, q: seq<nat>, n: nat, k: ParamKind, l: ParamKind, arg: ArgType)
    requires WfElement(Element(k)) && WfElement(Element(l)) && WfDims(a.dims) && WfDims(b.dims)
    requires RenamedKind(k, l, p, q) && Distinct(p) && Distinct(q) && SameWalk(a, b, p, q)
    requires ScalarReady(Element(k), a.dims)
    ensures AgreeWalk(CheckParam(a, n, k, arg), CheckParam(b, n, l, arg), p, q)
  {
    hide RenamedScalar, SameBindings, SameAxes, WfElement, WfDims, Distinct, ScalarReady, CheckElement, BindAxes,
         Peel, RenamedAxes;
    if k.Scalar? {
      ElementAgrees(a.dims, b.dims, p, n, k.scalar, l.scalar, arg);
    } else {
      var rank := |k.axes|;
      if Peel(arg, rank).Some? {
        var (inner, found) := Peel(arg, rank).value;
        ElementAgrees(a.dims, b.dims, p, n, k.element, l.element, inner);
        RenamedKindAxes(k, l, p, q);
        AxesAgree(a.axes, b.axes, q, n, k.axes, l.axes, found);
      }
    }
  }

  lemma RenamedKindAxes(k: ParamKind, l: ParamKind, p: seq<nat>, q: seq<nat>)
    requires RenamedKind(k, l, p, q)
    ensures RenamedAxes(Axes(k), Axes(l), q) && RenamedScalar(Element(k), Element(l), p)
  {
  }

  lemma RenamesParts(s: Signature, t: Signature, p: seq<nat>, q: seq<nat>)
    requires Renames(s, t, p, q)
    ensures Distinct(p) && Distinct(q) && |p| == |s.dims| && |q| == |s.indexes|
    ensures |s.params| == |t.params| && RenamedResult(s.result, t.result, p, q)
    ensures forall i :: 0 <= i < |s.params| ==> RenamedKind(s.params[i].kind, t.params[i].kind, p, q)
  {
  }

  lemma {:induction false} WalksAgree(s: Signature, t: Signature, p: seq<nat>, q: seq<nat>, args: seq<ArgType>, n: nat)
    requires ValidSignature(s) && ValidSignature(t) && Renames(s, t, p, q) && WfArgs(args)
    requires n <= |s.params| && n <= |args|
    ensures |t.params| == |s.params|
    ensures AgreeWalk(CheckParams(s.params, args, n), CheckParams(t.params, args, n), p, q)
  {
    hide CheckParam, ValidSignature, Renames, SameWalk, Covers, WfArgs, RenamedKind, RenamedResult, Distinct, WfDims,
         ScalarReady, WfElement;
    RenamesParts(s, t, p, q);
    if n == 0 {
      NoBindings(p, q);
    } else {
      WalksAgree(s, t, p, q, args, n - 1);
      WalkCovers(s.params, args, n - 1);
      WalkCovers(t.params, args, n - 1);
      var x, y := CheckParams(s.params, args, n - 1), CheckParams(t.params, args, n - 1);
      if x.Ok? && y.Ok? {
        CoveredWf(x.value, s.params[..n - 1]);
        CoveredWf(y.value, t.params[..n - 1]);
        ReadyFor(s, x.value, n - 1);
        ReadyFor(t, y.value, n - 1);
        ParamAgrees(x.value, y.value, p, q, n - 1, s.params[n - 1].kind, t.params[n - 1].kind, args[n - 1]);
      }
    }
  }

  lemma NoBindings(p: seq<nat>, q: seq<nat>)
    ensures SameWalk(Walk(map[], map[]), Walk(map[], map[]), p, q)
  {
  }

  /** The same outcome, which is no internal error, unless a side overflows. */
  ghost predicate AgreeCall(x: Result<ArgType, CallError>, y: Result<ArgType, CallError>) {
    || x == Err(DimensionOverflow) || y == Err(DimensionOverflow)
    || (x == y && x != Err(UnboundDim) && x != Err(UnboundIndex))
  }

  lemma LeavesAgree(a: map<nat, Monomial>, b: map<nat, Monomial>, p: seq<nat>, k: ScalarKind, l: ScalarKind)
    requires WfElement(k) && WfElement(l) && WfDims(a) && WfDims(b)
    requires RenamedScalar(k, l, p) && Distinct(p) && SameBindings(a, b, p)
    requires k.Quantity? ==> AllBound(k.monomial, a)
    ensures AgreeCall(ScalarType(a, k), ScalarType(b, l))
  {
    hide Eval, RenamedMonomial, SameBindings, WfDims, AllBound, WfDimMonomial;
    if k.Quantity? {
      EvalRenamed(k.monomial, l.monomial, p, a, b);
    }
  }

  lemma ResultsAgree(s: Signature, t: Signature, p: seq<nat>, q: seq<nat>, a: Walk, b: Walk)
    requires ValidSignature(s) && ValidSignature(t) && Renames(s, t, p, q) && SameRecord(s.result, t.result)
    requires SameWalk(a, b, p, q) && Covers(a, s.params) && Covers(b, t.params)
    ensures AgreeCall(ResultType(a, s.result), ResultType(b, t.result))
  {
    hide ValidSignature, Renames, RenamedKind, Covers, Distinct, WfDims, WfElement, ScalarType, WrapAxes, Axes,
         RenamedAxes, SameBindings, SameAxes;
    RenamesParts(s, t, p, q);
    if s.result.Value? {
      var k, l := s.result.kind, t.result.kind;
      ResultBound(s, a);
      ResultBound(t, b);
      CoveredWf(a, s.params);
      CoveredWf(b, t.params);
      RenamedKindAxes(k, l, p, q);
      LeavesAgree(a.dims, b.dims, p, Element(k), Element(l));
      if ScalarType(a.dims, Element(k)).Ok? {
        WrapAgree(ScalarType(a.dims, Element(k)).value, a.axes, b.axes, q, Axes(k), Axes(l));
      }
      if ScalarType(b.dims, Element(l)).Ok? && ScalarType(a.dims, Element(k)).Err? {
        assert ScalarType(a.dims, Element(k)) == Err(DimensionOverflow);
      }
    }
  }

  lemma RenamedCallsAgree(s: Signature, t: Signature, p: seq<nat>, q: seq<nat>, args: seq<ArgType>)
    requires ValidSignature(s) && ValidSignature(t) && Renames(s, t, p, q) && WfArgs(args)
    requires SameRecord(s.result, t.result)
    ensures AgreeCall(CallType(s, args), CallType(t, args))
  {
    hide ValidSignature, Renames, Covers, WfArgs, ResultType, CheckParams, SameWalk;
    RenamesParts(s, t, p, q);
    if |args| == |s.params| {
      WalksAgree(s, t, p, q, args, |args|);
      WalkCovers(s.params, args, |args|);
      WalkCovers(t.params, args, |args|);
      assert s.params[..|args|] == s.params && t.params[..|args|] == t.params;
      var x, y := CheckParams(s.params, args, |args|), CheckParams(t.params, args, |args|);
      if x.Ok? && y.Ok? {
        ResultsAgree(s, t, p, q, x.value, y.value);
      }
    }
  }

  /** `t` with the record of `s`, should both have struct results. */
  function WithRecordOf(t: Signature, s: Signature): Signature {
    if s.result.Struct? && t.result.Struct? then t.(result := t.result.(record := s.result.record)) else t
  }

  lemma RecordOnly(s: Signature, t: Signature, p: seq<nat>, q: seq<nat>, args: seq<ArgType>)
    requires ValidSignature(t) && Renames(s, t, p, q)
    ensures var u := WithRecordOf(t, s);
            && ValidSignature(u) && Renames(s, u, p, q) && SameRecord(s.result, u.result)
            && (CallType(u, args).Err? <==> CallType(t, args).Err?)
            && (CallType(u, args).Err? ==> CallType(u, args) == CallType(t, args))
            && (SameRecord(s.result, t.result) ==> u == t)
  {
    hide BoundBy, AxisOf, CheckParams, Permutation, RenamedKind, WfKind;
  }

  /** A call of a function with a struct result answers the record, or an error. */
  lemma StructTyped(s: Signature, args: seq<ArgType>)
    requires s.result.Struct? && ValidSignature(s) && WfArgs(args)
    ensures CallType(s, args).Ok? <==> AllMatch(s, args)
    ensures CallType(s, args).Ok? ==> CallType(s, args) == Ok(StructType(s.result.record))
  {
    hide ValidSignature, WfArgs, CheckParams, Matches, Given, Covers;
    if |args| == |s.params| {
      PassesIffMatches(s, args, |args|);
    }
  }

  /** Structurally equivalent signatures type a call identically exactly when an
      exponent overflow befalls both or neither, and a call that returns a
      struct returns the same record. */
  lemma EquivalentCallsAgree(s: Signature, t: Signature, args: seq<ArgType>)
    requires ValidSignature(s) && ValidSignature(t) && StructurallyEquivalent(s, t) && WfArgs(args)
    ensures CallType(s, args) == CallType(t, args) <==>
            && (Overflows(s, args) <==> Overflows(t, args))
            && (AllMatch(s, args) ==> SameRecord(s.result, t.result))
  {
    hide ValidSignature, StructurallyEquivalent, WfArgs, CallType, Renames, Overflows, AllMatch;
    var p, q := EquivalentRenames(s, t);
    var u := WithRecordOf(t, s);
    RecordOnly(s, t, p, q, args);
    RenamedCallsAgree(s, u, p, q, args);
    OverflowExact(s, args);
    OverflowExact(t, args);
    if s.result.Struct? && t.result.Struct? {
      StructTyped(s, args);
      StructTyped(t, args);
    }
  }

  // Equivalence ignores which record a struct result names

  const ONE_FIELD: seq<Field> := [Field(0, BoolField)]
  const FIRST_RECORD: Signature := Signature([], [], [], Struct(0, ONE_FIELD))
  const OTHER_RECORD: Signature := Signature([], [], [], Struct(1, ONE_FIELD))

  /** Equivalent signatures that name different records of one shape type a call
      differently, although nothing overflows. */
  lemma RecordsDiffer()
    ensures ValidSignature(FIRST_RECORD) && ValidSignature(OTHER_RECORD)
    ensures StructurallyEquivalent(FIRST_RECORD, OTHER_RECORD)
    ensures CallType(FIRST_RECORD, []) == Ok(StructType(0)) && CallType(OTHER_RECORD, []) == Ok(StructType(1))
    ensures !Overflows(FIRST_RECORD, []) && !Overflows(OTHER_RECORD, [])
  {
    hide Overflows;
    OverflowExact(FIRST_RECORD, []);
    OverflowExact(OTHER_RECORD, []);
  }

  // Overflow depends on the order of the factors

  const LARGE: Monomial := map[0 := Ratio(MAX, 1)]
  const SMALL: Monomial := map[0 := Ratio(-MAX, 1)]

  function Bare(v: nat): ParamKind {
    Scalar(Quantity(DimMonomial(map[v := ONE], map[])))
  }

  const PRODUCT: ResultKind := Value(Scalar(Quantity(DimMonomial(map[0 := ONE, 1 := ONE, 2 := ONE], map[]))))
  const IN_ORDER: Signature := Signature([0, 1, 2], [], [Param(0, Bare(0)), Param(1, Bare(1)), Param(2, Bare(2))],
                                         PRODUCT)
  const SWAPPED: Signature := Signature([0, 2, 1], [], [Param(0, Bare(0)), Param(1, Bare(2)), Param(2, Bare(1))],
                                        PRODUCT)
  const ARGS: seq<ArgType> := [QuantityType(LARGE), QuantityType(LARGE), QuantityType(SMALL)]

  lemma LargeAndSmall()
    ensures WfMonomial(LARGE) && WfMonomial(SMALL)
    ensures forall b: nat :: Exp(LARGE, b) == if b == 0 then MAX as real else 0.0
    ensures forall b: nat :: Exp(SMALL, b) == if b == 0 then -(MAX as real) else 0.0
  {
    assert Abs(MAX) == MAX && Abs(-MAX) == MAX;
    GcdOne(MAX);
  }

  lemma ThreeKeys()
    ensures InOrder({0, 1, 2}) == [0, 1, 2]
  {
    hide InOrder, Least;
    var keys := InOrder({0, 1, 2});
    assert 0 in keys && 1 in keys && 2 in keys;
    AllListed(keys, 3);
    forall i | 0 <= i < 3
      ensures keys[i] < 3
    {
      assert keys[i] in keys;
    }
  }

  lemma LargeProducts()
    ensures TryMul(map[], LARGE) == Ok(LARGE) && TryMul(LARGE, LARGE).Err?
    ensures TryMul(LARGE, SMALL) == Ok(map[])
    ensures TryPow(LARGE, ONE) == Ok(LARGE) && TryPow(SMALL, ONE) == Ok(SMALL)
  {
    hide TryMul, TryPow;
    LargeAndSmall();
    MulUnit(LARGE);
    PowOne(LARGE);
    PowOne(SMALL);
    TryMulExact(LARGE, LARGE);
    if TryMul(LARGE, LARGE).Ok? {
      assert Representable(Exp(LARGE, 0) + Exp(LARGE, 0));
      RepresentableBound(Exp(LARGE, 0) + Exp(LARGE, 0));
    }
    TryMulExact(LARGE, SMALL);
    ZeroRepresentable();
    SameExponents(TryMul(LARGE, SMALL).value, map[]);
  }

  lemma TimesLarge()
    ensures Times(map[], LARGE, ONE) == Ok(LARGE) && Times(LARGE, LARGE, ONE) == Err(ExponentOverflow)
    ensures Times(LARGE, SMALL, ONE) == Ok(map[])
  {
    hide TryMul, TryPow;
    LargeProducts();
  }

  /** The product of three variables that are all bound. */
  lemma EvalProduct(m: DimMonomial, dims: map<nat, Monomial>)
    requires m.vars.Keys == {0, 1, 2} && m.vars[0] == m.vars[1] == m.vars[2] == ONE && m.fixed == map[]
    requires 0 in dims && 1 in dims && 2 in dims
    ensures Eval(m, dims) ==
              match Times(map[], dims[0], ONE)
              case Err(error) => Err(error)
              case Ok(first) =>
                match Times(first, dims[1], ONE)
                case Err(error) => Err(error)
                case Ok(second) => Times(second, dims[2], ONE)
  {
    hide Times, EvalKeys, InOrder;
    ThreeKeys();
    EvalNone(m, dims);
    EvalLast(m, dims, [], 0);
    EvalLast(m, dims, [0], 1);
    EvalLast(m, dims, [0, 1], 2);
    assert [] + [0] == [0] && [0] + [1] == [0, 1] && [0, 1] + [2] == [0, 1, 2];
  }

  lemma EvalLast(m: DimMonomial, dims: map<nat, Monomial>, keys: seq<nat>, k: nat)
    requires (forall j :: j in keys ==> j in m.vars) && k in m.vars && k in dims
    ensures EvalKeys(m, dims, keys + [k]) ==
              match EvalKeys(m, dims, keys)
              case Err(error) => Err(error)
              case Ok(acc) => Times(acc, dims[k], m.vars[k])
  {
    hide Times;
    assert (keys + [k])[..|keys|] == keys;
  }

  lemma BareParam(walk: Walk, n: nat, v: nat, d: Monomial)
    requires v !in walk.dims
    ensures CheckParam(walk, n, Bare(v), QuantityType(d)) == Ok(Walk(walk.dims[v := d], walk.axes))
  {
    BareIs(DimMonomial(map[v := ONE], map[]), v);
  }

  lemma BareWalk(s: Signature, u: nat, v: nat, w: nat)
    requires s.params == [Param(0, Bare(u)), Param(1, Bare(v)), Param(2, Bare(w))] && u != v && v != w && u != w
    ensures CheckParams(s.params, ARGS, 3) == Ok(Walk(map[u := LARGE, v := LARGE, w := SMALL], map[]))
  {
    hide CheckParam;
    BareParam(Walk(map[], map[]), 0, u, LARGE);
    assert CheckParams(s.params, ARGS, 1) == Ok(Walk(map[u := LARGE], map[]));
    BareParam(Walk(map[u := LARGE], map[]), 1, v, LARGE);
    assert CheckParams(s.params, ARGS, 2) == Ok(Walk(map[u := LARGE, v := LARGE], map[]));
    BareParam(Walk(map[u := LARGE, v := LARGE], map[]), 2, w, SMALL);
  }

  lemma BareVarsBound(s: Signature, u: nat, v: nat, w: nat)
    requires s.params == [Param(0, Bare(u)), Param(1, Bare(v)), Param(2, Bare(w))]
    requires s.indexes == [] && |s.dims| == 3 && s.result == PRODUCT
    requires u < 3 && v < 3 && w < 3 && u != v && v != w && u != w
    ensures ValidSignature(s)
  {
    hide Binds, Vars, WfScalar, Bare;
    BindsBare(u);
    BindsBare(v);
    BindsBare(w);
    ProductWf();
    assert Binds(s.params[0].kind, u) && Binds(s.params[1].kind, v) && Binds(s.params[2].kind, w);
    forall x: nat | x < 3
      ensures BoundBy(s.params, x)
    {
      var j := if x == u then 0 else if x == v then 1 else 2;
      assert Binds(s.params[j].kind, x);
    }
  }

  lemma ProductWf()
    ensures WfKind(PRODUCT.kind, 3, 0)
  {
    ValZero(ONE);
  }

  lemma BindsBare(v: nat)
    ensures Binds(Bare(v), v) && Vars(Bare(v)) == {v} && forall n: nat :: v < n ==> WfKind(Bare(v), n, 0)
  {
    ValZero(ONE);
    BareIs(DimMonomial(map[v := ONE], map[]), v);
  }

  /** Equivalent signatures that declare their binders in different orders can
      differ on overflow: the factors are multiplied in declaration order. */
  lemma OverflowDependsOnOrder()
    ensures ValidSignature(IN_ORDER) && ValidSignature(SWAPPED) && StructurallyEquivalent(IN_ORDER, SWAPPED)
            && WfArgs(ARGS)
    ensures CallType(IN_ORDER, ARGS) == Err(DimensionOverflow)
    ensures CallType(SWAPPED, ARGS) == Ok(QuantityType(LARGE))
  {
    hide ValidSignature, Renames, StructurallyEquivalent, CheckParams, Eval, Times, WfMonomial;
    LargeAndSmall();
    BareVarsBound(IN_ORDER, 0, 1, 2);
    BareVarsBound(SWAPPED, 0, 2, 1);
    SwappedRenames();
    EquivalentIffRenamed(IN_ORDER, SWAPPED);
    TimesLarge();
    BareWalk(IN_ORDER, 0, 1, 2);
    EvalProduct(PRODUCT.kind.scalar.monomial, map[0 := LARGE, 1 := LARGE, 2 := SMALL]);
    BareWalk(SWAPPED, 0, 2, 1);
    EvalProduct(PRODUCT.kind.scalar.monomial, map[0 := LARGE, 2 := LARGE, 1 := SMALL]);
  }

  lemma BareRenamed(v: nat, p: seq<nat>)
    requires v < |p|
    ensures RenamedKind(Bare(v), Bare(p[v]), p, [])
  {
    var m: Monomial := map[v := ONE];
    assert v in m;
  }

  lemma ProductRenamed()
    ensures RenamedResult(PRODUCT, PRODUCT, [0, 2, 1], [])
  {
    hide RenamedMonomial;
    ThreeRenamed(PRODUCT.kind.scalar.monomial, [0, 2, 1]);
  }

  lemma ThreeRenamed(m: DimMonomial, p: seq<nat>)
    requires (forall k: nat :: k in m.vars <==> k < 3) && m.vars[0] == m.vars[1] == m.vars[2]
    requires |p| == 3 && p[0] == 0 && p[1] == 2 && p[2] == 1
    ensures RenamedMonomial(m, m, p)
  {
    forall k | k in m.vars
      ensures k < 3 && p[k] in m.vars && m.vars[p[k]] == m.vars[k]
    {
      assert k == 0 || k == 1 || k == 2;
    }
    forall j | j in m.vars
      ensures exists k :: k in m.vars && k < |p| && p[k] == j
    {
      assert p[p[j]] == j && p[j] in m.vars;
    }
  }

  lemma SwappedRenames()
    ensures Renames(IN_ORDER, SWAPPED, [0, 2, 1], [])
  {
    hide RenamedKind, RenamedResult, Bare;
    var p: seq<nat> := [0, 2, 1];
    BareRenamed(0, p);
    BareRenamed(1, p);
    BareRenamed(2, p);
    ProductRenamed();
  }
}
