/** Sparse monomials with rational exponents: the algebra shared by physical
    dimensions and signature monomials. Keys are numbered in their order. */
module Monomials {
  import opened Outcomes
  import opened Numbers
  import opened Ratios

  /** Only non-zero exponents are stored. */
  type Monomial = map<nat, Ratio>

  ghost predicate WfMonomial(m: Monomial) {
    forall k :: k in m ==> Valid(m[k]) && m[k] != ZERO
  }

  /** The exponent of a key, zero when it is absent. */
  ghost function Exp(m: Monomial, k: nat): real
    requires WfMonomial(m)
  {
    if k in m then Val(m[k]) else 0.0
  }

  predicate IsLeast(s: set<nat>, k: nat) {
    k in s && forall j :: j in s ==> k <= j
  }

  function Least(s: set<nat>): (k: nat)
    requires s != {}
    ensures k in s && forall j :: j in s ==> k <= j
  {
    LeastExists(s);
    var k :| k in s && IsLeast(s, k);
    k
  }

  lemma {:induction false} LeastExists(s: set<nat>)
    requires s != {}
    ensures exists k :: k in s && IsLeast(s, k)
  {
    var x :| x in s;
    var rest := s - {x};
    if rest == {} {
      assert s == {x};
      assert IsLeast(s, x);
    } else {
      LeastExists(rest);
      var k :| k in rest && IsLeast(rest, k);
      var least := if x <= k then x else k;
      assert forall j :: j in s ==> j == x || j in rest;
      assert least in s && IsLeast(s, least);
    }
  }

  /** The order in which a monomial's factors are visited. */
  function InOrder(s: set<nat>): (keys: seq<nat>)
    ensures forall k: nat :: k in keys <==> k in s
    ensures forall i, j :: 0 <= i < j < |keys| ==> keys[i] < keys[j]
  {
    if s == {} then []
    else
      var k := Least(s);
      var rest := InOrder(s - {k});
      assert forall i :: 0 <= i < |rest| ==> rest[i] in rest;
      [k] + rest
  }

  lemma InOrderSingle(v: nat)
    ensures InOrder({v}) == [v]
  {
    var keys := InOrder({v});
    assert v in keys;
    forall i | 0 <= i < |keys|
      ensures keys[i] == v
    {
      assert keys[i] in keys;
    }
  }

  /** Multiply one factor `k^e` into `acc`; a factor that cancels vanishes. */
  function MulFactor(acc: Monomial, k: nat, e: Ratio): Result<Monomial, RatioError> {
    if k !in acc then Ok(acc[k := e])
    else
      match Add(acc[k], e)
      case Err(error) => Err(error)
      case Ok(sum) => Ok(if sum.num == 0 then acc - {k} else acc[k := sum])
  }

  function MulKeys(acc: Monomial, b: Monomial, keys: seq<nat>): Result<Monomial, RatioError>
    requires forall k :: k in keys ==> k in b
    decreases |keys|
  {
    if keys == [] then Ok(acc)
    else
      match MulFactor(acc, keys[0], b[keys[0]])
      case Err(error) => Err(error)
      case Ok(next) => MulKeys(next, b, keys[1..])
  }

  function TryMul(a: Monomial, b: Monomial): Result<Monomial, RatioError> {
    MulKeys(a, b, InOrder(b.Keys))
  }

  function PowFactor(acc: Monomial, k: nat, e: Ratio, p: Ratio): Result<Monomial, RatioError> {
    match Mul(e, p)
    case Err(error) => Err(error)
    case Ok(product) => Ok(if product.num == 0 then acc else acc[k := product])
  }

  function PowKeys(acc: Monomial, a: Monomial, p: Ratio, keys: seq<nat>): Result<Monomial, RatioError>
    requires forall k :: k in keys ==> k in a
    decreases |keys|
  {
    if keys == [] then Ok(acc)
    else
      match PowFactor(acc, keys[0], a[keys[0]], p)
      case Err(error) => Err(error)
      case Ok(next) => PowKeys(next, a, p, keys[1..])
  }

  function TryPow(a: Monomial, p: Ratio): Result<Monomial, RatioError> {
    if p.num == 0 then Ok(map[]) else PowKeys(map[], a, p, InOrder(a.Keys))
  }

  function Inverse(a: Monomial): Monomial {
    map k | k in a :: Neg(a[k])
  }

  function TryDiv(a: Monomial, b: Monomial): Result<Monomial, RatioError> {
    TryMul(a, Inverse(b))
  }

  // Exponents determine the monomial

  lemma SameExponents(a: Monomial, b: Monomial)
    requires WfMonomial(a) && WfMonomial(b) && forall k: nat :: Exp(a, k) == Exp(b, k)
    ensures a == b
  {
    forall k: nat
      ensures k in a <==> k in b
      ensures k in a && k in b ==> a[k] == b[k]
    {
      assert Exp(a, k) == Exp(b, k);
      if k in a {
        ValZero(a[k]);
      }
      if k in b {
        ValZero(b[k]);
      }
      if k in a && k in b {
        SameVal(a[k], b[k]);
      }
    }
    assert a.Keys == b.Keys;
  }

  lemma ExpRepresentable(m: Monomial, k: nat)
    requires WfMonomial(m)
    ensures Representable(Exp(m, k))
  {
    if k in m {
      assert Valid(m[k]);
    } else {
      ValZero(ZERO);
    }
  }

  // Multiplication adds exponents

  lemma MulFactorExact(acc: Monomial, k: nat, e: Ratio)
    requires WfMonomial(acc) && Valid(e) && e != ZERO
    ensures MulFactor(acc, k, e).Ok? <==> Representable(Exp(acc, k) + Val(e))
    ensures var r := MulFactor(acc, k, e);
            if r.Ok? then
              WfMonomial(r.value) && forall j: nat :: Exp(r.value, j) == Exp(acc, j) + if j == k then Val(e) else 0.0
            else r.error == Overflow
  {
    hide Add, Mul, Val, Scaled;
    if k !in acc {
      assert Representable(Val(e));
    } else {
      AddExact(acc[k], e);
      if Add(acc[k], e).Ok? {
        ValZero(Add(acc[k], e).value);
      }
    }
  }

  ghost predicate Summable(acc: Monomial, b: Monomial, keys: seq<nat>)
    requires WfMonomial(acc) && WfMonomial(b)
  {
    forall k: nat :: k in keys ==> Representable(Exp(acc, k) + Exp(b, k))
  }

  ghost predicate IsSum(r: Monomial, acc: Monomial, b: Monomial, keys: seq<nat>)
    requires WfMonomial(acc) && WfMonomial(b)
  {
    WfMonomial(r) && forall k: nat :: Exp(r, k) == Exp(acc, k) + if k in keys then Exp(b, k) else 0.0
  }

  lemma MulStep(acc: Monomial, next: Monomial, b: Monomial, keys: seq<nat>)
    requires keys != [] && Increasing(keys) && WfMonomial(acc) && WfMonomial(next) && WfMonomial(b)
    requires IsSum(next, acc, b, [keys[0]])
    ensures Summable(next, b, keys[1..]) <==> forall k: nat :: k in keys[1..] ==> Representable(Exp(acc, k) + Exp(b, k))
    ensures forall r :: IsSum(r, next, b, keys[1..]) ==> IsSum(r, acc, b, keys)
  {
    hide Representable, Exp, WfMonomial, IsSum;
    FirstOnly(acc, next, b, keys);
    forall r | IsSum(r, next, b, keys[1..])
      ensures IsSum(r, acc, b, keys)
    {
      SumWhole(r, acc, next, b, keys);
    }
  }

  /** Adding the first key leaves the exponents of the others. */
  lemma FirstOnly(acc: Monomial, next: Monomial, b: Monomial, keys: seq<nat>)
    requires keys != [] && Increasing(keys) && WfMonomial(acc) && WfMonomial(next) && WfMonomial(b)
    requires IsSum(next, acc, b, [keys[0]])
    ensures keys[0] !in keys[1..] && Exp(next, keys[0]) == Exp(acc, keys[0]) + Exp(b, keys[0])
    ensures forall j: nat :: j != keys[0] ==> Exp(next, j) == Exp(acc, j)
  {
    hide Exp, WfMonomial;
    assert keys[0] in [keys[0]];
  }

  lemma SumWhole(r: Monomial, acc: Monomial, next: Monomial, b: Monomial, keys: seq<nat>)
    requires keys != [] && Increasing(keys) && WfMonomial(acc) && WfMonomial(next) && WfMonomial(b)
    requires IsSum(next, acc, b, [keys[0]]) && IsSum(r, next, b, keys[1..])
    ensures IsSum(r, acc, b, keys)
  {
    hide Exp, WfMonomial, Increasing;
    FirstOnly(acc, next, b, keys);
    assert keys == [keys[0]] + keys[1..];
  }

  lemma {:induction false} MulKeysExact(acc: Monomial, b: Monomial, keys: seq<nat>)
    requires WfMonomial(acc) && WfMonomial(b) && Increasing(keys) && forall k :: k in keys ==> k in b
    ensures MulKeys(acc, b, keys).Ok? <==> Summable(acc, b, keys)
    ensures var r := MulKeys(acc, b, keys);
            if r.Ok? then IsSum(r.value, acc, b, keys) else r.error == Overflow
    decreases |keys|
  {
    hide Val, Scaled, MulFactor, PowFactor;
    if keys != [] {
      var k, rest := keys[0], keys[1..];
      assert keys == [k] + rest && k in keys;
      MulFactorExact(acc, k, b[k]);
      assert Exp(b, k) == Val(b[k]);
      var step := MulFactor(acc, k, b[k]);
      if step.Ok? {
        assert IsSum(step.value, acc, b, [k]);
        MulStep(acc, step.value, b, keys);
        MulKeysExact(step.value, b, rest);
      }
    }
  }

  /** A product exists exactly when every exponent sum is representable. */
  lemma TryMulExact(a: Monomial, b: Monomial)
    requires WfMonomial(a) && WfMonomial(b)
    ensures TryMul(a, b).Ok? <==> forall k: nat :: Representable(Exp(a, k) + Exp(b, k))
    ensures var r := TryMul(a, b);
            if r.Ok? then WfMonomial(r.value) && forall k: nat :: Exp(r.value, k) == Exp(a, k) + Exp(b, k)
            else r.error == Overflow
  {
    var keys := InOrder(b.Keys);
    MulKeysExact(a, b, keys);
    hide Val, Valid;
    forall k: nat
      ensures k !in keys ==> Representable(Exp(a, k) + Exp(b, k)) && Exp(b, k) == 0.0
    {
      ExpRepresentable(a, k);
    }
  }

  // Powers scale exponents

  ghost function Scaled(x: real, p: Ratio): real
    requires Valid(p)
  {
    x * Val(p)
  }

  lemma ScaledSum(x: real, y: real, p: Ratio)
    requires Valid(p)
    ensures Scaled(x + y, p) == Scaled(x, p) + Scaled(y, p)
  {
  }

  lemma ScaledZero(p: Ratio)
    requires Valid(p)
    ensures Scaled(0.0, p) == 0.0
    ensures p.num == 0 ==> forall x: real :: Scaled(x, p) == 0.0
  {
    ValZero(p);
  }

  lemma PowFactorExact(acc: Monomial, k: nat, e: Ratio, p: Ratio)
    requires WfMonomial(acc) && Valid(e) && Valid(p) && k !in acc
    ensures PowFactor(acc, k, e, p).Ok? <==> Representable(Scaled(Val(e), p))
    ensures var r := PowFactor(acc, k, e, p);
            if r.Ok? then
              && WfMonomial(r.value) && r.value.Keys <= acc.Keys + {k}
              && forall j: nat :: Exp(r.value, j) == if j == k then Scaled(Val(e), p) else Exp(acc, j)
            else r.error == Overflow
  {
    hide Mul, Val;
    MulExact(e, p);
    if Mul(e, p).Ok? {
      ValZero(Mul(e, p).value);
    }
  }

  ghost predicate Scalable(a: Monomial, p: Ratio, keys: seq<nat>)
    requires WfMonomial(a) && Valid(p)
  {
    forall k: nat :: k in keys ==> Representable(Scaled(Exp(a, k), p))
  }

  ghost predicate IsScaled(r: Monomial, acc: Monomial, a: Monomial, p: Ratio, keys: seq<nat>)
    requires WfMonomial(acc) && WfMonomial(a) && Valid(p)
  {
    WfMonomial(r) && forall k: nat :: Exp(r, k) == if k in keys then Scaled(Exp(a, k), p) else Exp(acc, k)
  }

  lemma PowStep(acc: Monomial, next: Monomial, a: Monomial, p: Ratio, keys: seq<nat>)
    requires keys != [] && Increasing(keys) && WfMonomial(acc) && WfMonomial(next) && WfMonomial(a) && Valid(p)
    requires IsScaled(next, acc, a, p, [keys[0]])
    ensures forall r :: IsScaled(r, next, a, p, keys[1..]) ==> IsScaled(r, acc, a, p, keys)
  {
    hide Representable, Val, Valid, Scaled, Exp, WfMonomial;
    var k, rest := keys[0], keys[1..];
    assert keys == [k] + rest && k !in rest;
    assert forall j: nat :: j != k ==> j !in [k] && Exp(next, j) == Exp(acc, j);
    assert k in [k];
  }

  lemma {:induction false} PowKeysExact(acc: Monomial, a: Monomial, p: Ratio, keys: seq<nat>)
    requires WfMonomial(acc) && WfMonomial(a) && Valid(p) && Increasing(keys)
    requires forall k :: k in keys ==> k in a && k !in acc
    ensures PowKeys(acc, a, p, keys).Ok? <==> Scalable(a, p, keys)
    ensures var r := PowKeys(acc, a, p, keys);
            if r.Ok? then IsScaled(r.value, acc, a, p, keys) else r.error == Overflow
    decreases |keys|
  {
    hide Val, Scaled, MulFactor, PowFactor;
    if keys != [] {
      var k, rest := keys[0], keys[1..];
      assert keys == [k] + rest && k in keys && k !in rest;
      PowFactorExact(acc, k, a[k], p);
      assert Exp(a, k) == Val(a[k]);
      var step := PowFactor(acc, k, a[k], p);
      if step.Ok? {
        assert IsScaled(step.value, acc, a, p, [k]);
        PowStep(acc, step.value, a, p, keys);
        PowKeysExact(step.value, a, p, rest);
      }
    }
  }

  /** A power exists exactly when every exponent product is representable. */
  lemma TryPowExact(a: Monomial, p: Ratio)
    requires WfMonomial(a) && Valid(p)
    ensures TryPow(a, p).Ok? <==> forall k: nat :: Representable(Scaled(Exp(a, k), p))
    ensures var r := TryPow(a, p);
            if r.Ok? then WfMonomial(r.value) && forall k: nat :: Exp(r.value, k) == Scaled(Exp(a, k), p)
            else r.error == Overflow
  {
    ScaledZero(p);
    ZeroRepresentable();
    var keys := InOrder(a.Keys);
    if p.num != 0 {
      PowKeysExact(map[], a, p, keys);
    }
    hide Val, Valid, Representable, Scaled;
    assert forall k: nat :: k !in keys ==> Exp(a, k) == 0.0;
  }

  lemma ZeroRepresentable()
    ensures Representable(0.0)
  {
    ValZero(ZERO);
  }

  /** The inverse always exists. */
  lemma InverseExact(a: Monomial)
    requires WfMonomial(a)
    ensures WfMonomial(Inverse(a)) && forall k: nat :: Exp(Inverse(a), k) == -Exp(a, k)
  {
    forall k | k in a
      ensures Valid(Neg(a[k])) && Neg(a[k]) != ZERO && Val(Neg(a[k])) == -Val(a[k])
    {
      NegExact(a[k]);
      ValZero(a[k]);
      ValZero(Neg(a[k]));
    }
  }

  lemma TryDivExact(a: Monomial, b: Monomial)
    requires WfMonomial(a) && WfMonomial(b)
    ensures TryDiv(a, b).Ok? <==> forall k: nat :: Representable(Exp(a, k) - Exp(b, k))
    ensures var r := TryDiv(a, b);
            if r.Ok? then WfMonomial(r.value) && forall k: nat :: Exp(r.value, k) == Exp(a, k) - Exp(b, k)
            else r.error == Overflow
  {
    InverseExact(b);
    TryMulExact(a, Inverse(b));
    hide Val, Valid, Representable;
    assert forall k: nat :: Exp(a, k) + Exp(Inverse(b), k) == Exp(a, k) - Exp(b, k);
  }

  // Laws

  /** The two orders of a product agree, also on overflow. */
  lemma MulCommutes(a: Monomial, b: Monomial)
    requires WfMonomial(a) && WfMonomial(b)
    ensures TryMul(a, b) == TryMul(b, a)
  {
    hide TryMul, TryPow, TryDiv, Inverse, MulKeys, PowKeys, InOrder, Val, Valid, Representable, Scaled, Exp, WfMonomial;
    TryMulExact(a, b);
    TryMulExact(b, a);
    assert forall k: nat :: Exp(a, k) + Exp(b, k) == Exp(b, k) + Exp(a, k);
    if TryMul(a, b).Ok? {
      SameExponents(TryMul(a, b).value, TryMul(b, a).value);
    }
  }

  lemma MulAssociates(a: Monomial, b: Monomial, c: Monomial, ab: Monomial, bc: Monomial)
    requires WfMonomial(a) && WfMonomial(b) && WfMonomial(c) && TryMul(a, b) == Ok(ab) && TryMul(b, c) == Ok(bc)
    ensures TryMul(ab, c) == TryMul(a, bc)
  {
    hide TryMul, TryPow, TryDiv, Inverse, MulKeys, PowKeys, InOrder, Val, Valid, Representable, Scaled, Exp, WfMonomial;
    TryMulExact(a, b);
    TryMulExact(b, c);
    TryMulExact(ab, c);
    TryMulExact(a, bc);
    assert forall k: nat :: Exp(ab, k) + Exp(c, k) == Exp(a, k) + Exp(bc, k);
    if TryMul(ab, c).Ok? {
      SameExponents(TryMul(ab, c).value, TryMul(a, bc).value);
    }
  }

  /** Multiplying by the unit changes nothing. */
  lemma MulUnit(a: Monomial)
    requires WfMonomial(a)
    ensures TryMul(a, map[]) == Ok(a) && TryMul(map[], a) == Ok(a)
  {
    TryMulExact(a, map[]);
    MulCommutes(a, map[]);
    forall k: nat
      ensures Representable(Exp(a, k) + Exp(map[], k))
    {
      ExpRepresentable(a, k);
    }
    SameExponents(a, TryMul(a, map[]).value);
  }

  /** Division undoes multiplication and never overflows when it does. */
  lemma DivUndoesMul(a: Monomial, b: Monomial, ab: Monomial)
    requires WfMonomial(a) && WfMonomial(b) && TryMul(a, b) == Ok(ab)
    ensures TryDiv(ab, b) == Ok(a)
  {
    hide TryMul, TryPow, TryDiv, Inverse, MulKeys, PowKeys, InOrder, Val, Valid, Representable, Scaled, Exp, WfMonomial;
    TryMulExact(a, b);
    TryDivExact(ab, b);
    forall k: nat
      ensures Representable(Exp(ab, k) - Exp(b, k)) && Exp(ab, k) - Exp(b, k) == Exp(a, k)
    {
      ExpRepresentable(a, k);
    }
    SameExponents(a, TryDiv(ab, b).value);
  }

  /** Every monomial divided by itself is the unit. */
  lemma DivSelf(a: Monomial)
    requires WfMonomial(a)
    ensures TryDiv(a, a) == Ok(map[])
  {
    hide TryMul, TryPow, TryDiv, Inverse, MulKeys, PowKeys, InOrder, Val, Valid, Representable, Scaled;
    MulUnit(a);
    DivUndoesMul(map[], a, a);
  }

  /** A power of a product is the product of the powers, whenever those exist. */
  lemma PowDistributes(a: Monomial, b: Monomial, p: Ratio, ab: Monomial, ap: Monomial, bp: Monomial)
    requires WfMonomial(a) && WfMonomial(b) && Valid(p)
    requires TryMul(a, b) == Ok(ab) && TryPow(a, p) == Ok(ap) && TryPow(b, p) == Ok(bp)
    ensures TryPow(ab, p) == TryMul(ap, bp)
  {
    hide TryMul, TryPow, TryDiv, Inverse, MulKeys, PowKeys, InOrder, Val, Valid, Representable, Scaled, Exp, WfMonomial;
    TryMulExact(a, b);
    TryPowExact(a, p);
    TryPowExact(b, p);
    TryPowExact(ab, p);
    TryMulExact(ap, bp);
    forall k: nat
      ensures Scaled(Exp(ab, k), p) == Exp(ap, k) + Exp(bp, k)
    {
      ScaledSum(Exp(a, k), Exp(b, k), p);
    }
    if TryPow(ab, p).Ok? {
      SameExponents(TryPow(ab, p).value, TryMul(ap, bp).value);
    }
  }

  lemma PowOne(a: Monomial)
    requires WfMonomial(a)
    ensures TryPow(a, ONE) == Ok(a)
  {
    hide TryPow, Exp, WfMonomial;
    TryPowExact(a, ONE);
    forall k: nat
      ensures Scaled(Exp(a, k), ONE) == Exp(a, k) && Representable(Exp(a, k))
    {
      ExpRepresentable(a, k);
    }
    SameExponents(a, TryPow(a, ONE).value);
  }
}
