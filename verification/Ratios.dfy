/** Reduced fractions over a symmetric 32-bit range: checked arithmetic is exact
    or reports that the exact value is not representable. */
module Ratios {
  import opened Outcomes

  const MAX: int := 0x7FFF_FFFF
  const WIDE_MAX: int := 0x7FFF_FFFF_FFFF_FFFF_FFFF_FFFF_FFFF_FFFF

  datatype Ratio = Ratio(num: int, den: int)

  datatype RatioError = ZeroDenominator | Overflow

  const ZERO: Ratio := Ratio(0, 1)
  const ONE: Ratio := Ratio(1, 1)

  function Abs(x: int): nat {
    if x < 0 then -x else x
  }

  function Gcd(a: nat, b: nat): (g: nat)
    decreases b
  {
    if b == 0 then a else Gcd(b, a % b)
  }

  /** A positive denominator, lowest terms, both components in range. */
  predicate Valid(r: Ratio) {
    0 < r.den <= MAX && Abs(r.num) <= MAX && Gcd(Abs(r.num), r.den) == 1
  }

  /** Reduce before narrowing. */
  function TryFromWide(num: int, den: int): Result<Ratio, RatioError> {
    if den == 0 then Err(ZeroDenominator)
    else if num == 0 then Ok(ZERO)
    else
      var divisor := Gcd(Abs(num), Abs(den));
      if divisor == 0 || Abs(num) / divisor > MAX || Abs(den) / divisor > MAX then Err(Overflow)
      else
        var magnitude := Abs(num) / divisor;
        Ok(Ratio(if (num < 0) != (den < 0) then -magnitude else magnitude, Abs(den) / divisor))
  }

  /** A checked 128-bit step. */
  function Wide(x: int): Option<int> {
    if -WIDE_MAX - 1 <= x <= WIDE_MAX then Some(x) else None
  }

  function Add(a: Ratio, b: Ratio): Result<Ratio, RatioError> {
    match (Wide(a.num * b.den), Wide(b.num * a.den), Wide(a.den * b.den))
    case (Some(l), Some(r), Some(den)) =>
      (match Wide(l + r)
       case Some(num) => TryFromWide(num, den)
       case None => Err(Overflow))
    case _ => Err(Overflow)
  }

  function Mul(a: Ratio, b: Ratio): Result<Ratio, RatioError> {
    match (Wide(a.num * b.num), Wide(a.den * b.den))
    case (Some(num), Some(den)) => TryFromWide(num, den)
    case _ => Err(Overflow)
  }

  /** Total: the range is symmetric. */
  function Neg(r: Ratio): Ratio {
    Ratio(-r.num, r.den)
  }

  // Divisibility

  ghost predicate Divides(d: int, x: int) {
    exists q: int :: x == d * q
  }

  lemma DividesTimes(d: int, q: int)
    ensures Divides(d, d * q)
  {
  }

  lemma DividesSum(d: int, x: int, y: int, k: int)
    requires Divides(d, x) && Divides(d, y)
    ensures Divides(d, x + y * k)
  {
    var p: int :| x == d * p;
    var q: int :| y == d * q;
    assert x + y * k == d * (p + q * k) by {
      assert y * k == d * (q * k);
    }
  }

  /** The greatest common divisor as an integer combination. */
  lemma {:induction false} Bezout(a: nat, b: nat) returns (x: int, y: int)
    ensures a * x + b * y == Gcd(a, b)
    decreases b
  {
    if b == 0 {
      x, y := 1, 0;
    } else {
      var p, q := Bezout(b, a % b);
      x, y := q, p - a / b * q;
      BezoutStep(a, b, p, q);
    }
  }

  lemma BezoutStep(a: nat, b: nat, p: int, q: int)
    requires b > 0
    ensures a * q + b * (p - a / b * q) == b * p + a % b * q
  {
    var k := a / b;
    assert a == b * k + a % b;
    assert a * q == b * k * q + a % b * q;
    assert b * (p - k * q) == b * p - b * k * q;
  }

  lemma {:induction false} GcdDivides(a: nat, b: nat)
    ensures Divides(Gcd(a, b), a) && Divides(Gcd(a, b), b)
    ensures a > 0 || b > 0 ==> Gcd(a, b) > 0
    decreases b
  {
    if b == 0 {
      DividesTimes(a, 1);
      DividesTimes(a, 0);
    } else {
      GcdDivides(b, a % b);
      DividesSum(Gcd(a, b), a % b, b, a / b);
      assert a == a % b + b * (a / b);
    }
  }

  lemma CommonDivides(a: nat, b: nat, d: int)
    requires Divides(d, a) && Divides(d, b)
    ensures Divides(d, Gcd(a, b))
  {
    var x, y := Bezout(a, b);
    var p: int :| a == d * p;
    assert a * x == d * (p * x);
    DividesTimes(d, p * x);
    DividesSum(d, a * x, b, y);
  }

  // Multiplication

  lemma MulMono(g: int, x: int, y: int)
    requires g >= 0 && x <= y
    ensures g * x <= g * y
  {
  }

  lemma MulStrict(g: int, x: int, y: int)
    requires g > 0 && g * x < g * y
    ensures x < y
  {
    if x >= y {
      MulMono(g, y, x);
    }
  }

  lemma MulCancel(g: int, x: int, y: int)
    requires g > 0 && g * x == g * y
    ensures x == y
  {
    assert g * (x + 1) == g * x + g && g * (y + 1) == g * y + g;
    if x < y {
      MulMono(g, x + 1, y);
    } else if y < x {
      MulMono(g, y + 1, x);
    }
  }

  lemma MulAssoc(a: int, b: int, c: int)
    ensures a * (b * c) == a * b * c
  {
  }

  lemma ExactQuotient(a: nat, g: nat)
    requires g > 0 && Divides(g, a)
    ensures a == g * (a / g)
  {
    var q: int :| a == g * q;
    var k := a / g;
    assert g * k <= g * q && g * q < g * k + g;
    assert g * (k + 1) == g * k + g && g * (k - 1) == g * k - g;
    MulStrict(g, q, k + 1);
    MulStrict(g, k - 1, q);
  }

  lemma UnitFactor(g: int, h: int, u: int)
    requires g > 0 && h > 0 && g == g * (h * u)
    ensures h == 1
  {
    MulCancel(g, 1, h * u);
    MulStrict(h, 0, u);
    MulMono(h, 1, u);
  }

  lemma ScaleDivides(g: int, h: int, p: int)
    requires Divides(h, p)
    ensures Divides(g * h, g * p)
  {
    var s: int :| p == h * s;
    MulAssoc(g, h, s);
    DividesTimes(g * h, s);
  }

  lemma UnitDivisor(g: int, h: int)
    requires g > 0 && h > 0 && Divides(g * h, g)
    ensures h == 1
  {
    var u: int :| g == g * h * u;
    MulAssoc(g, h, u);
    UnitFactor(g, h, u);
  }

  lemma ReducedCoprime(g: nat, p: nat, q: nat)
    requires g > 0 && q > 0 && g * p >= 0 && g * q >= 0 && g == Gcd(g * p, g * q)
    ensures Gcd(p, q) == 1
  {
    var h := Gcd(p, q);
    GcdDivides(p, q);
    ScaleDivides(g, h, p);
    ScaleDivides(g, h, q);
    CommonDivides(g * p, g * q, g * h);
    UnitDivisor(g, h);
  }

  /** Dividing both by their greatest common divisor leaves coprime numbers. */
  lemma GcdReduced(a: nat, b: nat)
    requires b > 0
    ensures var g := Gcd(a, b);
            g > 0 && a == g * (a / g) && b == g * (b / g) && b / g > 0 && Gcd(a / g, b / g) == 1
  {
    var g := Gcd(a, b);
    GcdDivides(a, b);
    ExactQuotient(a, g);
    ExactQuotient(b, g);
    MulStrict(g, 0, b / g);
    ReducedCoprime(g, a / g, b / g);
  }

  lemma EuclidAlgebra(a: int, b: int, c: int, x: int, y: int, q: int)
    requires a * x + b * y == 1 && a * c == b * q
    ensures c == b * (q * x + c * y)
  {
    assert (a * x + b * y) * c == a * c * x + b * c * y;
    assert b * q * x == b * (q * x);
    assert b * c * y == b * (c * y);
  }

  /** Euclid: a divisor of a product coprime to one factor divides the other. */
  lemma Euclid(a: nat, b: nat, c: int)
    requires Gcd(a, b) == 1 && Divides(b, a * c)
    ensures Divides(b, c)
  {
    var x, y := Bezout(a, b);
    var q: int :| a * c == b * q;
    EuclidAlgebra(a, b, c, x, y, q);
  }

  lemma DividesEachOther(b: nat, d: nat)
    requires b > 0 && d > 0 && Divides(b, d) && Divides(d, b)
    ensures b == d
  {
    var p: int :| d == b * p;
    var q: int :| b == d * q;
    MulStrict(b, 0, p);
    MulStrict(d, 0, q);
    MulMono(b, 1, p);
    MulMono(d, 1, q);
  }

  // Values

  /** `r` is the fraction `num / den`. */
  ghost predicate Denotes(r: Ratio, num: int, den: int) {
    den != 0 && r.num * den == num * r.den
  }

  ghost predicate Reduced(r: Ratio) {
    r.den > 0 && Gcd(Abs(r.num), r.den) == 1
  }

  lemma CrossDivides(r: Ratio, s: Ratio)
    requires Reduced(r) && Reduced(s) && r.num * s.den == s.num * r.den
    ensures Divides(r.den, s.den)
  {
    var k := if r.num < 0 then -s.num else s.num;
    assert Abs(r.num) * s.den == r.den * k;
    Euclid(Abs(r.num), r.den, s.den);
  }

  /** Lowest terms are unique. */
  lemma ReducedUnique(r: Ratio, s: Ratio)
    requires Reduced(r) && Reduced(s) && r.num * s.den == s.num * r.den
    ensures r == s
  {
    CrossDivides(r, s);
    CrossDivides(s, r);
    DividesEachOther(r.den, s.den);
    MulCancel(r.den, r.num, s.num);
  }

  /** The lowest terms of `num / den`, in range or not. */
  ghost function Lowest(num: int, den: int): Ratio
    requires den != 0
  {
    var g := Gcd(Abs(num), Abs(den));
    if g == 0 then ZERO
    else Ratio(if (num < 0) != (den < 0) then -(Abs(num) / g) else Abs(num) / g, Abs(den) / g)
  }

  lemma SignedFraction(num: int, den: int, p: int, q: int)
    requires p * Abs(den) == Abs(num) * q
    ensures (if (num < 0) != (den < 0) then -p else p) * den == num * q
  {
    if den < 0 {
      assert p * Abs(den) == -(p * den);
    }
    if num < 0 {
      assert Abs(num) * q == -(num * q);
    }
    assert -p * den == -(p * den);
  }

  lemma CrossQuotients(a: int, b: int, g: int, p: int, q: int)
    requires a == g * p && b == g * q
    ensures p * b == a * q
  {
    MulAssoc(p, g, q);
    MulAssoc(g, p, q);
  }

  lemma LowestReduced(num: int, den: int)
    requires den != 0
    ensures Reduced(Lowest(num, den)) && Denotes(Lowest(num, den), num, den)
  {
    var a, b := Abs(num), Abs(den);
    GcdReduced(a, b);
    var g := Gcd(a, b);
    var p, q := a / g, b / g;
    MulStrict(g, -1, p);
    CrossQuotients(a, b, g, p, q);
    SignedFraction(num, den, p, q);
  }

  lemma SameFraction(r: Ratio, s: Ratio, num: int, den: int)
    requires Reduced(r) && Reduced(s) && Denotes(r, num, den) && Denotes(s, num, den)
    ensures r == s
  {
    var d := Abs(den);
    var n := if den < 0 then -num else num;
    assert r.num * d == n * r.den && s.num * d == n * s.den;
    CrossMultiply(r.num, r.den, s.num, s.den, n, d);
    ReducedUnique(r, s);
  }

  lemma CrossMultiply(a: int, b: int, c: int, e: int, n: int, d: int)
    requires d > 0 && a * d == n * b && c * d == n * e
    ensures a * e == c * b
  {
    assert d * (a * e) == d * (c * b) by {
      assert d * (a * e) == a * d * e;
      assert d * (c * b) == c * d * b;
      assert n * b * e == n * e * b;
    }
    MulCancel(d, a * e, c * b);
  }

  /** Reducing before narrowing fails exactly when the exact value has no
      representation, and otherwise returns the only one. */
  lemma TryFromWideExact(num: int, den: int)
    requires den != 0
    ensures var r := TryFromWide(num, den);
            && (r.Ok? ==> Valid(r.value) && Denotes(r.value, num, den))
            && (r.Err? ==> r.error == Overflow && forall s :: Valid(s) ==> !Denotes(s, num, den))
  {
    var c := Lowest(num, den);
    LowestReduced(num, den);
    GcdDivides(Abs(num), Abs(den));
    if num == 0 {
      assert c.num == 0;
      assert Gcd(0, 1) == Gcd(1, 0) == 1;
    } else {
      forall s | Valid(s) && Denotes(s, num, den)
        ensures TryFromWide(num, den) == Ok(s)
      {
        SameFraction(s, c, num, den);
      }
    }
  }

  // Arithmetic

  ghost function Val(r: Ratio): real
    requires r.den != 0
  {
    r.num as real / r.den as real
  }

  ghost predicate Representable(x: real) {
    exists r :: Valid(r) && Val(r) == x
  }

  lemma QuotientIs(n: real, d: real, x: real)
    requires d != 0.0
    ensures n / d == x <==> n == x * d
  {
  }

  lemma CastTimes(a: int, b: int)
    ensures (a * b) as real == a as real * b as real
  {
  }

  lemma CancelReal(x: real, y: real, d: real)
    requires d != 0.0
    ensures x * d == y * d <==> x == y
  {
    if x * d == y * d {
      assert (x - y) * d == 0.0;
    }
  }

  lemma DenotesVal(r: Ratio, num: int, den: int)
    requires r.den > 0 && den != 0
    ensures Denotes(r, num, den) <==> Val(r) == num as real / den as real
  {
    var v, w := Val(r), num as real / den as real;
    QuotientIs(r.num as real, r.den as real, v);
    QuotientIs(num as real, den as real, w);
    CastTimes(r.num, den);
    CastTimes(num, r.den);
    var d := r.den as real * den as real;
    assert (r.num * den) as real == v * d by {
      assert v * r.den as real * den as real == v * d;
    }
    assert (num * r.den) as real == w * d by {
      assert w * den as real * r.den as real == w * d;
    }
    assert d != 0.0;
    CancelReal(v, w, d);
  }

  lemma SameVal(r: Ratio, s: Ratio)
    requires Valid(r) && Valid(s) && Val(r) == Val(s)
    ensures r == s
  {
    DenotesVal(r, s.num, s.den);
    ReducedUnique(r, s);
  }

  /** Whether `num / den` fits decides whether reducing it succeeds. */
  lemma TryFromWideVal(num: int, den: int)
    requires den != 0
    ensures var r := TryFromWide(num, den);
            var x := num as real / den as real;
            && (r.Ok? <==> Representable(x))
            && (r.Ok? ==> Valid(r.value) && Val(r.value) == x)
            && (r.Err? ==> r.error == Overflow)
  {
    var r := TryFromWide(num, den);
    TryFromWideExact(num, den);
    if r.Ok? {
      DenotesVal(r.value, num, den);
    } else if Representable(num as real / den as real) {
      var s :| Valid(s) && Val(s) == num as real / den as real;
      DenotesVal(s, num, den);
    }
  }

  lemma ProductBound(a: int, b: int)
    requires -MAX <= a <= MAX && -MAX <= b <= MAX
    ensures -MAX * MAX <= a * b <= MAX * MAX
  {
    MulBound(a, b, MAX);
  }

  lemma MulBound(a: int, b: int, m: int)
    requires -m <= a <= m && -m <= b <= m
    ensures -m * m <= a * b <= m * m
  {
    if b >= 0 {
      MulMono(b, a, m);
      MulMono(b, -m, a);
      MulMono(m, b, m);
    } else {
      MulMono(-b, a, m);
      MulMono(-b, -m, a);
      MulMono(m, -b, m);
    }
  }

  lemma SumOfFractions(an: real, ad: real, bn: real, bd: real)
    requires ad != 0.0 && bd != 0.0
    ensures ad * bd != 0.0 && an / ad + bn / bd == (an * bd + bn * ad) / (ad * bd)
  {
    var x, y := an / ad, bn / bd;
    assert an == x * ad && bn == y * bd;
    assert an * bd == x * (ad * bd) && bn * ad == y * (ad * bd);
    QuotientIs(an * bd + bn * ad, ad * bd, x + y);
  }

  lemma ProductOfFractions(an: real, ad: real, bn: real, bd: real)
    requires ad != 0.0 && bd != 0.0
    ensures ad * bd != 0.0 && an / ad * (bn / bd) == an * bn / (ad * bd)
  {
    var x, y := an / ad, bn / bd;
    assert an == x * ad && bn == y * bd;
    assert an * bn == x * y * (ad * bd);
    QuotientIs(an * bn, ad * bd, x * y);
  }

  lemma MulPositive(a: int, b: int)
    requires a > 0 && b > 0
    ensures a * b > 0
  {
  }

  /** The 128-bit steps never overflow. */
  lemma AddFits(a: Ratio, b: Ratio)
    requires Valid(a) && Valid(b)
    ensures a.den * b.den > 0
    ensures Add(a, b) == TryFromWide(a.num * b.den + b.num * a.den, a.den * b.den)
  {
    hide Gcd, TryFromWide;
    ProductBound(a.num, b.den);
    ProductBound(b.num, a.den);
    ProductBound(a.den, b.den);
    MulPositive(a.den, b.den);
  }

  lemma MulFits(a: Ratio, b: Ratio)
    requires Valid(a) && Valid(b)
    ensures a.den * b.den > 0
    ensures Mul(a, b) == TryFromWide(a.num * b.num, a.den * b.den)
  {
    hide Gcd, TryFromWide;
    ProductBound(a.num, b.num);
    ProductBound(a.den, b.den);
    MulPositive(a.den, b.den);
  }

  lemma AddValue(a: Ratio, b: Ratio)
    requires a.den > 0 && b.den > 0 && a.den * b.den > 0
    ensures (a.num * b.den + b.num * a.den) as real / (a.den * b.den) as real == Val(a) + Val(b)
  {
    CastTimes(a.num, b.den);
    CastTimes(b.num, a.den);
    CastTimes(a.den, b.den);
    SumOfFractions(a.num as real, a.den as real, b.num as real, b.den as real);
  }

  lemma MulValue(a: Ratio, b: Ratio)
    requires a.den > 0 && b.den > 0 && a.den * b.den > 0
    ensures (a.num * b.num) as real / (a.den * b.den) as real == Val(a) * Val(b)
  {
    CastTimes(a.num, b.num);
    CastTimes(a.den, b.den);
    ProductOfFractions(a.num as real, a.den as real, b.num as real, b.den as real);
  }

  /** Addition fails exactly when the sum is not representable. */
  lemma AddExact(a: Ratio, b: Ratio)
    requires Valid(a) && Valid(b)
    ensures Add(a, b).Ok? <==> Representable(Val(a) + Val(b))
    ensures Add(a, b).Ok? ==> Valid(Add(a, b).value) && Val(Add(a, b).value) == Val(a) + Val(b)
    ensures Add(a, b).Err? ==> Add(a, b).error == Overflow
  {
    AddFits(a, b);
    AddValue(a, b);
    hide Add, TryFromWide, Representable;
    TryFromWideVal(a.num * b.den + b.num * a.den, a.den * b.den);
  }

  lemma MulExact(a: Ratio, b: Ratio)
    requires Valid(a) && Valid(b)
    ensures Mul(a, b).Ok? <==> Representable(Val(a) * Val(b))
    ensures Mul(a, b).Ok? ==> Valid(Mul(a, b).value) && Val(Mul(a, b).value) == Val(a) * Val(b)
    ensures Mul(a, b).Err? ==> Mul(a, b).error == Overflow
  {
    MulFits(a, b);
    MulValue(a, b);
    hide Mul, TryFromWide, Representable;
    TryFromWideVal(a.num * b.num, a.den * b.den);
  }

  /** Negation stays in the symmetric range. */
  lemma NegExact(r: Ratio)
    requires Valid(r)
    ensures Valid(Neg(r)) && Val(Neg(r)) == -Val(r) && Neg(Neg(r)) == r
  {
    QuotientIs(-r.num as real, r.den as real, -Val(r));
  }

  lemma ValZero(r: Ratio)
    requires Valid(r)
    ensures Val(r) == 0.0 <==> r == ZERO
    ensures r.num == 0 <==> r == ZERO
    ensures Val(ONE) == 1.0 && Valid(ONE) && Valid(ZERO)
  {
    assert Gcd(0, 1) == Gcd(1, 0) && Gcd(1, 1) == Gcd(1, 0);
    QuotientIs(r.num as real, r.den as real, 0.0);
    if r.num == 0 {
      assert Val(ZERO) == 0.0;
      SameVal(r, ZERO);
    }
  }

  lemma GcdOne(a: nat)
    ensures Gcd(a, 1) == 1
  {
    GcdDivides(a, 1);
  }

  lemma RepresentableBound(x: real)
    requires Representable(x)
    ensures -(MAX as real) <= x <= MAX as real
  {
    var r :| Valid(r) && Val(r) == x;
    QuotientBound(r.num as real, r.den as real, MAX as real);
  }

  lemma QuotientBound(n: real, d: real, m: real)
    requires d >= 1.0 && -m <= n <= m
    ensures -m <= n / d <= m
  {
    var x := n / d;
    assert x * d == n;
    if x > m {
      Exceeds(x, m, d);
    }
    if x < -m {
      Exceeds(-x, m, d);
    }
  }

  lemma Exceeds(x: real, m: real, d: real)
    requires d >= 1.0 && x > m >= 0.0
    ensures x * d > m
  {
    assert x * (d - 1.0) >= 0.0;
  }
}
