/** Printing a dimension as a product and quotient of factors, at the level of
    tokens, and reading the result back with checked arithmetic. */
module DimensionPrinter {
  import opened Digraph
  import opened Numbers
  import opened Outcomes
  import opened Ratios
  import opened Monomials

  datatype Token = Dimensionless | Factor(id: nat, exponent: Ratio) | Times | Over

  // Printing

  /** Numerator factors of `keys`, after what is written already. */
  function Numerator(d: Monomial, keys: seq<nat>): seq<Token>
    requires forall k :: k in keys ==> k in d
    decreases |keys|
  {
    if keys == [] then []
    else
      var k := keys[|keys| - 1];
      var out := Numerator(d, keys[..|keys| - 1]);
      if d[k].num <= 0 then out
      else if out == [] then [Factor(k, d[k])]
      else out + [Times, Factor(k, d[k])]
  }

  /** Denominator factors; a dimension without numerator starts with a negative
      power. */
  function Denominator(d: Monomial, written: seq<Token>, keys: seq<nat>): seq<Token>
    requires forall k :: k in keys ==> k in d
    decreases |keys|
  {
    if keys == [] then written
    else
      var k := keys[|keys| - 1];
      var out := Denominator(d, written, keys[..|keys| - 1]);
      if d[k].num >= 0 then out
      else if out == [] then [Factor(k, d[k])]
      else out + [Over, Factor(k, Neg(d[k]))]
  }

  function Printed(d: Monomial): seq<Token> {
    if d == map[] then [Dimensionless]
    else
      var keys := InOrder(d.Keys);
      Denominator(d, Numerator(d, keys), keys)
  }

  lemma NumeratorNext(d: Monomial, keys: seq<nat>, i: nat)
    requires i < |keys| && forall k :: k in keys ==> k in d
    ensures keys[i] in d && forall k :: k in keys[..i + 1] ==> k in d
    ensures forall k :: k in keys[..i] ==> k in d
    ensures var (out, k) := (Numerator(d, keys[..i]), keys[i]);
            Numerator(d, keys[..i + 1]) ==
              if d[k].num <= 0 then out
              else if out == [] then [Factor(k, d[k])]
              else out + [Times, Factor(k, d[k])]
  {
    assert keys[..i + 1][..i] == keys[..i] && keys[i] in keys;
  }

  lemma DenominatorNext(d: Monomial, written: seq<Token>, keys: seq<nat>, i: nat)
    requires i < |keys| && forall k :: k in keys ==> k in d
    ensures keys[i] in d && forall k :: k in keys[..i + 1] ==> k in d
    ensures forall k :: k in keys[..i] ==> k in d
    ensures var (out, k) := (Denominator(d, written, keys[..i]), keys[i]);
            Denominator(d, written, keys[..i + 1]) ==
              if d[k].num >= 0 then out
              else if out == [] then [Factor(k, d[k])]
              else out + [Over, Factor(k, Neg(d[k]))]
  {
    assert keys[..i + 1][..i] == keys[..i] && keys[i] in keys;
  }

  /** The printer: a loop over the positive exponents and one over the negative
      ones, with a flag that says whether a factor was written. */
  method FmtExponents(d: Monomial) returns (out: seq<Token>)
    ensures out == Printed(d)
  {
    if d == map[] {
      return [Dimensionless];
    }
    var keys := InOrder(d.Keys);
    var first: bool;
    out, first := WriteNumerator(d, keys);
    out := WriteDenominator(d, keys, out, first);
  }

  method WriteNumerator(d: Monomial, keys: seq<nat>) returns (out: seq<Token>, first: bool)
    requires forall k :: k in keys ==> k in d
    ensures out == Numerator(d, keys) && first == (out == [])
  {
    hide Numerator;
    out, first := [], true;
    assert Numerator(d, keys[..0]) == [] by {
      NothingWritten(d, []);
    }
    for i := 0 to |keys|
      invariant out == Numerator(d, keys[..i]) && first == (out == [])
    {
      NumeratorNext(d, keys, i);
      var exponent := d[keys[i]];
      if exponent.num > 0 {
        if !first {
          out := out + [Times];
        }
        first := false;
        out := out + [Factor(keys[i], exponent)];
      }
    }
    assert keys[..|keys|] == keys;
  }

  lemma NothingWritten(d: Monomial, written: seq<Token>)
    ensures Numerator(d, []) == [] && Denominator(d, written, []) == written
  {
  }

  method WriteDenominator(d: Monomial, keys: seq<nat>, written: seq<Token>, none: bool) returns (out: seq<Token>)
    requires none == (written == []) && forall k :: k in keys ==> k in d
    ensures out == Denominator(d, written, keys)
  {
    hide Denominator;
    out := written;
    var first := none;
    assert Denominator(d, written, keys[..0]) == written by {
      NothingWritten(d, written);
    }
    for i := 0 to |keys|
      invariant out == Denominator(d, written, keys[..i]) && first == (out == [])
    {
      DenominatorNext(d, written, keys, i);
      var exponent := d[keys[i]];
      if exponent.num < 0 {
        if first {
          first := false;
          out := out + [Factor(keys[i], exponent)];
        } else {
          out := out + [Over];
          out := out + [Factor(keys[i], Neg(exponent))];
        }
      }
    }
    assert keys[..|keys|] == keys;
  }

  // Reading

  datatype ReadError = Malformed | ReadOverflow

  function Checked(r: Result<Monomial, RatioError>): Result<Monomial, ReadError> {
    match r
    case Ok(m) => Ok(m)
    case Err(_) => Err(ReadOverflow)
  }

  /** One factor, or what is read so far times or over one more factor. */
  function Read(tokens: seq<Token>): Result<Monomial, ReadError>
    decreases |tokens|
  {
    if |tokens| == 0 then Err(Malformed)
    else if |tokens| == 1 then
      match tokens[0]
      case Dimensionless => Ok(map[])
      case Factor(id, exponent) => Ok(map[id := exponent])
      case _ => Err(Malformed)
    else if |tokens| == 2 || !tokens[|tokens| - 1].Factor? then Err(Malformed)
    else
      var n := |tokens| - 2;
      var Factor(id, exponent) := tokens[n + 1];
      match Read(tokens[..n])
      case Err(error) => Err(error)
      case Ok(acc) =>
        match tokens[n]
        case Times => Checked(TryMul(acc, map[id := exponent]))
        case Over => Checked(TryDiv(acc, map[id := exponent]))
        case _ => Err(Malformed)
  }

  // Reading what was printed

  /** Multiplying by a factor of a new base adds that factor. */
  lemma MulNew(acc: Monomial, k: nat, e: Ratio)
    requires k !in acc
    ensures TryMul(acc, map[k := e]) == Ok(acc[k := e])
  {
    var b: Monomial := map[k := e];
    InOrderSingle(k);
    assert b.Keys == {k};
    assert MulKeys(acc, b, [k]) == MulKeys(acc[k := e], b, [k][1..]);
  }

  /** Dividing by a factor of a new base adds the opposite power. */
  lemma DivNew(acc: Monomial, k: nat, e: Ratio)
    requires k !in acc
    ensures TryDiv(acc, map[k := Neg(e)]) == Ok(acc[k := e])
  {
    var b: Monomial := map[k := Neg(e)];
    assert k in b;
    assert Inverse(b) == map[k := e];
    MulNew(acc, k, e);
  }

  lemma ReadMore(out: seq<Token>, op: Token, id: nat, exponent: Ratio, acc: Monomial)
    requires Read(out) == Ok(acc)
    ensures Read(out + [Times, Factor(id, exponent)]) == Checked(TryMul(acc, map[id := exponent]))
    ensures Read(out + [Over, Factor(id, exponent)]) == Checked(TryDiv(acc, map[id := exponent]))
  {
    hide TryMul, TryDiv;
    var times, over := out + [Times, Factor(id, exponent)], out + [Over, Factor(id, exponent)];
    assert times[..|out|] == out && over[..|out|] == out;
  }

  /** The positive powers of `s` and the negative powers of `t`. */
  ghost function Selected(d: Monomial, s: set<nat>, t: set<nat>): Monomial {
    map k | k in d && ((k in s && d[k].num > 0) || (k in t && d[k].num < 0)) :: d[k]
  }

  lemma SelectPositive(d: Monomial, s: set<nat>, k: nat)
    requires k in d && k !in s
    ensures Selected(d, s + {k}, {}) == if d[k].num > 0 then Selected(d, s, {})[k := d[k]] else Selected(d, s, {})
    ensures k !in Selected(d, s, {})
  {
  }

  lemma SelectNegative(d: Monomial, s: set<nat>, t: set<nat>, k: nat)
    requires k in d && k !in t
    ensures Selected(d, s, t + {k}) == if d[k].num < 0 then Selected(d, s, t)[k := d[k]] else Selected(d, s, t)
    ensures d[k].num < 0 ==> k !in Selected(d, s, t)
  {
  }

  /** Nothing is written for nothing, and what is written reads as `m`. */
  ghost predicate Spells(out: seq<Token>, m: Monomial) {
    if out == [] then m == map[] else Read(out) == Ok(m)
  }

  lemma MembersLast(keys: seq<nat>)
    requires keys != [] && Increasing(keys)
    ensures var init, k := keys[..|keys| - 1], keys[|keys| - 1];
            Members(keys) == Members(init) + {k} && k !in Members(init) && k in keys && Increasing(init)
  {
  }

  lemma {:induction false} NumeratorSpells(d: Monomial, keys: seq<nat>)
    requires Increasing(keys) && forall k :: k in keys ==> k in d
    ensures Spells(Numerator(d, keys), Selected(d, Members(keys), {}))
    decreases |keys|
  {
    hide TryMul, TryDiv, Read, Selected, Members, Increasing, Spells;
    if keys == [] {
      NothingSelected(d);
    } else {
      var init, k := keys[..|keys| - 1], keys[|keys| - 1];
      MembersLast(keys);
      NumeratorSpells(d, init);
      SelectPositive(d, Members(init), k);
      if d[k].num > 0 {
        MulNew(Selected(d, Members(init), {}), k, d[k]);
        AddFactor(Numerator(d, init), Selected(d, Members(init), {}), k, d[k]);
      }
    }
  }

  lemma NothingSelected(d: Monomial)
    ensures Spells([], Selected(d, Members([]), {})) && Members([]) == {}
  {
    assert Members([]) == {};
    assert Selected(d, {}, {}) == map[];
  }

  lemma AddFactor(out: seq<Token>, part: Monomial, k: nat, e: Ratio)
    requires Spells(out, part) && TryMul(part, map[k := e]) == Ok(part[k := e])
    ensures Spells(if out == [] then [Factor(k, e)] else out + [Times, Factor(k, e)], part[k := e])
  {
    hide TryMul, TryDiv;
    if out != [] {
      ReadMore(out, Times, k, e, part);
    }
  }

  lemma AddDivisor(out: seq<Token>, part: Monomial, k: nat, e: Ratio)
    requires Spells(out, part) && TryDiv(part, map[k := Neg(e)]) == Ok(part[k := e])
    ensures Spells(if out == [] then [Factor(k, e)] else out + [Over, Factor(k, Neg(e))], part[k := e])
  {
    hide TryMul, TryDiv;
    if out != [] {
      ReadMore(out, Over, k, Neg(e), part);
    }
  }

  lemma {:induction false} DenominatorSpells(d: Monomial, written: seq<Token>, s: set<nat>, keys: seq<nat>)
    requires Increasing(keys) && forall k :: k in keys ==> k in d
    requires Spells(written, Selected(d, s, {}))
    ensures Spells(Denominator(d, written, keys), Selected(d, s, Members(keys)))
    decreases |keys|
  {
    hide TryMul, TryDiv, Read, Selected, Members, Increasing, Spells;
    if keys == [] {
      NothingSelected(d);
    } else {
      var init, k := keys[..|keys| - 1], keys[|keys| - 1];
      MembersLast(keys);
      DenominatorSpells(d, written, s, init);
      SelectNegative(d, s, Members(init), k);
      if d[k].num < 0 {
        DivNew(Selected(d, s, Members(init)), k, d[k]);
        AddDivisor(Denominator(d, written, init), Selected(d, s, Members(init)), k, d[k]);
      }
    }
  }

  lemma AllSelected(d: Monomial, keys: seq<nat>)
    requires WfMonomial(d) && forall k: nat :: k in keys <==> k in d
    ensures Selected(d, Members(keys), Members(keys)) == d
  {
    forall k | k in d
      ensures d[k].num != 0
    {
      ValZero(d[k]);
    }
  }

  /** The printed factors, read as a left-associated product and quotient with
      checked arithmetic, denote the printed dimension. */
  lemma PrintedReadsBack(d: Monomial)
    requires WfMonomial(d)
    ensures Read(Printed(d)) == Ok(d)
  {
    hide TryMul, TryDiv, Numerator, Denominator, Selected, Members, WfMonomial;
    if d != map[] {
      var keys := InOrder(d.Keys);
      NumeratorSpells(d, keys);
      DenominatorSpells(d, Numerator(d, keys), Members(keys), keys);
      AllSelected(d, keys);
    }
  }

  // What was printed

  /** Increasing lists of the positive and of the negative exponents. */
  ghost predicate Sides(d: Monomial, pos: seq<nat>, neg: seq<nat>) {
    && Increasing(pos) && Increasing(neg)
    && (forall k: nat :: k in pos <==> k in d && d[k].num > 0)
    && (forall k: nat :: k in neg <==> k in d && d[k].num < 0)
  }

  /** The positive powers, then the negative ones with their exponents negated;
      one that comes first of all keeps its own. */
  ghost function Factors(d: Monomial, pos: seq<nat>, neg: seq<nat>): seq<(Token, Token)>
    requires forall k :: k in pos + neg ==> k in d
  {
    seq(|pos| + |neg|, i requires 0 <= i < |pos| + |neg| =>
      var k := (pos + neg)[i];
      assert k in pos + neg;
      if i < |pos| then (Times, Factor(k, d[k]))
      else (Over, Factor(k, if i == 0 then d[k] else Neg(d[k]))))
  }

  /** The first factor stands alone, each further one follows its sign. */
  ghost function Spelled(factors: seq<(Token, Token)>): seq<Token>
    decreases |factors|
  {
    if factors == [] then []
    else if |factors| == 1 then [factors[0].1]
    else
      var (sign, factor) := factors[|factors| - 1];
      Spelled(factors[..|factors| - 1]) + [sign, factor]
  }

  lemma {:induction false} NumeratorWritten(d: Monomial, keys: seq<nat>) returns (pos: seq<nat>)
    requires Increasing(keys) && forall k :: k in keys ==> k in d
    ensures Increasing(pos) && forall k: nat :: k in pos <==> k in keys && d[k].num > 0
    ensures Numerator(d, keys) == Spelled(Factors(d, pos, []))
    decreases |keys|
  {
    hide Factors, Spelled, Increasing;
    pos := [];
    NoFactors(d);
    if keys != [] {
      var init, k := keys[..|keys| - 1], keys[|keys| - 1];
      LastKey(keys);
      pos := NumeratorWritten(d, init);
      if d[k].num > 0 {
        OneMore(d, pos, [], k);
        FactorsEmpty(d, pos, []);
        AppendKey(pos, init, k);
        pos := pos + [k];
      }
    }
  }

  lemma NoFactors(d: Monomial)
    ensures Increasing([]) && Spelled(Factors(d, [], [])) == []
  {
  }

  lemma FactorsEmpty(d: Monomial, pos: seq<nat>, neg: seq<nat>)
    requires forall k :: k in pos + neg ==> k in d
    ensures Spelled(Factors(d, pos, neg)) == [] <==> pos + neg == []
  {
  }

  lemma LastKey(keys: seq<nat>)
    requires keys != [] && Increasing(keys)
    ensures var init, k := keys[..|keys| - 1], keys[|keys| - 1];
            && keys == init + [k] && Increasing(init) && (forall j :: j in init ==> j < k)
            && forall j :: j in keys <==> j in init || j == k
  {
    assert keys == keys[..|keys| - 1] + [keys[|keys| - 1]];
  }

  lemma AppendKey(chosen: seq<nat>, init: seq<nat>, k: nat)
    requires Increasing(chosen) && (forall j :: j in chosen ==> j in init) && forall j :: j in init ==> j < k
    ensures Increasing(chosen + [k])
  {
    assert forall i :: 0 <= i < |chosen| ==> chosen[i] in chosen;
  }

  /** One more factor at either end. */
  lemma OneMore(d: Monomial, pos: seq<nat>, neg: seq<nat>, k: nat)
    requires k in d && forall j :: j in pos + neg ==> j in d
    ensures neg == [] ==>
      Spelled(Factors(d, pos + [k], [])) ==
        if pos == [] then [Factor(k, d[k])] else Spelled(Factors(d, pos, [])) + [Times, Factor(k, d[k])]
    ensures Spelled(Factors(d, pos, neg + [k])) ==
      if pos + neg == [] then [Factor(k, d[k])] else Spelled(Factors(d, pos, neg)) + [Over, Factor(k, Neg(d[k]))]
  {
    var n := |pos| + |neg|;
    var more := Factors(d, pos, neg + [k]);
    assert (pos + (neg + [k]))[..n] == pos + neg;
    assert more[..n] == Factors(d, pos, neg);
    if neg == [] {
      var longer := Factors(d, pos + [k], []);
      assert longer[..n] == Factors(d, pos, []);
    }
  }

  lemma {:induction false} DenominatorWritten(d: Monomial, pos: seq<nat>, keys: seq<nat>) returns (neg: seq<nat>)
    requires Increasing(keys) && forall k :: k in pos + keys ==> k in d
    ensures Increasing(neg) && forall k: nat :: k in neg <==> k in keys && d[k].num < 0
    ensures Denominator(d, Spelled(Factors(d, pos, [])), keys) == Spelled(Factors(d, pos, neg))
    decreases |keys|
  {
    hide Factors, Spelled, Increasing;
    neg := [];
    NoFactors(d);
    if keys != [] {
      var init, k := keys[..|keys| - 1], keys[|keys| - 1];
      LastKey(keys);
      neg := DenominatorWritten(d, pos, init);
      if d[k].num < 0 {
        OneMore(d, pos, neg, k);
        FactorsEmpty(d, pos, neg);
        AppendKey(neg, init, k);
        neg := neg + [k];
      }
    }
  }

  /** The printed form lists the positive powers by increasing base, joined by
      the times sign, then the negative powers by increasing base, each after
      the division sign with its exponent negated. */
  lemma PrintedShape(d: Monomial, pos: seq<nat>, neg: seq<nat>)
    requires d != map[] && Sides(d, pos, neg)
    ensures Printed(d) == Spelled(Factors(d, pos, neg))
  {
    hide Numerator, Denominator, Spelled, Factors;
    var keys := InOrder(d.Keys);
    var numerator := NumeratorWritten(d, keys);
    var denominator := DenominatorWritten(d, numerator, keys);
    IncreasingUnique(pos, numerator);
    IncreasingUnique(neg, denominator);
  }
}
