/** Structural equivalence is equality up to a renaming of the binders. */
module SignatureEquivalence {
  import opened Outcomes
  import opened Digraph
  import opened Sorting
  import opened Ratios
  import opened Monomials
  import opened Signatures

  // Occurrences

  lemma {:induction false} DimOccurs(params: seq<Param>, j: nat, v: nat)
    requires j < |params| && v in Vars(params[j].kind)
    ensures v in DimOccurrences(params)
    decreases |params|
  {
    var last := |params| - 1;
    if j < last {
      DimOccurs(params[..last], j, v);
    }
  }

  lemma {:induction false} AxisOccurs(params: seq<Param>, j: nat, x: nat)
    requires j < |params| && x in Axes(params[j].kind)
    ensures x in AxisOccurrences(params)
    decreases |params|
  {
    var last := |params| - 1;
    if j < last {
      AxisOccurs(params[..last], j, x);
    }
  }

  lemma BindsVar(kind: ParamKind, v: nat)
    requires Binds(kind, v)
    ensures Vars(kind) == {v} && Element(kind) == Quantity(DimMonomial(map[v := ONE], map[]))
  {
  }

  /** On a valid signature every binder gets a number of its own. */
  lemma OrderTotal(s: Signature)
    requires ValidSignature(s)
    ensures |OrderOf(s).dims| == |s.dims| && Total(OrderOf(s).dims)
    ensures |OrderOf(s).indexes| == |s.indexes| && Total(OrderOf(s).indexes)
  {
    var dims, axes := DimOccurrences(s.params), AxisOccurrences(s.params);
    NumberAllCorrect(|s.dims|, dims);
    NumberAllCorrect(|s.indexes|, axes);
    forall v: nat | v < |s.dims|
      ensures v in dims
    {
      assert BoundBy(s.params, v);
      var j :| 0 <= j < |s.params| && Binds(s.params[j].kind, v);
      BindsVar(s.params[j].kind, v);
      DimOccurs(s.params, j, v);
    }
    forall x: nat | x < |s.indexes|
      ensures x in axes
    {
      assert AxisOf(s.params, x);
      var j :| 0 <= j < |s.params| && x in Axes(s.params[j].kind);
      AxisOccurs(s.params, j, x);
    }
    NumberingTotal(OrderOf(s).dims, NumberAll(Fresh(|s.dims|), 0, dims).1);
    NumberingTotal(OrderOf(s).indexes, NumberAll(Fresh(|s.indexes|), 0, axes).1);
  }

  // Renamed signatures are numbered alike

  /** `p` carries the numbering `a` to the numbering `b`. */
  ghost predicate Carries(a: Slots, b: Slots, p: seq<nat>) {
    && |a| == |b| && Permutation(|a|, p)
    && forall v: nat :: v < |a| ==> p[v] < |b| && b[p[v]] == a[v]
  }

  lemma NumberCarries(a: Slots, b: Slots, p: seq<nat>, next: nat, v: nat)
    requires Carries(a, b, p) && v < |a|
    ensures Carries(Number(a, next, v).0, Number(b, next, p[v]).0, p)
    ensures Number(a, next, v).1 == Number(b, next, p[v]).1
  {
  }

  lemma {:induction false} NumberAllCarries(a: Slots, b: Slots, p: seq<nat>, next: nat, xs: seq<nat>, ys: seq<nat>)
    requires Carries(a, b, p) && |xs| == |ys|
    requires forall i :: 0 <= i < |xs| ==> xs[i] < |a| && ys[i] == p[xs[i]]
    ensures Carries(NumberAll(a, next, xs).0, NumberAll(b, next, ys).0, p)
    ensures NumberAll(a, next, xs).1 == NumberAll(b, next, ys).1
    ensures |NumberAll(a, next, xs).0| == |a|
    decreases |xs|
  {
    if xs != [] {
      var k := |xs| - 1;
      NumberAllCarries(a, b, p, next, xs[..k], ys[..k]);
      var (a', n) := NumberAll(a, next, xs[..k]);
      var (b', _) := NumberAll(b, next, ys[..k]);
      NumberCarries(a', b', p, n, xs[k]);
    }
  }

  /** Binders that have numbers already are not renumbered. */
  lemma {:induction false} NumberAllKnown(a: Slots, next: nat, xs: seq<nat>)
    requires forall i :: 0 <= i < |xs| ==> xs[i] < |a| && a[xs[i]].Some?
    ensures NumberAll(a, next, xs) == (a, next)
    decreases |xs|
  {
    if xs != [] {
      NumberAllKnown(a, next, xs[..|xs| - 1]);
    }
  }

  lemma {:induction false} NumberAllConcat(a: Slots, next: nat, xs: seq<nat>, ys: seq<nat>)
    ensures var (b, n) := NumberAll(a, next, xs); NumberAll(a, next, xs + ys) == NumberAll(b, n, ys)
    decreases |ys|
  {
    if ys == [] {
      assert xs + ys == xs;
    } else {
      var k := |ys| - 1;
      NumberAllConcat(a, next, xs, ys[..k]);
      assert (xs + ys)[..|xs| + k] == xs + ys[..k];
      assert (xs + ys)[|xs| + k] == ys[k];
    }
  }

  lemma RenamedBinds(a: ParamKind, b: ParamKind, p: seq<nat>, q: seq<nat>, v: nat)
    requires RenamedKind(a, b, p, q) && Binds(a, v)
    ensures v < |p| && Vars(b) == {p[v]}
  {
    BindsVar(a, v);
    var m, r := Element(a).monomial, Element(b).monomial;
    assert v in m.vars;
    forall j | j in r.vars
      ensures j == p[v]
    {
      var k :| k in m.vars && k < |p| && p[k] == j;
    }
    assert r.vars.Keys == {p[v]};
  }

  lemma RenamedVars(a: ParamKind, b: ParamKind, p: seq<nat>, q: seq<nat>, j: nat) returns (k: nat)
    requires RenamedKind(a, b, p, q) && j in Vars(b)
    ensures k in Vars(a) && k < |p| && p[k] == j
  {
    k :| k in Element(a).monomial.vars && k < |p| && p[k] == j;
  }

  lemma FreshCarried(n: nat, p: seq<nat>)
    requires Permutation(n, p)
    ensures Carries(Fresh(n), Fresh(n), p)
  {
    forall v: nat | v < n
      ensures p[v] < n
    {
      PermutationNode(n, p, v);
    }
  }

  /** One more parameter numbers its variables after all earlier ones. */
  lemma DimsStep(n: nat, params: seq<Param>, j: nat)
    requires j < |params|
    ensures var (a, k) := NumberAll(Fresh(n), 0, DimOccurrences(params[..j]));
            && |a| == n && (forall v: nat :: v < n ==> (a[v].Some? <==> v in DimOccurrences(params[..j])))
            && NumberAll(Fresh(n), 0, DimOccurrences(params[..j + 1])) == NumberAll(a, k, InOrder(Vars(params[j].kind)))
  {
    hide NumberAll, Numbering, Vars;
    assert params[..j + 1][..j] == params[..j];
    NumberAllConcat(Fresh(n), 0, DimOccurrences(params[..j]), InOrder(Vars(params[j].kind)));
    NumberAllCorrect(n, DimOccurrences(params[..j]));
  }

  lemma AxesStep(n: nat, params: seq<Param>, j: nat)
    requires j < |params|
    ensures var (a, k) := NumberAll(Fresh(n), 0, AxisOccurrences(params[..j]));
            && |a| == n
            && NumberAll(Fresh(n), 0, AxisOccurrences(params[..j + 1])) == NumberAll(a, k, Axes(params[j].kind))
  {
    hide NumberAll, Numbering, Axes;
    assert params[..j + 1][..j] == params[..j];
    NumberAllConcat(Fresh(n), 0, AxisOccurrences(params[..j]), Axes(params[j].kind));
    NumberAllCorrect(n, AxisOccurrences(params[..j]));
  }

  /** After any number of parameters, the renaming carries one numbering of the
      dimension variables to the other. */
  lemma {:induction false} DimsCarried(s: Signature, t: Signature, p: seq<nat>, q: seq<nat>, i: nat)
    requires ValidSignature(s) && Renames(s, t, p, q) && i <= |s.params|
    ensures var (a, n) := NumberAll(Fresh(|s.dims|), 0, DimOccurrences(s.params[..i]));
            var (b, m) := NumberAll(Fresh(|t.dims|), 0, DimOccurrences(t.params[..i]));
            n == m && Carries(a, b, p)
    decreases i
  {
    hide NumberAll, Carries, ValidSignature, RenamedKind, RenamedResult, Vars, InOrder;
    if i == 0 {
      NothingNumbered(|s.dims|);
      FreshCarried(|s.dims|, p);
    } else {
      DimsCarried(s, t, p, q, i - 1);
      DimsStep(|s.dims|, s.params, i - 1);
      DimsStep(|t.dims|, t.params, i - 1);
      var (a, n) := NumberAll(Fresh(|s.dims|), 0, DimOccurrences(s.params[..i - 1]));
      var (b, _) := NumberAll(Fresh(|t.dims|), 0, DimOccurrences(t.params[..i - 1]));
      OneParamCarried(s, t, p, q, i - 1, a, b, n);
    }
  }

  lemma NothingNumbered(n: nat)
    ensures NumberAll(Fresh(n), 0, []) == (Fresh(n), 0)
  {
  }

  lemma OneParamCarried(s: Signature, t: Signature, p: seq<nat>, q: seq<nat>, j: nat, a: Slots, b: Slots, n: nat)
    requires ValidSignature(s) && Renames(s, t, p, q) && j < |s.params|
    requires |a| == |s.dims| && Carries(a, b, p)
    requires forall v: nat :: v < |a| ==> (a[v].Some? <==> v in DimOccurrences(s.params[..j]))
    ensures var xs, ys := InOrder(Vars(s.params[j].kind)), InOrder(Vars(t.params[j].kind));
            && NumberAll(a, n, xs).1 == NumberAll(b, n, ys).1
            && Carries(NumberAll(a, n, xs).0, NumberAll(b, n, ys).0, p)
  {
    hide NumberAll, Carries, Vars, Binds;
    if v: nat :| Binds(s.params[j].kind, v) {
      BareCarried(s, t, p, q, j, v, a, b, n);
    } else {
      CompoundCarried(s, t, p, q, j, a, b, n);
    }
  }

  lemma BareCarried(s: Signature, t: Signature, p: seq<nat>, q: seq<nat>, j: nat, v: nat, a: Slots, b: Slots, n: nat)
    requires Renames(s, t, p, q) && j < |s.params| && |a| == |s.dims| && Carries(a, b, p)
    requires Binds(s.params[j].kind, v)
    ensures var xs, ys := InOrder(Vars(s.params[j].kind)), InOrder(Vars(t.params[j].kind));
            && NumberAll(a, n, xs).1 == NumberAll(b, n, ys).1
            && Carries(NumberAll(a, n, xs).0, NumberAll(b, n, ys).0, p)
  {
    var left, right := s.params[j].kind, t.params[j].kind;
    BindsVar(left, v);
    RenamedBinds(left, right, p, q, v);
    InOrderSingle(v);
    InOrderSingle(p[v]);
    NumberAllCarries(a, b, p, n, [v], [p[v]]);
  }

  lemma CompoundCarried(s: Signature, t: Signature, p: seq<nat>, q: seq<nat>, j: nat, a: Slots, b: Slots, n: nat)
    requires ValidSignature(s) && Renames(s, t, p, q) && j < |s.params|
    requires |a| == |s.dims| && Carries(a, b, p) && forall v: nat :: !Binds(s.params[j].kind, v)
    requires forall v: nat :: v < |a| ==> (a[v].Some? <==> v in DimOccurrences(s.params[..j]))
    ensures var xs, ys := InOrder(Vars(s.params[j].kind)), InOrder(Vars(t.params[j].kind));
            && NumberAll(a, n, xs).1 == NumberAll(b, n, ys).1
            && Carries(NumberAll(a, n, xs).0, NumberAll(b, n, ys).0, p)
  {
    hide ValidSignature, Vars, DimOccurrences, RenamedKind, RenamedResult;
    var left, right := s.params[j].kind, t.params[j].kind;
    var xs, ys := InOrder(Vars(left)), InOrder(Vars(right));
    forall i | 0 <= i < |xs|
      ensures xs[i] < |a| && a[xs[i]].Some?
    {
      assert xs[i] in xs;
      EarlierOccurs(s, j, xs[i]);
    }
    forall i | 0 <= i < |ys|
      ensures ys[i] < |b| && b[ys[i]].Some?
    {
      assert ys[i] in ys;
      var k := RenamedVars(left, right, p, q, ys[i]);
      EarlierOccurs(s, j, k);
      assert a[k].Some? && b[p[k]] == a[k];
    }
    NumberAllKnown(a, n, xs);
    NumberAllKnown(b, n, ys);
  }

  /** A variable used in a compound monomial occurs earlier. */
  lemma EarlierOccurs(s: Signature, j: nat, v: nat)
    requires ValidSignature(s) && j < |s.params| && v in Vars(s.params[j].kind) && !Binds(s.params[j].kind, v)
    ensures v < |s.dims| && v in DimOccurrences(s.params[..j])
  {
    assert WfKind(s.params[j].kind, |s.dims|, |s.indexes|);
    var before := s.params[..j];
    assert BoundBy(before, v);
    var k :| 0 <= k < |before| && Binds(before[k].kind, v);
    BindsVar(before[k].kind, v);
    DimOccurs(before, k, v);
  }

  lemma OneParamAxesCarried(s: Signature, t: Signature, p: seq<nat>, q: seq<nat>, j: nat, a: Slots, b: Slots, n: nat)
    requires ValidSignature(s) && Renames(s, t, p, q) && j < |s.params|
    requires |a| == |s.indexes| && Carries(a, b, q)
    ensures var xs, ys := Axes(s.params[j].kind), Axes(t.params[j].kind);
            && NumberAll(a, n, xs).1 == NumberAll(b, n, ys).1
            && Carries(NumberAll(a, n, xs).0, NumberAll(b, n, ys).0, q)
  {
    hide NumberAll, Carries, RenamedResult, RenamedScalar, WfScalar, BoundBy, AxisOf;
    var left, right := s.params[j].kind, t.params[j].kind;
    assert WfKind(left, |s.dims|, |s.indexes|) && RenamedKind(left, right, p, q);
    assert forall k :: 0 <= k < |Axes(left)| ==> Axes(left)[k] in Axes(left);
    NumberAllCarries(a, b, q, n, Axes(left), Axes(right));
  }

  /** The same for the index variables. */
  lemma {:induction false} AxesCarried(s: Signature, t: Signature, p: seq<nat>, q: seq<nat>, i: nat)
    requires ValidSignature(s) && Renames(s, t, p, q) && i <= |s.params|
    ensures var (a, n) := NumberAll(Fresh(|s.indexes|), 0, AxisOccurrences(s.params[..i]));
            var (b, m) := NumberAll(Fresh(|t.indexes|), 0, AxisOccurrences(t.params[..i]));
            n == m && Carries(a, b, q)
    decreases i
  {
    hide NumberAll, Carries, ValidSignature, RenamedKind, RenamedResult, Axes;
    if i == 0 {
      NothingNumbered(|s.indexes|);
      FreshCarried(|s.indexes|, q);
    } else {
      AxesCarried(s, t, p, q, i - 1);
      AxesStep(|s.indexes|, s.params, i - 1);
      AxesStep(|t.indexes|, t.params, i - 1);
      var (a, n) := NumberAll(Fresh(|s.indexes|), 0, AxisOccurrences(s.params[..i - 1]));
      var (b, _) := NumberAll(Fresh(|t.indexes|), 0, AxisOccurrences(t.params[..i - 1]));
      OneParamAxesCarried(s, t, p, q, i - 1, a, b, n);
    }
  }

  // Comparing by number is comparing up to the renaming that matches numbers

  type NumberedFactor = (Option<nat>, Ratio)

  lemma PositionOrdering()
    ensures Ordering(PositionAtMost)
  {
  }

  ghost predicate PairOf(vars: Monomial, dims: Slots, x: NumberedFactor) {
    exists k: nat :: k in vars && x == (Lookup(dims, k), vars[k])
  }

  ghost predicate NumberedOnce(pairs: seq<NumberedFactor>) {
    forall i, j :: 0 <= i < j < |pairs| ==> pairs[i].0 != pairs[j].0
  }

  /** The numbered factors: one pair for each variable, no number twice. */
  lemma PairsCorrect(vars: Monomial, dims: Slots)
    requires Total(dims) && forall k :: k in vars ==> k < |dims|
    ensures var pairs := Pairs(vars, dims, InOrder(vars.Keys));
            && (forall x :: x in pairs <==> PairOf(vars, dims, x))
            && NumberedOnce(pairs)
  {
    var keys := InOrder(vars.Keys);
    var pairs := Pairs(vars, dims, keys);
    forall x
      ensures x in pairs <==> PairOf(vars, dims, x)
    {
      if x in pairs {
        var i :| 0 <= i < |pairs| && pairs[i] == x;
        assert keys[i] in keys && x == (Lookup(dims, keys[i]), vars[keys[i]]);
      }
      if PairOf(vars, dims, x) {
        var k: nat :| k in vars && x == (Lookup(dims, k), vars[k]);
        assert k in keys;
        var i :| 0 <= i < |keys| && keys[i] == k;
        assert pairs[i] == x;
      }
    }
    forall i, j | 0 <= i < j < |pairs|
      ensures pairs[i].0 != pairs[j].0
    {
      assert keys[i] in keys && keys[j] in keys;
    }
  }

  lemma SortedNoTies(pairs: seq<NumberedFactor>)
    requires NumberedOnce(pairs)
    ensures NoTies(Sort(pairs, PositionAtMost), PositionAtMost)
    ensures Sorted(Sort(pairs, PositionAtMost), PositionAtMost)
    ensures multiset(Sort(pairs, PositionAtMost)) == multiset(pairs)
    ensures forall x :: x in Sort(pairs, PositionAtMost) <==> x in pairs
  {
    hide Sorted, Sort, Ordering;
    PositionOrdering();
    SortCorrect(pairs, PositionAtMost);
    var sorted := Sort(pairs, PositionAtMost);
    forall i, j | 0 <= i < |sorted| && 0 <= j < |sorted| && PositionAtMost(sorted[i], sorted[j])
           && PositionAtMost(sorted[j], sorted[i])
      ensures sorted[i] == sorted[j]
    {
      assert sorted[i] in sorted && sorted[j] in sorted;
      var k :| 0 <= k < |pairs| && pairs[k] == sorted[i];
      var l :| 0 <= l < |pairs| && pairs[l] == sorted[j];
    }
  }

  ghost predicate SameMembers(a: seq<NumberedFactor>, b: seq<NumberedFactor>) {
    forall x :: x in a <==> x in b
  }

  lemma SamePairsSameSort(a: seq<NumberedFactor>, b: seq<NumberedFactor>)
    requires NumberedOnce(a) && NumberedOnce(b)
    ensures Sort(a, PositionAtMost) == Sort(b, PositionAtMost) <==> SameMembers(a, b)
  {
    hide Sorted, NoTies, PositionAtMost, Ordering;
    SortedNoTies(a);
    SortedNoTies(b);
    if SameMembers(a, b) {
      DistinctSameMembers(a, b);
      PositionOrdering();
      SortedUnique(Sort(a, PositionAtMost), Sort(b, PositionAtMost), PositionAtMost);
    }
  }

  /** A number belongs to one variable of each monomial, and `p` pairs them. */
  lemma PairCarried(m: Monomial, r: Monomial, a: Slots, b: Slots, p: seq<nat>, k: nat)
    requires Carries(a, b, p) && Total(a) && Total(b)
    requires k in m && k < |a| && forall j :: j in r ==> j < |b|
    ensures PairOf(r, b, (Lookup(a, k), m[k])) <==> p[k] in r && r[p[k]] == m[k]
  {
    assert b[p[k]] == a[k];
    if PairOf(r, b, (Lookup(a, k), m[k])) {
      var j: nat :| j in r && (Lookup(a, k), m[k]) == (Lookup(b, j), r[j]);
      assert b[j] == b[p[k]];
    }
  }

  lemma MonomialsMatch(m: DimMonomial, r: DimMonomial, a: Slots, b: Slots, p: seq<nat>)
    requires Carries(a, b, p) && Total(a) && Total(b)
    requires (forall k :: k in m.vars ==> k < |a|) && (forall j :: j in r.vars ==> j < |b|)
    ensures Renumbered(m, a) == Renumbered(r, b) <==> RenamedMonomial(m, r, p)
  {
    hide Sort, PairOf, Total, Carries, SameMembers, RenamedMonomial, PositionAtMost, NumberedOnce;
    var left, right := Pairs(m.vars, a, InOrder(m.vars.Keys)), Pairs(r.vars, b, InOrder(r.vars.Keys));
    PairsCorrect(m.vars, a);
    PairsCorrect(r.vars, b);
    SamePairsSameSort(left, right);
    if SameMembers(left, right) && m.fixed == r.fixed {
      SameMembersRenamed(m, r, a, b, p, left, right);
    }
    if RenamedMonomial(m, r, p) {
      RenamedSameMembers(m, r, a, b, p, left, right);
      RenamedFixed(m, r, p);
    }
  }

  lemma SameMembersRenamed(m: DimMonomial, r: DimMonomial, a: Slots, b: Slots, p: seq<nat>,
                           left: seq<NumberedFactor>, right: seq<NumberedFactor>)
    requires Carries(a, b, p) && Total(a) && Total(b)
    requires (forall k :: k in m.vars ==> k < |a|) && (forall j :: j in r.vars ==> j < |b|)
    requires forall x :: x in left <==> PairOf(m.vars, a, x)
    requires forall x :: x in right <==> PairOf(r.vars, b, x)
    requires SameMembers(left, right) && m.fixed == r.fixed
    ensures RenamedMonomial(m, r, p)
  {
    hide Total;
    forall k | k in m.vars
      ensures p[k] in r.vars && r.vars[p[k]] == m.vars[k]
    {
      var x: NumberedFactor := (Lookup(a, k), m.vars[k]);
      assert PairOf(m.vars, a, x);
      PairCarried(m.vars, r.vars, a, b, p, k);
    }
    forall j | j in r.vars
      ensures exists k :: k in m.vars && k < |p| && p[k] == j
    {
      var x: NumberedFactor := (Lookup(b, j), r.vars[j]);
      assert PairOf(r.vars, b, x);
      assert x in left;
      var k: nat :| k in m.vars && x == (Lookup(a, k), m.vars[k]);
      SameNumber(a, b, p, k, j);
    }
  }

  lemma SameNumber(a: Slots, b: Slots, p: seq<nat>, k: nat, j: nat)
    requires Carries(a, b, p) && Total(b) && k < |a| && j < |b| && a[k] == b[j]
    ensures p[k] == j
  {
    assert b[p[k]] == a[k];
  }

  lemma PairForward(m: DimMonomial, r: DimMonomial, a: Slots, b: Slots, p: seq<nat>, x: NumberedFactor)
    requires Carries(a, b, p) && Total(a) && Total(b) && RenamedMonomial(m, r, p)
    requires (forall k :: k in m.vars ==> k < |a|) && (forall j :: j in r.vars ==> j < |b|)
    requires PairOf(m.vars, a, x)
    ensures PairOf(r.vars, b, x)
  {
    hide Carries, Total;
    var k: nat :| k in m.vars && x == (Lookup(a, k), m.vars[k]);
    PairCarried(m.vars, r.vars, a, b, p, k);
  }

  lemma PairBackward(m: DimMonomial, r: DimMonomial, a: Slots, b: Slots, p: seq<nat>, x: NumberedFactor)
    requires Carries(a, b, p) && RenamedMonomial(m, r, p) && PairOf(r.vars, b, x)
    requires (forall k :: k in m.vars ==> k < |a|) && (forall j :: j in r.vars ==> j < |b|)
    ensures PairOf(m.vars, a, x)
  {
    hide Permutation;
    var j: nat :| j in r.vars && x == (Lookup(b, j), r.vars[j]);
    var k: nat :| k in m.vars && k < |p| && p[k] == j;
    assert x == (Lookup(a, k), m.vars[k]);
  }

  lemma RenamedFixed(m: DimMonomial, r: DimMonomial, p: seq<nat>)
    requires RenamedMonomial(m, r, p)
    ensures m.fixed == r.fixed
  {
  }

  lemma RenamedSameMembers(m: DimMonomial, r: DimMonomial, a: Slots, b: Slots, p: seq<nat>,
                           left: seq<NumberedFactor>, right: seq<NumberedFactor>)
    requires Carries(a, b, p) && Total(a) && Total(b) && RenamedMonomial(m, r, p)
    requires (forall k :: k in m.vars ==> k < |a|) && (forall j :: j in r.vars ==> j < |b|)
    requires forall x :: x in left <==> PairOf(m.vars, a, x)
    requires forall x :: x in right <==> PairOf(r.vars, b, x)
    ensures SameMembers(left, right)
  {
    hide Carries, Total, RenamedMonomial, PairOf;
    forall x: NumberedFactor
      ensures x in left <==> x in right
    {
      if x in left {
        PairForward(m, r, a, b, p, x);
      }
      if x in right {
        PairBackward(m, r, a, b, p, x);
      }
    }
  }

  lemma KindsMatch(k: ParamKind, l: ParamKind, oa: FirstOccurrence, ob: FirstOccurrence, p: seq<nat>, q: seq<nat>)
    requires Carries(oa.dims, ob.dims, p) && Total(oa.dims) && Total(ob.dims)
    requires Carries(oa.indexes, ob.indexes, q) && Total(oa.indexes) && Total(ob.indexes)
    requires WfKind(k, |oa.dims|, |oa.indexes|) && WfKind(l, |ob.dims|, |ob.indexes|)
    ensures ParamEquivalent(k, oa, l, ob) <==> RenamedKind(k, l, p, q)
  {
    hide Renumbered, RenamedMonomial;
    if Element(k).Quantity? && Element(l).Quantity? {
      MonomialsMatch(Element(k).monomial, Element(l).monomial, oa.dims, ob.dims, p);
    }
    if k.Indexed? && l.Indexed? && |k.axes| == |l.axes| {
      forall i | 0 <= i < |k.axes|
        ensures LookupAxis(oa.indexes, k.axes[i]) == LookupAxis(ob.indexes, l.axes[i])
                <==> k.axes[i] < |q| && l.axes[i] == q[k.axes[i]]
      {
        assert k.axes[i] in Axes(k) && l.axes[i] in Axes(l);
        if LookupAxis(oa.indexes, k.axes[i]) == LookupAxis(ob.indexes, l.axes[i]) {
          SameNumber(oa.indexes, ob.indexes, q, k.axes[i], l.axes[i]);
        }
      }
    }
  }

  /** Any two total numberings of the same size are matched by one bijection. */
  lemma Matching(a: Slots, b: Slots) returns (p: seq<nat>)
    requires |a| == |b| && Total(a) && Total(b)
    ensures Carries(a, b, p)
  {
    p := [];
    for i := 0 to |a|
      invariant |p| == i && forall v: nat :: v < i ==> p[v] < |b| && b[p[v]] == a[v]
    {
      assert Used(b, a[i].value);
      var u :| 0 <= u < |b| && b[u] == Some(a[i].value);
      p := p + [u];
    }
    forall i, j | 0 <= i < j < |p|
      ensures p[i] != p[j]
    {
      assert b[p[i]] == a[i] && b[p[j]] == a[j];
    }
    DistinctBound(p, |a|);
  }

  lemma CarriedEquivalent(s: Signature, t: Signature, p: seq<nat>, q: seq<nat>)
    requires ValidSignature(s) && ValidSignature(t)
    requires Carries(OrderOf(s).dims, OrderOf(t).dims, p) && Carries(OrderOf(s).indexes, OrderOf(t).indexes, q)
    ensures StructurallyEquivalent(s, t) <==> Renames(s, t, p, q)
  {
    hide Carries, Total, ParamEquivalent, RenamedKind, WfKind, OrderOf;
    OrderTotal(s);
    OrderTotal(t);
    var os, ot := OrderOf(s), OrderOf(t);
    CarriesSize(os.dims, ot.dims, p);
    CarriesSize(os.indexes, ot.indexes, q);
    if |s.params| == |t.params| {
      forall i | 0 <= i < |s.params|
        ensures ParamEquivalent(s.params[i].kind, os, t.params[i].kind, ot)
                <==> RenamedKind(s.params[i].kind, t.params[i].kind, p, q)
      {
        assert WfKind(s.params[i].kind, |s.dims|, |s.indexes|);
        assert WfKind(t.params[i].kind, |t.dims|, |t.indexes|);
        KindsMatch(s.params[i].kind, t.params[i].kind, os, ot, p, q);
      }
    }
    if s.result.Value? && t.result.Value? {
      KindsMatch(s.result.kind, t.result.kind, os, ot, p, q);
    }
  }

  lemma CarriesSize(a: Slots, b: Slots, p: seq<nat>)
    requires Carries(a, b, p)
    ensures |a| == |b| && Permutation(|a|, p)
  {
  }

  /** The linear comparison of two valid signatures holds exactly when some
      renaming of dimension and index binders turns one into the other. */
  lemma EquivalentIffRenamed(s: Signature, t: Signature)
    requires ValidSignature(s) && ValidSignature(t)
    ensures StructurallyEquivalent(s, t) <==> exists p, q :: Renames(s, t, p, q)
  {
    hide OrderOf, Carries, ParamEquivalent, RenamedKind, ResultEquivalent, RenamedResult, Total, ValidSignature;
    if StructurallyEquivalent(s, t) {
      var p, q := EquivalentRenames(s, t);
    }
    if p, q :| Renames(s, t, p, q) {
      RenamesCarry(s, t, p, q);
      CarriedEquivalent(s, t, p, q);
    }
  }

  lemma EquivalentRenames(s: Signature, t: Signature) returns (p: seq<nat>, q: seq<nat>)
    requires ValidSignature(s) && ValidSignature(t) && StructurallyEquivalent(s, t)
    ensures Renames(s, t, p, q)
  {
    hide OrderOf, Carries, ParamEquivalent, RenamedKind, ResultEquivalent, RenamedResult, Total, ValidSignature;
    OrderTotal(s);
    OrderTotal(t);
    p := Matching(OrderOf(s).dims, OrderOf(t).dims);
    q := Matching(OrderOf(s).indexes, OrderOf(t).indexes);
    CarriedEquivalent(s, t, p, q);
  }

  lemma RenamesCarry(s: Signature, t: Signature, p: seq<nat>, q: seq<nat>)
    requires ValidSignature(s) && ValidSignature(t) && Renames(s, t, p, q)
    ensures Carries(OrderOf(s).dims, OrderOf(t).dims, p)
    ensures Carries(OrderOf(s).indexes, OrderOf(t).indexes, q)
  {
    hide RenamedKind, RenamedResult, ValidSignature, Carries;
    DimsCarried(s, t, p, q, |s.params|);
    AxesCarried(s, t, p, q, |s.params|);
    assert s.params[..|s.params|] == s.params && t.params[..|t.params|] == t.params;
  }

  /** Structural equivalence is an equivalence relation. */
  lemma EquivalentReflexive(s: Signature)
    requires ValidSignature(s)
    ensures StructurallyEquivalent(s, s)
  {
    hide RenamedKind, Total;
    OrderTotal(s);
    forall i | 0 <= i < |s.params|
      ensures ParamEquivalent(s.params[i].kind, OrderOf(s), s.params[i].kind, OrderOf(s))
    {
    }
  }

  lemma KindSymmetric(k: ParamKind, ok: FirstOccurrence, l: ParamKind, ol: FirstOccurrence)
    ensures ParamEquivalent(k, ok, l, ol) ==> ParamEquivalent(l, ol, k, ok)
  {
    hide Renumbered;
  }

  lemma KindTransitive(k: ParamKind, ok: FirstOccurrence, l: ParamKind, ol: FirstOccurrence, m: ParamKind,
                       om: FirstOccurrence)
    requires ParamEquivalent(k, ok, l, ol) && ParamEquivalent(l, ol, m, om)
    ensures ParamEquivalent(k, ok, m, om)
  {
    hide Renumbered;
  }

  lemma EquivalentSymmetric(s: Signature, t: Signature)
    ensures StructurallyEquivalent(s, t) <==> StructurallyEquivalent(t, s)
  {
    hide ParamEquivalent, OrderOf;
    forall k, ok, l, ol
      ensures ParamEquivalent(k, ok, l, ol) ==> ParamEquivalent(l, ol, k, ok)
    {
      KindSymmetric(k, ok, l, ol);
    }
  }

  lemma EquivalentTransitive(s: Signature, t: Signature, u: Signature)
    requires StructurallyEquivalent(s, t) && StructurallyEquivalent(t, u)
    ensures StructurallyEquivalent(s, u)
  {
    hide ParamEquivalent, OrderOf;
    var os, ot, ou := OrderOf(s), OrderOf(t), OrderOf(u);
    forall i | 0 <= i < |s.params|
      ensures ParamEquivalent(s.params[i].kind, os, u.params[i].kind, ou)
    {
      KindTransitive(s.params[i].kind, os, t.params[i].kind, ot, u.params[i].kind, ou);
    }
    if s.result.Value? {
      KindTransitive(s.result.kind, os, t.result.kind, ot, u.result.kind, ou);
    }
  }
}
