/** Validated function signatures, first-occurrence numbering, and structural
    equivalence. Binders are identified by their declaration position. */
module Signatures {
  import opened Outcomes
  import opened Digraph
  import opened Sorting
  import opened Ratios
  import opened Monomials

  /** A product of dimension-variable powers and a fixed dimension. */
  datatype DimMonomial = DimMonomial(vars: Monomial, fixed: Monomial)

  datatype ScalarKind = Quantity(monomial: DimMonomial) | BoolKind | IntKind

  datatype ParamKind = Scalar(scalar: ScalarKind) | Indexed(element: ScalarKind, axes: seq<nat>)

  datatype FieldKind = QuantityField(dimension: Monomial) | BoolField | IntField

  datatype Field = Field(name: nat, kind: FieldKind)

  /** A struct result names the record type that it produces. */
  datatype ResultKind = Value(kind: ParamKind) | Struct(record: nat, fields: seq<Field>)

  datatype Param = Param(name: nat, kind: ParamKind)

  datatype Signature = Signature(dims: seq<nat>, indexes: seq<nat>, params: seq<Param>, result: ResultKind)

  /** The variable of a monomial that is exactly that variable. */
  function AsBareVar(m: DimMonomial): Option<nat> {
    if m.vars == map[] then None
    else
      var k := Least(m.vars.Keys);
      if m == DimMonomial(map[k := ONE], map[]) then Some(k) else None
  }

  function Element(kind: ParamKind): ScalarKind {
    match kind
    case Scalar(scalar) => scalar
    case Indexed(element, _) => element
  }

  function Axes(kind: ParamKind): seq<nat> {
    match kind
    case Scalar(_) => []
    case Indexed(_, axes) => axes
  }

  function Vars(kind: ParamKind): set<nat> {
    match Element(kind)
    case Quantity(m) => m.vars.Keys
    case _ => {}
  }

  // What validation guarantees

  ghost predicate WfScalar(scalar: ScalarKind, dims: nat) {
    scalar.Quantity? ==>
      && WfMonomial(scalar.monomial.vars) && WfMonomial(scalar.monomial.fixed)
      && forall v :: v in scalar.monomial.vars ==> v < dims
  }

  ghost predicate WfKind(kind: ParamKind, dims: nat, indexes: nat) {
    && WfScalar(Element(kind), dims)
    && (forall x :: x in Axes(kind) ==> x < indexes)
    && (kind.Indexed? ==> kind.axes != [])
  }

  /** The parameter binds `v`: its element is exactly that variable. */
  predicate Binds(kind: ParamKind, v: nat) {
    Element(kind).Quantity? && AsBareVar(Element(kind).monomial) == Some(v)
  }

  ghost predicate BoundBy(params: seq<Param>, v: nat) {
    exists j :: 0 <= j < |params| && Binds(params[j].kind, v)
  }

  ghost predicate AxisOf(params: seq<Param>, x: nat) {
    exists j :: 0 <= j < |params| && x in Axes(params[j].kind)
  }

  /** Every variable is bound by a bare occurrence before any compound use, and
      every index variable names an axis of some parameter. */
  ghost predicate ValidSignature(s: Signature) {
    && (forall i :: 0 <= i < |s.params| ==> WfKind(s.params[i].kind, |s.dims|, |s.indexes|))
    && (s.result.Value? ==> WfKind(s.result.kind, |s.dims|, |s.indexes|))
    && (forall i, v: nat :: 0 <= i < |s.params| && v in Vars(s.params[i].kind) ==>
          Binds(s.params[i].kind, v) || BoundBy(s.params[..i], v))
    && (forall v: nat :: v < |s.dims| ==> BoundBy(s.params, v))
    && (forall x: nat :: x < |s.indexes| ==> AxisOf(s.params, x))
  }

  // First-occurrence numbering

  type Slots = seq<Option<nat>>

  /** Give `binder` the next number unless it has one. */
  function Number(slots: Slots, next: nat, binder: nat): (Slots, nat) {
    if binder < |slots| && slots[binder].None? then (slots[binder := Some(next)], next + 1) else (slots, next)
  }

  function NumberAll(slots: Slots, next: nat, binders: seq<nat>): (Slots, nat)
    decreases |binders|
  {
    if binders == [] then (slots, next)
    else
      var (before, n) := NumberAll(slots, next, binders[..|binders| - 1]);
      Number(before, n, binders[|binders| - 1])
  }

  function Fresh(n: nat): Slots {
    seq(n, _ => None)
  }

  /** The dimension variables in the order in which the parameters show them. */
  function DimOccurrences(params: seq<Param>): seq<nat> {
    if params == [] then []
    else
      var last := |params| - 1;
      DimOccurrences(params[..last]) + InOrder(Vars(params[last].kind))
  }

  function AxisOccurrences(params: seq<Param>): seq<nat> {
    if params == [] then []
    else
      var last := |params| - 1;
      AxisOccurrences(params[..last]) + Axes(params[last].kind)
  }

  datatype FirstOccurrence = FirstOccurrence(dims: Slots, indexes: Slots)

  function OrderOf(s: Signature): FirstOccurrence {
    FirstOccurrence(
      NumberAll(Fresh(|s.dims|), 0, DimOccurrences(s.params)).0,
      NumberAll(Fresh(|s.indexes|), 0, AxisOccurrences(s.params)).0)
  }

  // Structural equivalence

  function Lookup(slots: Slots, v: nat): Option<nat> {
    if v < |slots| then slots[v] else None
  }

  /** The number of an axis variable, or None when it is out of range. */
  function LookupAxis(slots: Slots, x: nat): Option<Option<nat>> {
    if x < |slots| then Some(slots[x]) else None
  }

  predicate PositionAtMost(a: (Option<nat>, Ratio), b: (Option<nat>, Ratio)) {
    a.0.None? || (b.0.Some? && a.0.value <= b.0.value)
  }

  function Pairs(vars: Monomial, dims: Slots, keys: seq<nat>): (p: seq<(Option<nat>, Ratio)>)
    requires forall k :: k in keys ==> k in vars
    ensures |p| == |keys| && forall i :: 0 <= i < |p| ==> p[i] == (Lookup(dims, keys[i]), vars[keys[i]])
  {
    seq(|keys|, i requires 0 <= i < |keys| => (Lookup(dims, keys[i]), vars[keys[i]]))
  }

  /** The factors by number, sorted. */
  function Renumbered(m: DimMonomial, dims: Slots): (seq<(Option<nat>, Ratio)>, Monomial) {
    (Sort(Pairs(m.vars, dims, InOrder(m.vars.Keys)), PositionAtMost), m.fixed)
  }

  predicate ScalarEquivalent(a: ScalarKind, oa: FirstOccurrence, b: ScalarKind, ob: FirstOccurrence) {
    match (a, b)
    case (Quantity(l), Quantity(r)) => Renumbered(l, oa.dims) == Renumbered(r, ob.dims)
    case (BoolKind, BoolKind) => true
    case (IntKind, IntKind) => true
    case _ => false
  }

  predicate ParamEquivalent(a: ParamKind, oa: FirstOccurrence, b: ParamKind, ob: FirstOccurrence) {
    match (a, b)
    case (Scalar(l), Scalar(r)) => ScalarEquivalent(l, oa, r, ob)
    case (Indexed(l, left), Indexed(r, right)) =>
      && ScalarEquivalent(l, oa, r, ob)
      && |left| == |right|
      && forall i :: 0 <= i < |left| ==> LookupAxis(oa.indexes, left[i]) == LookupAxis(ob.indexes, right[i])
    case _ => false
  }

  predicate ResultEquivalent(a: ResultKind, oa: FirstOccurrence, b: ResultKind, ob: FirstOccurrence) {
    match (a, b)
    case (Value(l), Value(r)) => ParamEquivalent(l, oa, r, ob)
    case (Struct(_, l), Struct(_, r)) => l == r
    case _ => false
  }

  predicate StructurallyEquivalent(s: Signature, t: Signature) {
    var os, ot := OrderOf(s), OrderOf(t);
    && |s.dims| == |t.dims|
    && |s.indexes| == |t.indexes|
    && |s.params| == |t.params|
    && (forall i :: 0 <= i < |s.params| ==> ParamEquivalent(s.params[i].kind, os, t.params[i].kind, ot))
    && ResultEquivalent(s.result, os, t.result, ot)
  }

  // Renaming binders

  ghost predicate RenamedMonomial(m: DimMonomial, r: DimMonomial, p: seq<nat>) {
    && r.fixed == m.fixed
    && (forall k :: k in m.vars ==> k < |p| && p[k] in r.vars && r.vars[p[k]] == m.vars[k])
    && (forall j :: j in r.vars ==> exists k :: k in m.vars && k < |p| && p[k] == j)
  }

  ghost predicate RenamedScalar(a: ScalarKind, b: ScalarKind, p: seq<nat>) {
    match (a, b)
    case (Quantity(l), Quantity(r)) => RenamedMonomial(l, r, p)
    case (BoolKind, BoolKind) => true
    case (IntKind, IntKind) => true
    case _ => false
  }

  ghost predicate RenamedKind(a: ParamKind, b: ParamKind, p: seq<nat>, q: seq<nat>) {
    match (a, b)
    case (Scalar(l), Scalar(r)) => RenamedScalar(l, r, p)
    case (Indexed(l, left), Indexed(r, right)) =>
      && RenamedScalar(l, r, p)
      && |left| == |right|
      && forall i :: 0 <= i < |left| ==> left[i] < |q| && right[i] == q[left[i]]
    case _ => false
  }

  ghost predicate RenamedResult(a: ResultKind, b: ResultKind, p: seq<nat>, q: seq<nat>) {
    match (a, b)
    case (Value(l), Value(r)) => RenamedKind(l, r, p, q)
    case (Struct(_, l), Struct(_, r)) => l == r
    case _ => false
  }

  /** Struct results of the same shape may still name different records. */
  predicate SameRecord(a: ResultKind, b: ResultKind) {
    a.Struct? && b.Struct? ==> a.record == b.record
  }

  /** `t` is `s` with dimension binders renamed by `p` and index binders by
      `q`; parameter names do not matter. */
  ghost predicate Renames(s: Signature, t: Signature, p: seq<nat>, q: seq<nat>) {
    && |s.dims| == |t.dims| && Permutation(|s.dims|, p)
    && |s.indexes| == |t.indexes| && Permutation(|s.indexes|, q)
    && |s.params| == |t.params|
    && (forall i :: 0 <= i < |s.params| ==> RenamedKind(s.params[i].kind, t.params[i].kind, p, q))
    && RenamedResult(s.result, t.result, p, q)
  }

  // The numbering of a valid signature is a bijection

  ghost predicate Used(slots: Slots, k: nat) {
    exists v :: 0 <= v < |slots| && slots[v] == Some(k)
  }

  /** Distinct binders have distinct numbers, all below `next`, and every number
      below `next` is used. */
  ghost predicate Numbering(slots: Slots, next: nat) {
    && (forall v: nat :: v < |slots| && slots[v].Some? ==> slots[v].value < next)
    && (forall u: nat, v: nat :: u < |slots| && v < |slots| && slots[u].Some? && slots[u] == slots[v] ==> u == v)
    && (forall k: nat :: k < next ==> Used(slots, k))
  }

  lemma NumberKeeps(slots: Slots, next: nat, binder: nat)
    requires Numbering(slots, next)
    ensures var (after, n) := Number(slots, next, binder); Numbering(after, n)
  {
    var (after, n) := Number(slots, next, binder);
    forall k: nat | k < n
      ensures Used(after, k)
    {
      if k < next {
        assert Used(slots, k);
        var v :| 0 <= v < |slots| && slots[v] == Some(k);
        assert after[v] == Some(k);
      } else {
        assert after[binder] == Some(k);
      }
    }
  }

  lemma {:induction false} NumberAllCorrect(n: nat, binders: seq<nat>)
    ensures var (slots, next) := NumberAll(Fresh(n), 0, binders);
            && |slots| == n && Numbering(slots, next)
            && forall v: nat :: v < n ==> (slots[v].Some? <==> v in binders)
    decreases |binders|
  {
    if binders != [] {
      var k := |binders| - 1;
      NumberAllCorrect(n, binders[..k]);
      var (before, m) := NumberAll(Fresh(n), 0, binders[..k]);
      NumberKeeps(before, m, binders[k]);
      assert binders == binders[..k] + [binders[k]];
    }
  }

  /** A numbering that covers everything maps the positions onto themselves. */
  ghost predicate Total(slots: Slots) {
    && (forall v: nat :: v < |slots| ==> slots[v].Some? && slots[v].value < |slots|)
    && (forall u: nat, v: nat :: u < |slots| && v < |slots| && slots[u] == slots[v] ==> u == v)
    && (forall k: nat :: k < |slots| ==> Used(slots, k))
  }

  lemma NumberingTotal(slots: Slots, next: nat)
    requires Numbering(slots, next) && forall v: nat :: v < |slots| ==> slots[v].Some?
    ensures next == |slots| && Total(slots)
  {
    var numbers: seq<nat> := seq(|slots|, v requires 0 <= v < |slots| => slots[v].value);
    assert Distinct(numbers);
    DistinctBound(numbers, next);
    if next > |slots| {
      var owners := Owners(slots, next, next);
      DistinctBound(owners, |slots|);
    }
  }

  lemma Owners(slots: Slots, next: nat, k: nat) returns (owners: seq<nat>)
    requires Numbering(slots, next) && k <= next
    ensures |owners| == k && Distinct(owners)
    ensures forall i :: 0 <= i < k ==> owners[i] < |slots| && slots[owners[i]] == Some(i)
  {
    owners := [];
    for i := 0 to k
      invariant |owners| == i
      invariant forall j :: 0 <= j < i ==> owners[j] < |slots| && slots[owners[j]] == Some(j)
    {
      assert Used(slots, i);
      var v :| 0 <= v < |slots| && slots[v] == Some(i);
      owners := owners + [v];
    }
    forall i, j | 0 <= i < j < k
      ensures owners[i] != owners[j]
    {
      assert slots[owners[i]] == Some(i) && slots[owners[j]] == Some(j);
    }
  }
}
