/** Module identities: typed segments below a package, their order, and the
    parent hierarchy. Texts are numbered in their order. */
module DagIds {
  import opened Outcomes

  datatype Order = Less | Equal | Greater

  datatype Scope = Scope(text: nat, anonymous: bool)

  datatype Segment = FileSegment(text: nat) | InlineDag(name: nat) | Instance(scope: Scope)

  datatype DagId = DagId(package: nat, segments: seq<Segment>)

  // Orders

  function Then(first: Order, second: Order): Order {
    if first == Equal then second else first
  }

  function CompareNat(a: nat, b: nat): Order {
    if a < b then Less else if a > b then Greater else Equal
  }

  function Lexicographic<T>(a: seq<T>, b: seq<T>, compare: (T, T) -> Order): Order {
    if a == [] then (if b == [] then Equal else Less)
    else if b == [] then Greater
    else Then(compare(a[0], b[0]), Lexicographic(a[1..], b[1..], compare))
  }

  function Rendered(s: Segment): (text: nat)
    ensures s == FileSegment(text) || s == InlineDag(text) || (s.Instance? && s.scope.text == text)
  {
    match s
    case FileSegment(text) => text
    case InlineDag(name) => name
    case Instance(scope) => scope.text
  }

  function Variant(s: Segment): nat {
    match s
    case FileSegment(_) => 0
    case InlineDag(_) => 1
    case Instance(_) => 2
  }

  function Flag(b: bool): nat {
    if b then 1 else 0
  }

  function CompareRendered(a: Segment, b: Segment): Order {
    CompareNat(Rendered(a), Rendered(b))
  }

  function CompareInstances(a: Segment, b: Segment): Order {
    CompareNat(Flag(a.Instance?), Flag(b.Instance?))
  }

  /** The derived order: variant, then contents. */
  function CompareSegments(a: Segment, b: Segment): Order {
    Then(CompareNat(Variant(a), Variant(b)),
         if a.Instance? && b.Instance? then
           Then(CompareNat(a.scope.text, b.scope.text), CompareNat(Flag(a.scope.anonymous), Flag(b.scope.anonymous)))
         else CompareNat(Rendered(a), Rendered(b)))
  }

  /** Package, then rendered text, then segment kind, then structure. */
  function Compare(a: DagId, b: DagId): Order {
    Then(CompareNat(a.package, b.package),
         Then(Lexicographic(a.segments, b.segments, CompareRendered),
              Then(Lexicographic(a.segments, b.segments, CompareInstances),
                   Lexicographic(a.segments, b.segments, CompareSegments))))
  }

  function Reverse(o: Order): Order {
    match o
    case Less => Greater
    case Equal => Equal
    case Greater => Less
  }

  /** A preorder comparison: swapping reverses it, and it is transitive, also
      through ties. */
  ghost predicate Coherent<T(!new)>(compare: (T, T) -> Order) {
    && (forall a, b :: compare(b, a) == Reverse(compare(a, b)))
    && (forall a, b, c :: compare(a, b) == Equal ==> compare(a, c) == compare(b, c))
    && (forall a, b, c :: compare(a, b) == Less && compare(b, c) == Less ==> compare(a, c) == Less)
  }

  lemma {:induction false} LexicographicReverse<T(!new)>(a: seq<T>, b: seq<T>, compare: (T, T) -> Order)
    requires Coherent(compare)
    ensures Lexicographic(b, a, compare) == Reverse(Lexicographic(a, b, compare))
    decreases |a|
  {
    if a != [] && b != [] {
      LexicographicReverse(a[1..], b[1..], compare);
    }
  }

  lemma {:induction false} LexicographicTies<T(!new)>(a: seq<T>, b: seq<T>, c: seq<T>, compare: (T, T) -> Order)
    requires Coherent(compare) && Lexicographic(a, b, compare) == Equal
    ensures Lexicographic(a, c, compare) == Lexicographic(b, c, compare)
    decreases |a|
  {
    if a != [] && c != [] {
      LexicographicTies(a[1..], b[1..], c[1..], compare);
    }
  }

  lemma {:induction false} LexicographicLess<T(!new)>(a: seq<T>, b: seq<T>, c: seq<T>, compare: (T, T) -> Order)
    requires Coherent(compare) && Lexicographic(a, b, compare) == Less && Lexicographic(b, c, compare) == Less
    ensures Lexicographic(a, c, compare) == Less
    decreases |a|
  {
    if a != [] {
      var ab, bc := compare(a[0], b[0]), compare(b[0], c[0]);
      if ab == Equal && bc == Equal {
        LexicographicLess(a[1..], b[1..], c[1..], compare);
      } else if bc == Equal {
        TieRight(a[0], b[0], c[0], compare);
      }
    }
  }

  lemma TieRight<T(!new)>(a: T, b: T, c: T, compare: (T, T) -> Order)
    requires Coherent(compare) && compare(b, c) == Equal
    ensures compare(a, c) == compare(a, b)
  {
    assert compare(c, a) == Reverse(compare(a, c)) && compare(b, a) == Reverse(compare(a, b));
    assert compare(b, a) == compare(c, a);
  }

  lemma LexicographicCoherent<T(!new)>(a: seq<T>, b: seq<T>, c: seq<T>, compare: (T, T) -> Order)
    requires Coherent(compare)
    ensures Lexicographic(b, a, compare) == Reverse(Lexicographic(a, b, compare))
    ensures Lexicographic(a, b, compare) == Equal ==> Lexicographic(a, c, compare) == Lexicographic(b, c, compare)
    ensures Lexicographic(b, c, compare) == Equal ==> Lexicographic(a, c, compare) == Lexicographic(a, b, compare)
    ensures Lexicographic(a, b, compare) == Less && Lexicographic(b, c, compare) == Less ==>
            Lexicographic(a, c, compare) == Less
  {
    hide Lexicographic, Coherent;
    LexicographicReverse(a, b, compare);
    LexicographicReverse(a, c, compare);
    if Lexicographic(a, b, compare) == Equal {
      LexicographicTies(a, b, c, compare);
    }
    if Lexicographic(b, c, compare) == Equal {
      LexicographicTies(b, c, a, compare);
    }
    if Lexicographic(a, b, compare) == Less && Lexicographic(b, c, compare) == Less {
      LexicographicLess(a, b, c, compare);
    }
  }

  lemma SegmentOrders()
    ensures Coherent(CompareRendered) && Coherent(CompareInstances) && Coherent(CompareSegments)
    ensures forall a, b :: CompareSegments(a, b) == Equal ==> a == b
  {
    hide Coherent;
    RenderedCoherent();
    InstancesCoherent();
    SegmentsCoherent();
  }

  lemma RenderedCoherent()
    ensures Coherent(CompareRendered)
  {
  }

  lemma InstancesCoherent()
    ensures Coherent(CompareInstances)
  {
  }

  lemma SegmentsCoherent()
    ensures Coherent(CompareSegments)
  {
  }

  lemma {:induction false} LexicographicEqual(a: seq<Segment>, b: seq<Segment>)
    requires Lexicographic(a, b, CompareSegments) == Equal
    ensures a == b
    decreases |a|
  {
    if a != [] {
      SegmentOrders();
      LexicographicEqual(a[1..], b[1..]);
      assert a == [a[0]] + a[1..] && b == [b[0]] + b[1..];
    }
  }

  lemma LexicographicSelf<T(!new)>(a: seq<T>, compare: (T, T) -> Order)
    requires Coherent(compare)
    ensures Lexicographic(a, a, compare) == Equal
  {
    LexicographicReverse(a, a, compare);
  }

  /** The comparison is a total order whose ties are exactly the equal
      identities, also for segments that render alike. */
  lemma CompareTotalOrder(a: DagId, b: DagId, c: DagId)
    ensures Compare(b, a) == Reverse(Compare(a, b))
    ensures Compare(a, b) == Equal <==> a == b
    ensures Compare(a, b) == Less && Compare(b, c) == Less ==> Compare(a, c) == Less
  {
    hide Lexicographic, CompareRendered, CompareInstances, CompareSegments, Coherent;
    SegmentOrders();
    LexicographicCoherent(a.segments, b.segments, c.segments, CompareRendered);
    LexicographicCoherent(a.segments, b.segments, c.segments, CompareInstances);
    LexicographicCoherent(a.segments, b.segments, c.segments, CompareSegments);
    LexicographicSelf(a.segments, CompareRendered);
    LexicographicSelf(a.segments, CompareInstances);
    LexicographicSelf(a.segments, CompareSegments);
    if Lexicographic(a.segments, b.segments, CompareSegments) == Equal {
      LexicographicEqual(a.segments, b.segments);
    }
  }

  // The order in words

  /** At the first place that is not alike the one is below the other, or it
      ends there first. */
  ghost predicate FirstBelow<T>(a: seq<T>, b: seq<T>, alike: (T, T) -> bool, below: (T, T) -> bool) {
    exists k: nat :: BelowAt(a, b, k, alike, below)
  }

  ghost predicate BelowAt<T>(a: seq<T>, b: seq<T>, k: nat, alike: (T, T) -> bool, below: (T, T) -> bool) {
    && k <= |a| && k < |b| && (forall i :: 0 <= i < k ==> alike(a[i], b[i]))
    && (k < |a| ==> below(a[k], b[k]))
  }

  ghost predicate AllAlike<T>(a: seq<T>, b: seq<T>, alike: (T, T) -> bool) {
    |a| == |b| && forall i :: 0 <= i < |a| ==> alike(a[i], b[i])
  }

  predicate SameText(s: Segment, t: Segment) {
    Rendered(s) == Rendered(t)
  }

  predicate SmallerText(s: Segment, t: Segment) {
    Rendered(s) < Rendered(t)
  }

  predicate SameKind(s: Segment, t: Segment) {
    s.Instance? <==> t.Instance?
  }

  predicate InstanceAfter(s: Segment, t: Segment) {
    !s.Instance? && t.Instance?
  }

  predicate SameSegment(s: Segment, t: Segment) {
    s == t
  }

  /** Files before inline DAGs before instances; then the text; then named
      scopes before anonymous ones. */
  predicate StructuredBefore(s: Segment, t: Segment) {
    match (s, t)
    case (FileSegment(a), FileSegment(b)) => a < b
    case (InlineDag(a), InlineDag(b)) => a < b
    case (Instance(a), Instance(b)) => a.text < b.text || (a.text == b.text && !a.anonymous && b.anonymous)
    case _ => s.FileSegment? || (s.InlineDag? && t.Instance?)
  }

  /** The documented order. */
  ghost predicate Before(a: DagId, b: DagId) {
    || a.package < b.package
    || (&& a.package == b.package
        && (|| FirstBelow(a.segments, b.segments, SameText, SmallerText)
            || (&& AllAlike(a.segments, b.segments, SameText)
                && (|| FirstBelow(a.segments, b.segments, SameKind, InstanceAfter)
                    || (&& AllAlike(a.segments, b.segments, SameKind)
                        && FirstBelow(a.segments, b.segments, SameSegment, StructuredBefore))))))
  }

  /** The recursive comparison in words. */
  lemma {:induction false} LexicographicExact<T(!new)>(a: seq<T>, b: seq<T>, compare: (T, T) -> Order,
                                                       alike: (T, T) -> bool, below: (T, T) -> bool)
    requires forall s, t :: (compare(s, t) == Equal <==> alike(s, t)) && (compare(s, t) == Less <==> below(s, t))
    ensures Lexicographic(a, b, compare) == Equal <==> AllAlike(a, b, alike)
    ensures Lexicographic(a, b, compare) == Less <==> FirstBelow(a, b, alike, below)
    decreases |a|
  {
    if a == [] {
      assert b != [] ==> BelowAt(a, b, 0, alike, below);
    } else if b != [] {
      LexicographicExact(a[1..], b[1..], compare, alike, below);
      assert AllAlike(a, b, alike) <==> alike(a[0], b[0]) && AllAlike(a[1..], b[1..], alike) by {
        assert a == [a[0]] + a[1..] && b == [b[0]] + b[1..];
      }
      if below(a[0], b[0]) {
        assert BelowAt(a, b, 0, alike, below);
      }
      BelowTail(a, b, alike, below);
    }
  }

  lemma BelowTail<T(!new)>(a: seq<T>, b: seq<T>, alike: (T, T) -> bool, below: (T, T) -> bool)
    requires a != [] && b != []
    ensures FirstBelow(a, b, alike, below) <==>
            below(a[0], b[0]) || (alike(a[0], b[0]) && FirstBelow(a[1..], b[1..], alike, below))
  {
    if below(a[0], b[0]) {
      assert BelowAt(a, b, 0, alike, below);
    }
    if alike(a[0], b[0]) && FirstBelow(a[1..], b[1..], alike, below) {
      var k: nat :| BelowAt(a[1..], b[1..], k, alike, below);
      assert forall i :: 1 <= i < k + 1 ==> a[i] == a[1..][i - 1] && b[i] == b[1..][i - 1];
      assert BelowAt(a, b, k + 1, alike, below);
    }
    if FirstBelow(a, b, alike, below) {
      var k: nat :| BelowAt(a, b, k, alike, below);
      if k > 0 {
        assert BelowAt(a[1..], b[1..], k - 1, alike, below);
      }
    }
  }

  /** The comparison answers less exactly in the documented order: the package,
      the rendered texts, non-instances before instances, the structure. */
  lemma CompareStages(a: DagId, b: DagId)
    ensures Compare(a, b) == Less <==> Before(a, b)
  {
    hide Lexicographic, FirstBelow, AllAlike;
    StageOrders();
    LexicographicExact(a.segments, b.segments, CompareRendered, SameText, SmallerText);
    LexicographicExact(a.segments, b.segments, CompareInstances, SameKind, InstanceAfter);
    LexicographicExact(a.segments, b.segments, CompareSegments, SameSegment, StructuredBefore);
  }

  lemma StageOrders()
    ensures forall s, t :: (CompareRendered(s, t) == Equal <==> SameText(s, t))
                           && (CompareRendered(s, t) == Less <==> SmallerText(s, t))
    ensures forall s, t :: (CompareInstances(s, t) == Equal <==> SameKind(s, t))
                           && (CompareInstances(s, t) == Less <==> InstanceAfter(s, t))
    ensures forall s, t :: (CompareSegments(s, t) == Equal <==> SameSegment(s, t))
                           && (CompareSegments(s, t) == Less <==> StructuredBefore(s, t))
  {
  }

  // The hierarchy

  /** File segments come first, and there is at least one. */
  ghost predicate Valid(id: DagId) {
    && id.segments != [] && id.segments[0].FileSegment?
    && forall i, j :: 0 <= i < j < |id.segments| && id.segments[j].FileSegment? ==> id.segments[i].FileSegment?
  }

  function WithChild(id: DagId, segment: Segment): DagId {
    id.(segments := id.segments + [segment])
  }

  function Parent(id: DagId): Option<DagId>
    requires id.segments != []
  {
    var n := |id.segments| - 1;
    if id.segments[n].FileSegment? || n == 0 then None
    else Some(id.(segments := id.segments[..n]))
  }

  /** The child constructors keep the file prefix, and `Parent` undoes them. */
  lemma ChildParent(id: DagId, segment: Segment)
    requires Valid(id) && !segment.FileSegment?
    ensures Valid(WithChild(id, segment)) && Parent(WithChild(id, segment)) == Some(id)
  {
    assert WithChild(id, segment).segments[..|id.segments|] == id.segments;
  }

  lemma ParentValid(id: DagId)
    requires Valid(id) && Parent(id).Some?
    ensures Valid(Parent(id).value) && |Parent(id).value.segments| == |id.segments| - 1
  {
  }

  /** Some number of steps to the parent leads to `ancestor`. */
  ghost predicate ReachedByParents(id: DagId, ancestor: DagId)
    requires Valid(id)
    decreases |id.segments|
  {
    Parent(id).Some? &&
      (ParentValid(id);
       Parent(id).value == ancestor || ReachedByParents(Parent(id).value, ancestor))
  }

  predicate IsDescendantOf(id: DagId, ancestor: DagId) {
    && id.package == ancestor.package
    && ancestor.segments <= id.segments && |ancestor.segments| < |id.segments|
    && !id.segments[|ancestor.segments|].FileSegment?
  }

  /** Being a strict descendant is being reached by parents. */
  lemma {:induction false} DescendantIffParents(id: DagId, ancestor: DagId)
    requires Valid(id) && Valid(ancestor)
    ensures IsDescendantOf(id, ancestor) <==> ReachedByParents(id, ancestor)
    decreases |id.segments|
  {
    if Parent(id).Some? {
      ParentValid(id);
      var up := Parent(id).value;
      DescendantIffParents(up, ancestor);
      OneStepUp(id, ancestor);
    } else if IsDescendantOf(id, ancestor) {
      FileLeaf(id, |ancestor.segments|);
    }
  }

  lemma OneStepUp(id: DagId, ancestor: DagId)
    requires Valid(id) && Valid(ancestor) && Parent(id).Some?
    ensures IsDescendantOf(id, ancestor) <==> Parent(id).value == ancestor || IsDescendantOf(Parent(id).value, ancestor)
  {
    var up := Parent(id).value;
    assert id.segments == up.segments + [id.segments[|id.segments| - 1]];
    if IsDescendantOf(id, ancestor) && |ancestor.segments| == |up.segments| {
      assert ancestor.segments == up.segments;
    }
  }

  /** An identity whose last segment is a file segment has no other segments. */
  lemma FileLeaf(id: DagId, i: nat)
    requires Valid(id) && Parent(id).None? && i < |id.segments|
    ensures id.segments[i].FileSegment?
  {
  }

  ghost predicate FilesOnly(id: DagId) {
    forall i :: 0 <= i < |id.segments| ==> id.segments[i].FileSegment?
  }

  /** Climb to the file root: the file prefix of the identity. */
  method FileRoot(id: DagId) returns (root: DagId)
    requires Valid(id)
    ensures Valid(root) && FilesOnly(root) && (root == id || IsDescendantOf(id, root))
  {
    root := id;
    var up := Parent(root);
    while up.Some?
      invariant Valid(root) && up == Parent(root) && (root == id || IsDescendantOf(id, root))
      decreases |root.segments|
    {
      ParentValid(root);
      RootAbove(id, root);
      root := up.value;
      up := Parent(root);
    }
    forall i | 0 <= i < |root.segments|
      ensures root.segments[i].FileSegment?
    {
      FileLeaf(root, i);
    }
  }

  lemma RootAbove(id: DagId, root: DagId)
    requires Valid(id) && Valid(root) && Parent(root).Some? && (root == id || IsDescendantOf(id, root))
    ensures IsDescendantOf(id, Parent(root).value)
  {
    var up := Parent(root).value;
    assert root.segments == up.segments + [root.segments[|up.segments|]];
    assert up.segments <= id.segments;
  }

  function ScopeOf(s: Segment): Option<Scope> {
    match s
    case FileSegment(_) => None
    case InlineDag(name) => Some(Scope(name, false))
    case Instance(scope) => Some(scope)
  }

  function CollectScopes(segments: seq<Segment>): Option<seq<Scope>> {
    if segments == [] then Some([])
    else
      match (ScopeOf(segments[0]), CollectScopes(segments[1..]))
      case (Some(first), Some(rest)) => Some([first] + rest)
      case _ => None
  }

  function ScopesBelow(id: DagId, ancestor: DagId): Option<seq<Scope>> {
    if id != ancestor && !IsDescendantOf(id, ancestor) then None
    else if |id.segments| < |ancestor.segments| then Some([])
    else CollectScopes(id.segments[|ancestor.segments|..])
  }

  /** An inline DAG is qualified by its name, an instance by its scope. */
  predicate Qualifies(scope: Scope, s: Segment) {
    s == Instance(scope) || (s == InlineDag(scope.text) && !scope.anonymous)
  }

  lemma {:induction false} ScopesCollected(segments: seq<Segment>)
    requires forall i :: 0 <= i < |segments| ==> !segments[i].FileSegment?
    ensures CollectScopes(segments).Some? && |CollectScopes(segments).value| == |segments|
    ensures forall i :: 0 <= i < |segments| ==> Qualifies(CollectScopes(segments).value[i], segments[i])
  {
    if segments != [] {
      ScopesCollected(segments[1..]);
    }
  }

  /** Scopes exist exactly for the identity itself and its descendants, one for
      each segment below the ancestor. */
  lemma ScopesBelowExact(id: DagId, ancestor: DagId)
    requires Valid(id) && Valid(ancestor)
    ensures ScopesBelow(id, ancestor).Some? <==> id == ancestor || IsDescendantOf(id, ancestor)
    ensures ScopesBelow(id, ancestor).Some? ==>
      var scopes := ScopesBelow(id, ancestor).value;
      && |scopes| == |id.segments| - |ancestor.segments|
      && forall i :: 0 <= i < |scopes| ==> Qualifies(scopes[i], id.segments[|ancestor.segments| + i])
  {
    if id == ancestor || IsDescendantOf(id, ancestor) {
      var below := id.segments[|ancestor.segments|..];
      forall i | 0 <= i < |below|
        ensures !below[i].FileSegment?
      {
      }
      ScopesCollected(below);
    }
  }
}
