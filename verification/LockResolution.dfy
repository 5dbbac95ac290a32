/** Lock resolution: the recursive, memoised walk over Git dependencies with the
    set of packages being visited. */
module LockResolution {
  import opened Outcomes

  /** A package is identified by its name and, unless it is the root, by the
      repository and revision it comes from. */
  datatype PackageId = RootPackage(name: nat) | GitPackage(name: nat, source: nat)

  datatype Spec = Spec(source: nat, expected: nat)

  /** Dependencies in the order of their aliases. */
  datatype Manifest = Manifest(name: nat, dependencies: seq<(nat, Spec)>)

  datatype PackageSource = RootSource | GitSource(source: nat)

  datatype LockedPackage = LockedPackage(id: PackageId, name: nat, source: PackageSource,
                                         dependencies: map<nat, PackageId>)

  datatype LockError =
    | DependencyCycle(package: PackageId)
    | NameMismatch(parent: PackageId, alias: nat, expected: nat, actual: nat)
    | Unavailable(source: nat)

  /** The root manifest, the manifest that each existing source holds, and the
      sources whose fetch fails. */
  datatype World = World(root: Manifest, sources: map<nat, Manifest>, failing: set<nat>)

  // The dependency relation

  ghost function ManifestAt(w: World, id: PackageId): Option<Manifest> {
    match id
    case RootPackage(name) => if name == w.root.name then Some(w.root) else None
    case GitPackage(name, source) =>
      if source in w.sources && w.sources[source].name == name then Some(w.sources[source]) else None
  }

  ghost predicate Needs(w: World, a: PackageId, b: PackageId) {
    && ManifestAt(w, a).Some?
    && exists i ::
         0 <= i < |ManifestAt(w, a).value.dependencies| && Supplies(w, ManifestAt(w, a).value.dependencies[i].1, b)
  }

  /** `spec` names an available source, whose package is `b`. */
  ghost predicate Supplies(w: World, spec: Spec, b: PackageId) {
    spec.source in w.sources && b == GitPackage(w.sources[spec.source].name, spec.source)
  }

  ghost predicate NeedsPath(w: World, p: seq<PackageId>) {
    p != [] && forall i, j :: 0 <= i && j == i + 1 < |p| ==> Needs(w, p[i], p[j])
  }

  ghost predicate Reaches(w: World, a: PackageId, b: PackageId) {
    exists p :: NeedsPath(w, p) && p[0] == a && p[|p| - 1] == b
  }

  ghost predicate OnCycle(w: World, a: PackageId) {
    exists b :: Needs(w, a, b) && Reaches(w, b, a)
  }

  lemma ReachesSelf(w: World, a: PackageId)
    ensures Reaches(w, a, a)
  {
    assert NeedsPath(w, [a]);
  }

  lemma ReachesNext(w: World, a: PackageId, b: PackageId, c: PackageId)
    requires Reaches(w, a, b) && Needs(w, b, c)
    ensures Reaches(w, a, c)
  {
    var p :| NeedsPath(w, p) && p[0] == a && p[|p| - 1] == b;
    assert NeedsPath(w, p + [c]);
  }

  /** Closed sets of packages contain what their members reach. */
  lemma ReachesClosed(w: World, s: set<PackageId>, a: PackageId, b: PackageId)
    requires forall x, y :: x in s && Needs(w, x, y) ==> y in s
    requires a in s && Reaches(w, a, b)
    ensures b in s
  {
    var p :| NeedsPath(w, p) && p[0] == a && p[|p| - 1] == b;
    var i := 0;
    while i < |p| - 1
      invariant 0 <= i < |p| && p[i] in s
    {
      assert Needs(w, p[i], p[i + 1]);
      i := i + 1;
    }
  }

  /** The packages that can occur, finitely many. */
  ghost function Universe(w: World): set<PackageId> {
    {RootPackage(w.root.name)} + set s | s in w.sources :: GitPackage(w.sources[s].name, s)
  }

  // What a locked package says

  function SourceOf(id: PackageId): PackageSource {
    match id
    case RootPackage(_) => RootSource
    case GitPackage(_, source) => GitSource(source)
  }

  /** The source can be fetched. */
  predicate Fetchable(w: World, source: nat) {
    source in w.sources && source !in w.failing
  }

  /** The package that the source holds carries the expected name. */
  predicate Sound(w: World, spec: Spec) {
    Fetchable(w, spec.source) && w.sources[spec.source].name == spec.expected
  }

  ghost predicate Available(w: World, deps: seq<(nat, Spec)>) {
    forall i :: 0 <= i < |deps| ==> Sound(w, deps[i].1)
  }

  /** The locked dependencies: each alias with the package its source holds. */
  ghost function DependencyIds(w: World, deps: seq<(nat, Spec)>): map<nat, PackageId>
    requires Available(w, deps)
    decreases |deps|
  {
    if deps == [] then map[]
    else
      var (alias, spec) := deps[|deps| - 1];
      DependencyIds(w, deps[..|deps| - 1])[alias := GitPackage(spec.expected, spec.source)]
  }

  /** `package` records its manifest, with every dependency resolved to the
      package of the expected name. */
  ghost predicate Locks(w: World, id: PackageId, package: LockedPackage) {
    match ManifestAt(w, id)
    case None => false
    case Some(m) =>
      && Available(w, m.dependencies)
      && package == LockedPackage(id, m.name, SourceOf(id), DependencyIds(w, m.dependencies))
  }

  // The resolver's state

  class ResolveState {
    var packages: map<PackageId, LockedPackage>
    var visiting: set<PackageId>
    ghost var order: seq<PackageId>

    constructor ()
      ensures packages == map[] && visiting == {} && order == []
    {
      packages, visiting, order := map[], {}, [];
    }

    /** Record a package; `order` lists packages as they were first recorded. */
    method Insert(package: LockedPackage)
      modifies this
      ensures packages == old(packages)[package.id := package] && visiting == old(visiting)
      ensures order == if package.id in old(packages) then old(order) else old(order) + [package.id]
    {
      if package.id !in packages {
        order := order + [package.id];
      }
      packages := packages[package.id := package];
    }
  }

  /** The packages recorded so far: reachable from the root, correct, and each
      recorded after everything it needs. */
  ghost predicate Recorded(w: World, root: PackageId, packages: map<PackageId, LockedPackage>, order: seq<PackageId>) {
    && (forall i, j :: 0 <= i < j < |order| ==> order[i] != order[j])
    && (forall id :: id in packages <==> id in order)
    && (forall id :: id in packages ==> Locks(w, id, packages[id]) && Reaches(w, root, id))
    && (forall k, b :: 0 <= k < |order| && Needs(w, order[k], b) ==> b in order[..k])
  }

  /** The packages being visited lead to `current`. */
  ghost predicate Leads(w: World, visiting: set<PackageId>, current: PackageId) {
    visiting <= Universe(w) && forall v :: v in visiting ==> Reaches(w, v, current)
  }

  lemma LeadsOn(w: World, visiting: set<PackageId>, a: PackageId, b: PackageId)
    requires Leads(w, visiting, a) && Needs(w, a, b)
    ensures Leads(w, visiting, b)
  {
    forall v | v in visiting
      ensures Reaches(w, v, b)
    {
      ReachesNext(w, v, a, b);
    }
  }

  /** What a reported error means. */
  ghost predicate Justified(w: World, root: PackageId, e: LockError) {
    match e
    case DependencyCycle(package) => OnCycle(w, package) && Reaches(w, root, package)
    case NameMismatch(parent, alias, expected, actual) =>
      && Reaches(w, root, parent) && ManifestAt(w, parent).Some? && expected != actual
      && exists i :: var deps := ManifestAt(w, parent).value.dependencies;
                     0 <= i < |deps| && deps[i].0 == alias && deps[i].1.expected == expected
                     && deps[i].1.source in w.sources && w.sources[deps[i].1.source].name == actual
    case Unavailable(source) =>
      && !Fetchable(w, source)
      && exists parent :: Reaches(w, root, parent) && DependsOnSource(w, parent, source)
  }

  /** A dependency of `parent` names the source. */
  ghost predicate DependsOnSource(w: World, parent: PackageId, source: nat) {
    && ManifestAt(w, parent).Some?
    && exists i :: var deps := ManifestAt(w, parent).value.dependencies;
                   0 <= i < |deps| && deps[i].1.source == source
  }

  lemma SuppliedNeeded(w: World, a: PackageId, i: nat, b: PackageId)
    requires ManifestAt(w, a).Some? && i < |ManifestAt(w, a).value.dependencies|
    requires Supplies(w, ManifestAt(w, a).value.dependencies[i].1, b)
    ensures Needs(w, a, b) && b in Universe(w) && ManifestAt(w, b) == Some(w.sources[b.source])
  {
  }

  /** Every package that leads here is on a cycle through a package it meets
      again. */
  lemma MeetsAgain(w: World, root: PackageId, visiting: set<PackageId>, parent: PackageId, id: PackageId)
    requires Leads(w, visiting, parent) && Needs(w, parent, id) && id in visiting && Reaches(w, root, parent)
    ensures OnCycle(w, id) && Reaches(w, root, id)
  {
    ReachesNext(w, root, parent, id);
    var p :| NeedsPath(w, p) && p[0] == id && p[|p| - 1] == parent;
    if |p| == 1 {
      ReachesSelf(w, id);
    } else {
      assert Needs(w, p[0], p[1]);
      var q := p[1..] + [id];
      assert NeedsPath(w, q) && q[0] == p[1];
    }
  }

  /** Recording a package whose needs are recorded keeps the record. */
  lemma RecordKeeps(w: World, root: PackageId, packages: map<PackageId, LockedPackage>, order: seq<PackageId>,
                    package: LockedPackage)
    requires Recorded(w, root, packages, order)
    requires Locks(w, package.id, package) && Reaches(w, root, package.id)
    requires forall b :: Needs(w, package.id, b) ==> b in packages
    ensures Recorded(w, root, packages[package.id := package],
                     if package.id in packages then order else order + [package.id])
  {
    hide Locks, Reaches, Needs;
    var id := package.id;
    if id !in packages {
      var more := order + [id];
      forall k, b | 0 <= k < |more| && Needs(w, more[k], b)
        ensures b in more[..k]
      {
        if k < |order| {
          assert more[..k] == order[..k] && more[k] == order[k];
        } else {
          assert more[..k] == order;
        }
      }
    }
  }

  lemma RecordedNeeds(w: World, root: PackageId, packages: map<PackageId, LockedPackage>, order: seq<PackageId>,
                      id: PackageId)
    requires Recorded(w, root, packages, order) && id in packages
    ensures Locks(w, id, packages[id]) && forall b :: Needs(w, id, b) ==> b in packages
  {
    hide Locks, Reaches, Needs;
    var k :| 0 <= k < |order| && order[k] == id;
    forall b | Needs(w, id, b)
      ensures b in packages
    {
      assert b in order[..k];
    }
  }

  /** The needs of a package are those of its manifest's entries. */
  lemma NeedsListed(w: World, id: PackageId, m: Manifest, packages: map<PackageId, LockedPackage>)
    requires ManifestAt(w, id) == Some(m) && Available(w, m.dependencies)
    requires forall i :: 0 <= i < |m.dependencies| ==>
               GitPackage(m.dependencies[i].1.expected, m.dependencies[i].1.source) in packages
    ensures forall b :: Needs(w, id, b) ==> b in packages
  {
  }

  // The walk without memory

  /** The error of resolving a package when nothing is remembered: depth first,
      dependencies in order. */
  ghost function PlainPackage(w: World, visiting: set<PackageId>, id: PackageId): Option<LockError>
    requires id in Universe(w)
    decreases |Universe(w) - visiting|, 0, 0
  {
    if id in visiting then Some(DependencyCycle(id))
    else
      match ManifestAt(w, id)
      case None => None
      case Some(manifest) =>
        SmallerUniverse(Universe(w), visiting, id);
        PlainDependencies(w, visiting + {id}, id, manifest.dependencies)
  }

  ghost function PlainDependencies(w: World, visiting: set<PackageId>, parent: PackageId, deps: seq<(nat, Spec)>)
    : Option<LockError>
    decreases |Universe(w) - visiting|, 1, |deps|
  {
    if deps == [] then None
    else
      match PlainDependency(w, visiting, parent, deps[0].0, deps[0].1)
      case Some(error) => Some(error)
      case None => PlainDependencies(w, visiting, parent, deps[1..])
  }

  ghost function PlainDependency(w: World, visiting: set<PackageId>, parent: PackageId, alias: nat, spec: Spec)
    : Option<LockError>
    decreases |Universe(w) - visiting|, 1, 0
  {
    if !Fetchable(w, spec.source) then Some(Unavailable(spec.source))
    else if w.sources[spec.source].name != spec.expected then
      Some(NameMismatch(parent, alias, spec.expected, w.sources[spec.source].name))
    else PlainPackage(w, visiting, GitPackage(spec.expected, spec.source))
  }

  lemma SmallerUniverse(all: set<PackageId>, visiting: set<PackageId>, id: PackageId)
    requires id in all && id !in visiting
    ensures |all - (visiting + {id})| < |all - visiting|
  {
    assert all - visiting == (all - (visiting + {id})) + {id};
  }

  /** A recorded package is resolved again without error, unless it or what was
      recorded before it is being visited: remembering it changes nothing. */
  lemma {:induction false} RecordedPlain(w: World, root: PackageId, packages: map<PackageId, LockedPackage>,
                                         order: seq<PackageId>, visiting: set<PackageId>, k: nat)
    requires Recorded(w, root, packages, order) && k < |order| && order[k] in Universe(w)
    requires forall i :: 0 <= i <= k ==> order[i] !in visiting
    ensures PlainPackage(w, visiting, order[k]) == None
    decreases k, 0
  {
    hide Needs, Reaches, Universe, DependencyIds, PlainDependencies;
    var id := order[k];
    assert Locks(w, id, packages[id]);
    var deps := ManifestAt(w, id).value.dependencies;
    assert deps[0..] == deps;
    RecordedPlainFrom(w, root, packages, order, visiting + {id}, k, 0);
  }

  lemma {:induction false} RecordedPlainFrom(w: World, root: PackageId, packages: map<PackageId, LockedPackage>,
                                             order: seq<PackageId>, visiting: set<PackageId>, k: nat, i: nat)
    requires Recorded(w, root, packages, order) && k < |order| && Locks(w, order[k], packages[order[k]])
    requires forall j :: 0 <= j < k ==> order[j] !in visiting
    requires i <= |ManifestAt(w, order[k]).value.dependencies|
    ensures PlainDependencies(w, visiting, order[k], ManifestAt(w, order[k]).value.dependencies[i..]) == None
    decreases k - 1, |ManifestAt(w, order[k]).value.dependencies| - i + 1
  {
    hide Reaches, DependencyIds, PlainPackage;
    var deps := ManifestAt(w, order[k]).value.dependencies;
    if i < |deps| {
      var (alias, spec) := deps[i];
      var id := GitPackage(spec.expected, spec.source);
      SuppliedNeeded(w, order[k], i, id);
      assert id in order[..k];
      var j :| 0 <= j < k && order[j] == id;
      RecordedPlain(w, root, packages, order, visiting, j);
      RecordedPlainFrom(w, root, packages, order, visiting, k, i + 1);
      assert deps[i..][0] == deps[i] && deps[i..][1..] == deps[i + 1..];
    }
  }

  function Failure<T>(r: Result<T, LockError>): Option<LockError> {
    match r
    case Ok(_) => None
    case Err(error) => Some(error)
  }

  lemma RecordedAgain(w: World, root: PackageId, packages: map<PackageId, LockedPackage>, order: seq<PackageId>,
                      visiting: set<PackageId>, id: PackageId)
    requires Recorded(w, root, packages, order) && id in packages && id in Universe(w) && visiting !! packages.Keys
    ensures PlainPackage(w, visiting, id) == None
  {
    hide Locks, Needs, Reaches, Universe, PlainPackage;
    var k :| 0 <= k < |order| && order[k] == id;
    assert forall i :: 0 <= i < |order| ==> order[i] in packages.Keys;
    RecordedPlain(w, root, packages, order, visiting, k);
  }

  lemma PlainEnter(w: World, visiting: set<PackageId>, id: PackageId)
    requires id in Universe(w)
    ensures id in visiting ==> PlainPackage(w, visiting, id) == Some(DependencyCycle(id))
    ensures id !in visiting && ManifestAt(w, id).Some? ==>
      PlainPackage(w, visiting, id)
      == PlainDependencies(w, visiting + {id}, id, ManifestAt(w, id).value.dependencies)
  {
    hide Universe, PlainDependencies;
  }

  lemma PlainNext(w: World, visiting: set<PackageId>, parent: PackageId, deps: seq<(nat, Spec)>, i: nat)
    requires i < |deps|
    ensures PlainDependencies(w, visiting, parent, deps[i..]) ==
            var error := PlainDependency(w, visiting, parent, deps[i].0, deps[i].1);
            if error.Some? then error else PlainDependencies(w, visiting, parent, deps[i + 1..])
  {
    hide PlainDependency;
    assert deps[i..][1..] == deps[i + 1..];
  }

  lemma PlainEnd(w: World, visiting: set<PackageId>, parent: PackageId)
    ensures PlainDependencies(w, visiting, parent, []) == None
  {
  }

  class LockResolver {
    const world: World

    constructor (w: World)
      ensures world == w
    {
      world := w;
    }

    /** Fetch or reuse the checkout of a source. */
    method Materialize(source: nat) returns (r: Result<Manifest, LockError>)
      ensures if Fetchable(world, source) then r == Ok(world.sources[source]) else r == Err(Unavailable(source))
    {
      if Fetchable(world, source) {
        r := Ok(world.sources[source]);
      } else {
        r := Err(Unavailable(source));
      }
    }

    method ResolvePackage(id: PackageId, manifest: Manifest, source: PackageSource, state: ResolveState,
                          ghost root: PackageId, ghost parent: Option<PackageId>)
      returns (r: Result<LockedPackage, LockError>)
      requires ManifestAt(world, id) == Some(manifest) && source == SourceOf(id) && id in Universe(world)
      requires Reaches(world, root, id) && Recorded(world, root, state.packages, state.order)
      requires match parent
               case None => state.visiting == {}
               case Some(p) => Leads(world, state.visiting, p) && Needs(world, p, id) && Reaches(world, root, p)
      requires state.visiting !! state.packages.Keys
      modifies state
      ensures match r
              case Ok(package) =>
                && Locks(world, id, package) && Recorded(world, root, state.packages, state.order)
                && (forall b :: Needs(world, id, b) ==> b in state.packages)
                && state.visiting == old(state.visiting) && old(state.packages.Keys) <= state.packages.Keys
                && state.visiting !! state.packages.Keys + {id}
              case Err(error) => Justified(world, root, error)
      ensures PlainPackage(world, old(state.visiting), id) == Failure(r)
      decreases |Universe(world) - state.visiting|, 0
    {
      hide Recorded, Locks, Needs, Reaches, Leads, Universe, Justified, Available, PlainPackage, PlainDependencies;
      if id in state.packages {
        RecordedNeeds(world, root, state.packages, state.order, id);
        RecordedAgain(world, root, state.packages, state.order, state.visiting, id);
        return Ok(state.packages[id]);
      }
      if id in state.visiting {
        CycleFound(world, root, state.visiting, parent, id);
        PlainEnter(world, state.visiting, id);
        return Err(DependencyCycle(id));
      }
      ghost var outer := state.visiting;
      EnterVisit(world, outer, parent, id);
      PlainEnter(world, outer, id);
      state.visiting := state.visiting + {id};
      var dependencies: map<nat, PackageId> := map[];
      NothingNeeded(world);
      assert manifest.dependencies[0..] == manifest.dependencies;
      for i := 0 to |manifest.dependencies|
        invariant Available(world, manifest.dependencies[..i])
        invariant dependencies == DependencyIds(world, manifest.dependencies[..i])
        invariant Recorded(world, root, state.packages, state.order)
        invariant forall j :: 0 <= j < i ==>
                    GitPackage(manifest.dependencies[j].1.expected, manifest.dependencies[j].1.source) in state.packages
        invariant state.visiting == outer + {id} && old(state.packages.Keys) <= state.packages.Keys
        invariant state.visiting !! state.packages.Keys
        invariant PlainDependencies(world, outer + {id}, id, manifest.dependencies[i..])
                  == PlainPackage(world, outer, id)
      {
        var (alias, spec) := manifest.dependencies[i];
        PlainNext(world, state.visiting, id, manifest.dependencies, i);
        var dep := ResolveDependency(id, alias, spec, state, root, i);
        if dep.Err? {
          return Err(dep.error);
        }
        OneMoreAvailable(world, manifest.dependencies, i);
        dependencies := dependencies[alias := dep.value];
      }
      assert manifest.dependencies[..|manifest.dependencies|] == manifest.dependencies;
      assert manifest.dependencies[|manifest.dependencies|..] == [];
      PlainEnd(world, state.visiting, id);
      state.visiting := state.visiting - {id};
      NeedsListed(world, id, manifest, state.packages);
      r := Ok(LockedPackage(id, manifest.name, source, dependencies));
      LocksIt(world, id, manifest, r.value);
    }

    method ResolveDependency(parent: PackageId, alias: nat, spec: Spec, state: ResolveState, ghost root: PackageId,
                             ghost i: nat)
      returns (r: Result<PackageId, LockError>)
      requires ManifestAt(world, parent).Some? && i < |ManifestAt(world, parent).value.dependencies|
      requires ManifestAt(world, parent).value.dependencies[i] == (alias, spec)
      requires Leads(world, state.visiting, parent) && Reaches(world, root, parent)
      requires Recorded(world, root, state.packages, state.order) && state.visiting !! state.packages.Keys
      modifies state
      ensures match r
              case Ok(id) =>
                && Fetchable(world, spec.source) && world.sources[spec.source].name == spec.expected
                && id == GitPackage(spec.expected, spec.source) && id in state.packages
                && Recorded(world, root, state.packages, state.order)
                && state.visiting == old(state.visiting) && old(state.packages.Keys) <= state.packages.Keys
                && state.visiting !! state.packages.Keys
              case Err(error) => Justified(world, root, error)
      ensures PlainDependency(world, old(state.visiting), parent, alias, spec) == Failure(r)
      decreases |Universe(world) - state.visiting|, 1
    {
      hide Recorded, Locks, Needs, Reaches, Leads, Universe, PlainPackage;
      var materialized := Materialize(spec.source);
      if materialized.Err? {
        assert DependsOnSource(world, parent, spec.source);
        return Err(materialized.error);
      }
      var manifest := materialized.value;
      if manifest.name != spec.expected {
        return Err(NameMismatch(parent, alias, spec.expected, manifest.name));
      }
      var id := GitPackage(manifest.name, spec.source);
      SuppliedNeeded(world, parent, i, id);
      ReachesNext(world, root, parent, id);
      var package := ResolvePackage(id, manifest, GitSource(spec.source), state, root, Some(parent));
      if package.Err? {
        return Err(package.error);
      }
      LockedId(world, id, package.value);
      RecordKeeps(world, root, state.packages, state.order, package.value);
      state.Insert(package.value);
      r := Ok(id);
    }

    /** Resolve the root and everything it needs. */
    method ResolveRoot() returns (r: Result<map<PackageId, LockedPackage>, LockError>)
      ensures match r
              case Ok(packages) =>
                LockedExactly(world, packages) && forall id :: id in packages ==> Says(world, id, packages[id])
              case Err(error) => Justified(world, RootPackage(world.root.name), error)
      ensures r.Ok? <==> Resolvable(world)
      ensures PlainPackage(world, {}, RootPackage(world.root.name)) == Failure(r)
    {
      hide PlainPackage, Recorded, Locks, Needs, Reaches, Universe, Justified, LockedExactly, Says, Resolvable;
      var root := RootPackage(world.root.name);
      var state := new ResolveState();
      StartRecord(world);
      var package := ResolvePackage(root, world.root, RootSource, state, root, None);
      if package.Err? {
        FailsUnresolvable(world, package.error);
        return Err(package.error);
      }
      LockedId(world, root, package.value);
      RecordKeeps(world, root, state.packages, state.order, package.value);
      state.Insert(package.value);
      assert state.visiting == {};
      RecordedExactly(world, state.packages, state.order);
      LockedResolvable(world, state.packages);
      LockedSays(world, state.packages);
      r := Ok(state.packages);
    }
  }

  /** `order` lists the packages, each after everything it needs. */
  ghost predicate NeedsFirst(w: World, packages: map<PackageId, LockedPackage>, order: seq<PackageId>) {
    && (forall i, j :: 0 <= i < j < |order| ==> order[i] != order[j])
    && (forall id :: id in packages <==> id in order)
    && (forall k, b :: 0 <= k < |order| && Needs(w, order[k], b) ==> b in order[..k])
  }

  /** Exactly the packages that the root reaches, each as its manifest says,
      and listable with needs first. */
  ghost predicate LockedExactly(w: World, packages: map<PackageId, LockedPackage>) {
    && (forall id :: id in packages <==> Reaches(w, RootPackage(w.root.name), id))
    && (forall id :: id in packages ==> Locks(w, id, packages[id]))
    && exists order :: NeedsFirst(w, packages, order)
  }

  lemma StartRecord(w: World)
    ensures var root := RootPackage(w.root.name);
            Recorded(w, root, map[], []) && Reaches(w, root, root) && root in Universe(w)
  {
    ReachesSelf(w, RootPackage(w.root.name));
  }

  lemma RecordedExactly(w: World, packages: map<PackageId, LockedPackage>, order: seq<PackageId>)
    requires var root := RootPackage(w.root.name); Recorded(w, root, packages, order) && root in packages
    ensures LockedExactly(w, packages)
  {
    hide Locks, Needs, Reaches;
    assert NeedsFirst(w, packages, order);
    var root := RootPackage(w.root.name);
    forall x, y | x in packages.Keys && Needs(w, x, y)
      ensures y in packages.Keys
    {
      RecordedNeeds(w, root, packages, order, x);
    }
    forall id | Reaches(w, root, id)
      ensures id in packages
    {
      ReachesClosed(w, packages.Keys, root, id);
    }
  }

  /** A lock exists only for an acyclic dependency relation. */
  lemma LockedAcyclic(w: World, packages: map<PackageId, LockedPackage>, id: PackageId)
    requires LockedExactly(w, packages) && Reaches(w, RootPackage(w.root.name), id)
    ensures !OnCycle(w, id)
  {
    hide Locks, Needs, Reaches;
    assert id in packages;
    var order :| NeedsFirst(w, packages, order);
    var k :| 0 <= k < |order| && order[k] == id;
    if OnCycle(w, id) {
      var b :| Needs(w, id, b) && Reaches(w, b, id);
      PrefixReached(w, order, k, b, id);
    }
  }

  lemma PrefixReached(w: World, order: seq<PackageId>, k: nat, a: PackageId, b: PackageId)
    requires forall i, j :: 0 <= i < j < |order| ==> order[i] != order[j]
    requires forall i, c :: 0 <= i < |order| && Needs(w, order[i], c) ==> c in order[..i]
    requires k < |order| && a in order[..k] && Reaches(w, a, b)
    ensures b != order[k]
  {
    hide Needs, Reaches;
    var s := set x | x in order[..k];
    forall x, y | x in s && Needs(w, x, y)
      ensures y in s
    {
      var i :| 0 <= i < k && order[i] == x;
      assert y in order[..i];
      assert order[..i] <= order[..k];
    }
    ReachesClosed(w, s, a, b);
  }

  /** What a locked package says, entry by entry: of entries with the same alias
      the last one counts. */
  ghost predicate Says(w: World, id: PackageId, package: LockedPackage) {
    && package.id == id && ManifestAt(w, id).Some? && package.name == ManifestAt(w, id).value.name
    && package.source == (match id case RootPackage(_) => RootSource case GitPackage(_, source) => GitSource(source))
    && SaysDependencies(ManifestAt(w, id).value.dependencies, package.dependencies)
  }

  ghost predicate SaysDependencies(deps: seq<(nat, Spec)>, locked: map<nat, PackageId>) {
    && (forall alias: nat :: alias in locked ==> exists i :: 0 <= i < |deps| && deps[i].0 == alias)
    && (forall i :: 0 <= i < |deps| ==> deps[i].0 in locked)
    && (forall i :: 0 <= i < |deps| && (forall j :: i < j < |deps| ==> deps[j].0 != deps[i].0) ==>
          locked[deps[i].0] == GitPackage(deps[i].1.expected, deps[i].1.source))
  }

  lemma {:induction false} IdsSay(w: World, deps: seq<(nat, Spec)>)
    requires Available(w, deps)
    ensures SaysDependencies(deps, DependencyIds(w, deps))
    decreases |deps|
  {
    hide SaysDependencies;
    if deps == [] {
      NothingSaid();
    } else {
      var last := |deps| - 1;
      IdsSay(w, deps[..last]);
      OneMoreSaid(deps[..last], DependencyIds(w, deps[..last]), deps[last].0, deps[last].1);
      assert deps == deps[..last] + [(deps[last].0, deps[last].1)];
    }
  }

  lemma NothingSaid()
    ensures SaysDependencies([], map[])
  {
  }

  lemma OneMoreSaid(deps: seq<(nat, Spec)>, locked: map<nat, PackageId>, alias: nat, spec: Spec)
    requires SaysDependencies(deps, locked)
    ensures SaysDependencies(deps + [(alias, spec)], locked[alias := GitPackage(spec.expected, spec.source)])
  {
    var more, all := deps + [(alias, spec)], locked[alias := GitPackage(spec.expected, spec.source)];
    forall a: nat | a in all
      ensures exists i :: 0 <= i < |more| && more[i].0 == a
    {
      if a == alias {
        assert more[|deps|].0 == a;
      } else {
        var i :| 0 <= i < |deps| && deps[i].0 == a;
        assert more[i].0 == a;
      }
    }
    forall i | 0 <= i < |more| && (forall j :: i < j < |more| ==> more[j].0 != more[i].0)
      ensures more[i].0 in all && all[more[i].0] == GitPackage(more[i].1.expected, more[i].1.source)
    {
      if i < |deps| {
        assert more[|deps|].0 != more[i].0;
        assert forall j :: i < j < |deps| ==> more[j] == deps[j];
      }
    }
  }

  lemma LockedSays(w: World, packages: map<PackageId, LockedPackage>)
    requires LockedExactly(w, packages)
    ensures forall id :: id in packages ==> Says(w, id, packages[id])
  {
    hide Reaches, Available, DependencyIds, NeedsFirst, SaysDependencies;
    forall id | id in packages
      ensures Says(w, id, packages[id])
    {
      assert Locks(w, id, packages[id]);
      IdsSay(w, ManifestAt(w, id).value.dependencies);
    }
  }

  /** Every package that the root reaches lies on no cycle, and each of its
      dependencies can be fetched and carries the expected name. */
  ghost predicate Resolvable(w: World) {
    var root := RootPackage(w.root.name);
    && (forall id :: Reaches(w, root, id) ==> !OnCycle(w, id))
    && (forall id, i :: Reaches(w, root, id) && DependencyAt(w, id, i) ==>
          Sound(w, ManifestAt(w, id).value.dependencies[i].1))
  }

  ghost predicate DependencyAt(w: World, id: PackageId, i: int) {
    ManifestAt(w, id).Some? && 0 <= i < |ManifestAt(w, id).value.dependencies|
  }

  /** Every reported error is a reason why there is no lock. */
  lemma FailsUnresolvable(w: World, e: LockError)
    requires Justified(w, RootPackage(w.root.name), e)
    ensures !Resolvable(w)
  {
    hide Reaches, OnCycle, ManifestAt;
    var root := RootPackage(w.root.name);
    match e
    case DependencyCycle(package) =>
    case NameMismatch(parent, alias, expected, actual) =>
      var deps := ManifestAt(w, parent).value.dependencies;
      var i :| 0 <= i < |deps| && deps[i].0 == alias && deps[i].1.expected == expected
               && deps[i].1.source in w.sources && w.sources[deps[i].1.source].name == actual;
      assert DependencyAt(w, parent, i) && !Sound(w, deps[i].1);
    case Unavailable(source) =>
      var parent :| Reaches(w, root, parent) && DependsOnSource(w, parent, source);
      var deps := ManifestAt(w, parent).value.dependencies;
      var i :| 0 <= i < |deps| && deps[i].1.source == source;
      assert DependencyAt(w, parent, i) && !Sound(w, deps[i].1);
  }

  /** A lock exists only when nothing stands against it. */
  lemma LockedResolvable(w: World, packages: map<PackageId, LockedPackage>)
    requires LockedExactly(w, packages)
    ensures Resolvable(w)
  {
    hide Reaches, OnCycle, ManifestAt, NeedsFirst, DependencyIds;
    var root := RootPackage(w.root.name);
    forall id | Reaches(w, root, id)
      ensures !OnCycle(w, id)
    {
      LockedAcyclic(w, packages, id);
    }
    forall id, i | Reaches(w, root, id) && DependencyAt(w, id, i)
      ensures Sound(w, ManifestAt(w, id).value.dependencies[i].1)
    {
      assert id in packages && Locks(w, id, packages[id]);
    }
  }

  /** When the dependencies that the root reaches are acyclic and carry the
      expected names, nothing but a failing fetch is reported. */
  lemma OnlyFetchFails(w: World, e: LockError)
    requires var root := RootPackage(w.root.name);
             && Justified(w, root, e)
             && (forall id :: Reaches(w, root, id) ==> !OnCycle(w, id))
             && (forall id, i ::
                 Reaches(w, root, id) && ManifestAt(w, id).Some? && 0 <= i < |ManifestAt(w, id).value.dependencies| ==>
                   var spec := ManifestAt(w, id).value.dependencies[i].1;
                   spec.source in w.sources ==> w.sources[spec.source].name == spec.expected)
    ensures e.Unavailable?
  {
    hide Needs, Reaches, OnCycle;
  }

  lemma LockedId(w: World, id: PackageId, package: LockedPackage)
    requires Locks(w, id, package)
    ensures package.id == id
  {
  }

  lemma CycleFound(w: World, root: PackageId, visiting: set<PackageId>, parent: Option<PackageId>, id: PackageId)
    requires id in visiting
    requires match parent
             case None => visiting == {}
             case Some(p) => Leads(w, visiting, p) && Needs(w, p, id) && Reaches(w, root, p)
    ensures Justified(w, root, DependencyCycle(id))
  {
    hide Leads, Needs, Reaches, OnCycle;
    if parent.Some? {
      MeetsAgain(w, root, visiting, parent.value, id);
    }
  }

  lemma EnterVisit(w: World, visiting: set<PackageId>, parent: Option<PackageId>, id: PackageId)
    requires id !in visiting && id in Universe(w)
    requires match parent
             case None => visiting == {}
             case Some(p) => Leads(w, visiting, p) && Needs(w, p, id)
    ensures Leads(w, visiting + {id}, id)
    ensures |Universe(w) - (visiting + {id})| < |Universe(w) - visiting|
  {
    hide Universe, Needs, Reaches;
    ReachesSelf(w, id);
    if parent.Some? {
      LeadsOn(w, visiting, parent.value, id);
    }
    var before, after := Universe(w) - visiting, Universe(w) - (visiting + {id});
    assert id in before && before == after + {id};
  }

  lemma NothingNeeded(w: World)
    ensures Available(w, []) && DependencyIds(w, []) == map[]
  {
  }

  lemma OneMoreAvailable(w: World, deps: seq<(nat, Spec)>, i: nat)
    requires i < |deps| && Available(w, deps[..i])
    requires Sound(w, deps[i].1)
    ensures Available(w, deps[..i + 1])
    ensures DependencyIds(w, deps[..i + 1]) ==
            DependencyIds(w, deps[..i])[deps[i].0 := GitPackage(deps[i].1.expected, deps[i].1.source)]
  {
    assert deps[..i + 1][..i] == deps[..i];
    assert deps[..i + 1][i] == deps[i];
  }

  lemma LocksIt(w: World, id: PackageId, m: Manifest, package: LockedPackage)
    requires ManifestAt(w, id) == Some(m) && Available(w, m.dependencies)
    requires package == LockedPackage(id, m.name, SourceOf(id), DependencyIds(w, m.dependencies))
    ensures Locks(w, id, package)
  {
  }
}
