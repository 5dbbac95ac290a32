/** The bounded worklist traversal that collects the `.gcl` files of a source
    directory. A path is the sequence of names below the root; names are
    numbered in their order. */
module SourceTraversal {
  import opened Outcomes
  import opened Sorting
  import opened IngestionBudget

  type Path = seq<nat>

  /** A directory lists its entries in whatever order the file system does. */
  datatype Node = Directory(children: seq<(nat, Node)>) | File(gcl: bool) | Unsupported

  datatype Kind = DirectoryEntry | GclEntry | OtherFile | UnsupportedEntry

  datatype TraversalError = EntryLimitExceeded(path: Path) | UnsupportedSource(path: Path)

  function KindOf(node: Node): Kind {
    match node
    case Directory(_) => DirectoryEntry
    case File(gcl) => if gcl then GclEntry else OtherFile
    case Unsupported => UnsupportedEntry
  }

  // The file system

  function Child(children: seq<(nat, Node)>, name: nat): Option<Node> {
    if children == [] then None
    else if children[0].0 == name then Some(children[0].1)
    else Child(children[1..], name)
  }

  function Lookup(node: Node, path: Path): Option<Node>
    decreases |path|
  {
    if path == [] then Some(node)
    else if !node.Directory? then None
    else
      match Child(node.children, path[0])
      case None => None
      case Some(child) => Lookup(child, path[1..])
  }

  /** No directory lists a name twice. */
  ghost predicate WfTree(node: Node)
    decreases node
  {
    node.Directory? ==>
      && (forall i, j :: 0 <= i < j < |node.children| ==> node.children[i].0 != node.children[j].0)
      && (forall i :: 0 <= i < |node.children| ==> WfTree(node.children[i].1))
  }

  function Names(children: seq<(nat, Node)>): (names: seq<nat>)
    ensures |names| == |children| && forall i :: 0 <= i < |names| ==> names[i] == children[i].0
  {
    seq(|children|, i requires 0 <= i < |children| => children[i].0)
  }

  // All entries of a tree

  /** Every entry below the first `n` children, with its kind. */
  ghost function Entries(path: Path, node: Node, n: nat): multiset<(Path, Kind)>
    requires node.Directory? ==> n <= |node.children|
    decreases node, n
  {
    if !node.Directory? || n == 0 then multiset{}
    else
      var (name, child) := node.children[n - 1];
      Entries(path, node, n - 1) + multiset{(path + [name], KindOf(child))} + AllEntries(path + [name], child)
  }

  ghost function AllEntries(path: Path, node: Node): multiset<(Path, Kind)>
    decreases node, if node.Directory? then |node.children| + 1 else 1
  {
    Entries(path, node, if node.Directory? then |node.children| else 0)
  }

  /** The entries at and below `path`, which names a child of a directory. */
  ghost function EntriesAt(root: Node, path: Path): multiset<(Path, Kind)> {
    match Lookup(root, path)
    case None => multiset{}
    case Some(node) => multiset{(path, KindOf(node))} + AllEntries(path, node)
  }

  ghost function EntriesOver(root: Node, path: Path, names: seq<nat>): multiset<(Path, Kind)>
    decreases |names|
  {
    if names == [] then multiset{}
    else EntriesOver(root, path, names[..|names| - 1]) + EntriesAt(root, path + [names[|names| - 1]])
  }

  // Looking up children

  lemma {:induction false} LookupFurther(root: Node, path: Path, name: nat)
    requires Lookup(root, path).Some? && Lookup(root, path).value.Directory?
    ensures Lookup(root, path + [name]) == Child(Lookup(root, path).value.children, name)
    decreases |path|
  {
    var further := path + [name];
    if path == [] {
      assert further[1..] == [];
    } else {
      assert further[1..] == path[1..] + [name];
      LookupFurther(Child(root.children, path[0]).value, path[1..], name);
    }
  }

  lemma {:induction false} ChildAt(children: seq<(nat, Node)>, i: nat)
    requires forall i, j :: 0 <= i < j < |children| ==> children[i].0 != children[j].0
    requires i < |children|
    ensures Child(children, children[i].0) == Some(children[i].1)
    decreases |children|
  {
    if i > 0 {
      ChildAt(children[1..], i - 1);
    }
  }

  lemma {:induction false} ChildListed(children: seq<(nat, Node)>, name: nat) returns (i: nat)
    requires Child(children, name).Some?
    ensures i < |children| && children[i] == (name, Child(children, name).value)
    decreases |children|
  {
    if children[0].0 == name {
      i := 0;
    } else {
      i := ChildListed(children[1..], name);
      i := i + 1;
    }
  }

  lemma {:induction false} LookupWf(node: Node, path: Path)
    requires WfTree(node) && Lookup(node, path).Some?
    ensures WfTree(Lookup(node, path).value)
    decreases |path|
  {
    if path != [] {
      var i := ChildListed(node.children, path[0]);
      LookupWf(node.children[i].1, path[1..]);
    }
  }

  /** Going over the names of a directory meets its entries. */
  lemma EntriesAtChild(root: Node, path: Path, node: Node, i: nat)
    requires WfTree(root) && Lookup(root, path) == Some(node) && node.Directory? && i < |node.children|
    ensures var (name, child) := node.children[i];
            EntriesAt(root, path + [name])
            == multiset{(path + [name], KindOf(child))} + AllEntries(path + [name], child)
  {
    hide AllEntries;
    LookupWf(root, path);
    LookupFurther(root, path, node.children[i].0);
    ChildAt(node.children, i);
  }

  lemma {:induction false} EntriesByName(root: Node, path: Path, node: Node, n: nat)
    requires WfTree(root) && Lookup(root, path) == Some(node) && node.Directory? && n <= |node.children|
    ensures EntriesOver(root, path, Names(node.children)[..n]) == Entries(path, node, n)
    decreases n
  {
    hide WfTree, Lookup, AllEntries, EntriesAt;
    if n > 0 {
      var names := Names(node.children);
      EntriesByName(root, path, node, n - 1);
      EntriesAtChild(root, path, node, n - 1);
      assert names[..n][..n - 1] == names[..n - 1];
    }
  }

  lemma {:induction false} EntriesOverRemove(root: Node, path: Path, names: seq<nat>, i: nat)
    requires i < |names|
    ensures EntriesOver(root, path, names) ==
            EntriesOver(root, path, names[..i] + names[i + 1..]) + EntriesAt(root, path + [names[i]])
    decreases |names|
  {
    hide EntriesAt;
    var last := |names| - 1;
    if i == last {
      assert names[..i] + names[i + 1..] == names[..last];
    } else {
      var init, rest := names[..last], names[..i] + names[i + 1..];
      var fewer := init[..i] + init[i + 1..];
      EntriesOverRemove(root, path, init, i);
      LastStays(names, i);
      assert rest[..|rest| - 1] == fewer && rest[|rest| - 1] == names[last];
      Exchange(EntriesOver(root, path, fewer),
               EntriesAt(root, path + [names[i]]), EntriesAt(root, path + [names[last]]));
    }
  }

  lemma LastStays(names: seq<nat>, i: nat)
    requires i < |names| - 1
    ensures var last := |names| - 1;
            names[..i] + names[i + 1..] == names[..last][..i] + names[..last][i + 1..] + [names[last]]
  {
  }

  lemma Exchange<T>(r: multiset<T>, a: multiset<T>, b: multiset<T>)
    ensures r + a + b == r + b + a
  {
  }

  /** In any order. */
  lemma {:induction false} EntriesOverPermuted(root: Node, path: Path, xs: seq<nat>, ys: seq<nat>)
    requires multiset(xs) == multiset(ys)
    ensures EntriesOver(root, path, xs) == EntriesOver(root, path, ys)
    decreases |xs|
  {
    hide EntriesAt;
    if xs == [] {
      assert |multiset(ys)| == 0;
    } else {
      var last := |xs| - 1;
      var i := FindLast(xs, ys);
      RemoveOne(xs, last);
      RemoveOne(ys, i);
      assert xs[..last] + xs[last + 1..] == xs[..last];
      EntriesOverPermuted(root, path, xs[..last], ys[..i] + ys[i + 1..]);
      EntriesOverRemove(root, path, ys, i);
    }
  }

  // Path order

  predicate PathAtMost(a: Path, b: Path)
    decreases |a|
  {
    a == [] || (b != [] && (a[0] < b[0] || (a[0] == b[0] && PathAtMost(a[1..], b[1..]))))
  }

  lemma {:induction false} PathTotal(a: Path, b: Path)
    ensures PathAtMost(a, b) || PathAtMost(b, a)
    decreases |a|
  {
    if a != [] && b != [] && a[0] == b[0] {
      PathTotal(a[1..], b[1..]);
    }
  }

  lemma {:induction false} PathTransitive(a: Path, b: Path, c: Path)
    requires PathAtMost(a, b) && PathAtMost(b, c)
    ensures PathAtMost(a, c)
    decreases |a|
  {
    if a != [] && a[0] == b[0] == c[0] {
      PathTransitive(a[1..], b[1..], c[1..]);
    }
  }

  /** The first name that differs decides, and a path comes before what is below
      it. */
  lemma {:induction false} PathOrderExact(a: Path, b: Path)
    ensures PathAtMost(a, b) <==> a <= b || exists k: nat :: DiffersAt(a, b, k)
    decreases |a|
  {
    if a != [] && b != [] {
      assert a == [a[0]] + a[1..] && b == [b[0]] + b[1..];
      if a[0] == b[0] {
        PathOrderExact(a[1..], b[1..]);
        DiffersBelow(a, b);
      } else if a[0] < b[0] {
        assert DiffersAt(a, b, 0);
      }
    }
  }

  lemma DiffersBelow(a: Path, b: Path)
    requires a != [] && b != [] && a[0] == b[0]
    ensures (exists k: nat :: DiffersAt(a, b, k)) <==> exists k: nat :: DiffersAt(a[1..], b[1..], k)
  {
    if k: nat :| DiffersAt(a, b, k) {
      assert DiffersAt(a[1..], b[1..], k - 1);
    }
    if k: nat :| DiffersAt(a[1..], b[1..], k) {
      assert forall i :: 1 <= i < k + 1 ==> a[i] == a[1..][i - 1] && b[i] == b[1..][i - 1];
      assert DiffersAt(a, b, k + 1);
    }
  }

  ghost predicate DiffersAt(a: Path, b: Path, k: nat) {
    k < |a| && k < |b| && a[k] < b[k] && forall i :: 0 <= i < k ==> a[i] == b[i]
  }

  lemma PathOrdering()
    ensures Ordering(PathAtMost)
  {
    forall a, b
      ensures PathAtMost(a, b) || PathAtMost(b, a)
    {
      PathTotal(a, b);
    }
    forall a, b, c | PathAtMost(a, b) && PathAtMost(b, c)
      ensures PathAtMost(a, c)
    {
      PathTransitive(a, b, c);
    }
  }

  // The outcome without a worklist

  lemma ChildSmaller(node: Node, name: nat)
    requires node.Directory? && Child(node.children, name).Some?
    ensures Child(node.children, name).value < node
  {
    var i := ChildListed(node.children, name);
    assert node.children[i].1 < node;
  }

  /** Of the names, the last one whose entry is unsupported. */
  function LastUnsupported(children: seq<(nat, Node)>, names: seq<nat>): Option<nat>
    decreases |names|
  {
    if names == [] then None
    else
      var last := |names| - 1;
      if Child(children, names[last]) == Some(Unsupported) then Some(names[last])
      else LastUnsupported(children, names[..last])
  }

  /** Visit a tree with `left` entries left to charge: a directory that lists more
      is too large, its last unsupported entry is reported, and its
      subdirectories are visited by name. The answer is what is left. */
  function VisitTree(path: Path, node: Node, left: nat): Result<nat, TraversalError>
    decreases node, 1, 0
  {
    if !node.Directory? then Ok(left)
    else
      var names := Sort(Names(node.children), AtMost);
      if |names| > left then Err(EntryLimitExceeded(path))
      else
        match LastUnsupported(node.children, names)
        case Some(name) => Err(UnsupportedSource(path + [name]))
        case None => VisitNames(path, node, names, left - |names|)
  }

  function VisitNames(path: Path, node: Node, names: seq<nat>, left: nat): Result<nat, TraversalError>
    requires node.Directory?
    decreases node, 0, |names|
  {
    if names == [] then Ok(left)
    else
      match Child(node.children, names[0])
      case None => VisitNames(path, node, names[1..], left)
      case Some(child) =>
        ChildSmaller(node, names[0]);
        match VisitTree(path + [names[0]], child, left)
        case Err(error) => Err(error)
        case Ok(rest) => VisitNames(path, node, names[1..], rest)
  }

  /** Visit the pending directories, the last one first. */
  ghost function VisitPending(root: Node, pending: seq<Path>, left: nat): Result<nat, TraversalError>
    decreases |pending|
  {
    if pending == [] then Ok(left)
    else
      var path := pending[|pending| - 1];
      match Lookup(root, path)
      case None => VisitPending(root, pending[..|pending| - 1], left)
      case Some(node) =>
        match VisitTree(path, node, left)
        case Err(error) => Err(error)
        case Ok(rest) => VisitPending(root, pending[..|pending| - 1], rest)
  }

  ghost function Continue(root: Node, pending: seq<Path>, r: Result<nat, TraversalError>): Result<nat, TraversalError> {
    match r
    case Err(error) => Err(error)
    case Ok(left) => VisitPending(root, pending, left)
  }

  /** Making the subdirectories among `names` pending puts off their visits. */
  ghost predicate PutsOff(root: Node, before: seq<Path>, path: Path, node: Node, names: seq<nat>, pending: seq<Path>)
    requires node.Directory?
  {
    forall left: nat ::
      VisitPending(root, pending, left) == Continue(root, before, VisitNames(path, node, names, left))
  }

  lemma PutsOffNothing(root: Node, before: seq<Path>, path: Path, node: Node)
    requires node.Directory?
    ensures PutsOff(root, before, path, node, [], before)
  {
  }

  lemma PutsOffMore(root: Node, before: seq<Path>, path: Path, node: Node, names: seq<nat>, pending: seq<Path>,
                    name: nat, child: Node)
    requires node.Directory? && PutsOff(root, before, path, node, names, pending)
    requires Child(node.children, name) == Some(child) == Lookup(root, path + [name])
    ensures PutsOff(root, before, path, node, [name] + names,
                    if child.Directory? then pending + [path + [name]] else pending)
  {
    hide Lookup, Child, LastUnsupported, Sort;
    var more, listed := pending + [path + [name]], [name] + names;
    assert listed[1..] == names && more[..|pending|] == pending;
    forall left: nat
      ensures VisitNames(path, node, listed, left) ==
              match VisitTree(path + [name], child, left)
              case Err(error) => Err(error)
              case Ok(rest) => VisitNames(path, node, names, rest)
      ensures VisitPending(root, if child.Directory? then more else pending, left) ==
              Continue(root, before, VisitNames(path, node, listed, left))
    {
    }
  }

  lemma VisitLast(root: Node, before: seq<Path>, path: Path, node: Node, left: nat)
    requires Lookup(root, path) == Some(node)
    ensures VisitPending(root, before + [path], left) == Continue(root, before, VisitTree(path, node, left))
  {
    assert (before + [path])[..|before|] == before;
  }

  /** The same tree, whatever order its directories are listed in. */
  ghost predicate SameTree(a: Node, b: Node)
    decreases a, 1
  {
    if a.Directory? && b.Directory? then
      && multiset(Names(a.children)) == multiset(Names(b.children))
      && forall name :: SameChild(a, b, name)
    else a == b
  }

  ghost predicate SameChild(a: Node, b: Node, name: nat)
    requires a.Directory? && b.Directory?
    decreases a, 0
  {
    match (Child(a.children, name), Child(b.children, name))
    case (Some(x), Some(y)) =>
      ChildSmaller(a, name);
      SameTree(x, y)
    case (x, y) => x == y
  }

  lemma SameLastUnsupported(a: Node, b: Node, names: seq<nat>)
    requires a.Directory? && b.Directory? && forall name :: SameChild(a, b, name)
    ensures LastUnsupported(a.children, names) == LastUnsupported(b.children, names)
    decreases |names|
  {
    if names != [] {
      var name := names[|names| - 1];
      assert SameChild(a, b, name);
      var x, y := Child(a.children, name), Child(b.children, name);
      assert x.Some? && y.Some? ==> SameTree(x.value, y.value);
      SameLastUnsupported(a, b, names[..|names| - 1]);
    }
  }

  /** The outcome does not depend on the order of any listing. */
  lemma {:induction false} ListingsIrrelevant(path: Path, a: Node, b: Node, left: nat)
    requires SameTree(a, b)
    ensures VisitTree(path, a, left) == VisitTree(path, b, left)
    decreases a, 1, 0
  {
    hide LastUnsupported, SameChild, Child;
    if a.Directory? && b.Directory? {
      SameSorted(Names(a.children), Names(b.children));
      var names := Sort(Names(a.children), AtMost);
      SameLastUnsupported(a, b, names);
      if |names| <= left {
        SameNames(path, a, b, names, left - |names|);
      }
    }
  }

  lemma SameSorted(s: seq<nat>, t: seq<nat>)
    requires multiset(s) == multiset(t)
    ensures Sort(s, AtMost) == Sort(t, AtMost)
  {
    AtMostOrdering();
    SortCorrect(s, AtMost);
    SortCorrect(t, AtMost);
    SortedUnique(Sort(s, AtMost), Sort(t, AtMost), AtMost);
  }

  lemma {:induction false} SameNames(path: Path, a: Node, b: Node, names: seq<nat>, left: nat)
    requires a.Directory? && b.Directory? && forall name :: SameChild(a, b, name)
    ensures VisitNames(path, a, names, left) == VisitNames(path, b, names, left)
    decreases a, 0, |names|
  {
    hide VisitTree;
    if names != [] {
      var name := names[0];
      assert SameChild(a, b, name);
      var x, y := Child(a.children, name), Child(b.children, name);
      if x.Some? && y.Some? {
        ChildSmaller(a, name);
        ListingsIrrelevant(path + [name], x.value, y.value, left);
        var r := VisitTree(path + [name], x.value, left);
        if r.Ok? {
          SameNames(path, a, b, names[1..], r.value);
        }
      } else {
        SameNames(path, a, b, names[1..], left);
      }
    }
  }

  // The worklist

  ghost predicate IsDirectory(root: Node, path: Path) {
    Lookup(root, path).Some? && Lookup(root, path).value.Directory?
  }

  /** The entries below `path`. */
  ghost function Below(root: Node, path: Path): multiset<(Path, Kind)> {
    match Lookup(root, path)
    case None => multiset{}
    case Some(node) => AllEntries(path, node)
  }

  ghost function Pending(root: Node, pending: seq<Path>): multiset<(Path, Kind)>
    decreases |pending|
  {
    if pending == [] then multiset{}
    else Pending(root, pending[..|pending| - 1]) + Below(root, pending[|pending| - 1])
  }

  /** Every entry was seen, is below a pending directory, or is in `rest`. */
  ghost predicate Covered(root: Node, seen: multiset<(Path, Kind)>, pending: seq<Path>, rest: multiset<(Path, Kind)>) {
    AllEntries([], root) == seen + Pending(root, pending) + rest
  }

  /** The files are the `.gcl` files seen, and nothing unsupported was seen. */
  ghost predicate Kept(seen: multiset<(Path, Kind)>, files: seq<Path>) {
    && (forall p :: multiset(files)[p] == seen[(p, GclEntry)])
    && (forall p :: (p, UnsupportedEntry) !in seen)
  }

  ghost predicate Directories(root: Node, pending: seq<Path>) {
    forall i :: 0 <= i < |pending| ==> IsDirectory(root, pending[i])
  }

  ghost predicate Walking(root: Node, seen: multiset<(Path, Kind)>, files: seq<Path>, pending: seq<Path>,
                          rest: multiset<(Path, Kind)>)
  {
    WfTree(root) && Covered(root, seen, pending, rest) && Kept(seen, files) && Directories(root, pending)
  }

  lemma StartWalk(root: Node)
    requires WfTree(root) && root.Directory?
    ensures Walking(root, multiset{}, [], [[]], multiset{})
  {
    assert Lookup(root, []) == Some(root);
    assert Pending(root, []) == multiset{};
    assert Pending(root, [[]]) == Below(root, []);
  }

  /** Read a directory: its entries, by sorted name, are next. */
  lemma OpenDirectory(root: Node, seen: multiset<(Path, Kind)>, files: seq<Path>, pending: seq<Path>, names: seq<nat>)
    requires Walking(root, seen, files, pending, multiset{}) && pending != []
    requires var path := pending[|pending| - 1];
             && IsDirectory(root, path)
             && multiset(names) == multiset(Names(Lookup(root, path).value.children))
    ensures var path := pending[|pending| - 1];
            && Walking(root, seen, files, pending[..|pending| - 1], EntriesOver(root, path, names))
            && forall i :: 0 <= i < |names| ==> Lookup(root, path + [names[i]]).Some?
  {
    hide Entries, AllEntries, Lookup, WfTree, EntriesOver, Below, Kept, IsDirectory, Covered, Pending;
    var path := pending[|pending| - 1];
    OverNames(root, path, names);
    OpenCovered(root, seen, pending);
    EveryNameFound(root, path, names);
  }

  lemma OpenCovered(root: Node, seen: multiset<(Path, Kind)>, pending: seq<Path>)
    requires Covered(root, seen, pending, multiset{}) && pending != []
    ensures Covered(root, seen, pending[..|pending| - 1], Below(root, pending[|pending| - 1]))
  {
    hide AllEntries, Below;
  }

  lemma EveryNameFound(root: Node, path: Path, names: seq<nat>)
    requires WfTree(root) && IsDirectory(root, path)
    requires multiset(names) == multiset(Names(Lookup(root, path).value.children))
    ensures forall i :: 0 <= i < |names| ==> Lookup(root, path + [names[i]]).Some?
  {
    hide WfTree, Lookup;
    forall i | 0 <= i < |names|
      ensures Lookup(root, path + [names[i]]).Some?
    {
      assert names[i] in multiset(names);
      NameListed(root, path, names[i]);
    }
  }

  /** The names of a directory, in any order, cover what is below it. */
  lemma OverNames(root: Node, path: Path, names: seq<nat>)
    requires WfTree(root) && IsDirectory(root, path)
    requires multiset(names) == multiset(Names(Lookup(root, path).value.children))
    ensures EntriesOver(root, path, names) == Below(root, path)
  {
    hide Entries, EntriesOver, Lookup, WfTree;
    var node := Lookup(root, path).value;
    var listed := Names(node.children);
    EntriesOverPermuted(root, path, names, listed);
    EntriesByName(root, path, node, |listed|);
    assert listed[..|listed|] == listed;
  }

  lemma NameListed(root: Node, path: Path, name: nat)
    requires WfTree(root) && IsDirectory(root, path) && name in Names(Lookup(root, path).value.children)
    ensures Lookup(root, path + [name]).Some?
  {
    var children := Lookup(root, path).value.children;
    var i :| 0 <= i < |children| && children[i].0 == name;
    LookupWf(root, path);
    ChildAt(children, i);
    LookupFurther(root, path, name);
  }

  lemma {:induction false} EntriesOverSize(root: Node, path: Path, names: seq<nat>)
    requires forall i :: 0 <= i < |names| ==> Lookup(root, path + [names[i]]).Some?
    ensures |EntriesOver(root, path, names)| >= |names|
    decreases |names|
  {
    if names != [] {
      EntriesOverSize(root, path, names[..|names| - 1]);
      assert EntriesAt(root, path + [names[|names| - 1]]) ==
             multiset{(path + [names[|names| - 1]], KindOf(Lookup(root, path + [names[|names| - 1]]).value))}
             + Below(root, path + [names[|names| - 1]]);
    }
  }

  lemma WalkSize(root: Node, seen: multiset<(Path, Kind)>, files: seq<Path>, pending: seq<Path>,
                 rest: multiset<(Path, Kind)>)
    requires Walking(root, seen, files, pending, rest)
    ensures |seen| + |rest| <= |AllEntries([], root)|
  {
  }

  ghost predicate NextEntry(root: Node, path: Path, names: seq<nat>, entry: Path, kind: Kind) {
    && names != [] && entry == path + [names[|names| - 1]]
    && Lookup(root, entry).Some? && kind == KindOf(Lookup(root, entry).value)
  }

  /** Take the next entry: a directory becomes pending, a `.gcl` file is kept. */
  lemma TakeEntry(root: Node, seen: multiset<(Path, Kind)>, files: seq<Path>, pending: seq<Path>, path: Path,
                  names: seq<nat>,
                  entry: Path, kind: Kind)
    requires Walking(root, seen, files, pending, EntriesOver(root, path, names))
    requires NextEntry(root, path, names, entry, kind) && kind != UnsupportedEntry
    ensures Walking(root, seen + multiset{(entry, kind)},
                    if kind == GclEntry then files + [entry] else files,
                    if kind == DirectoryEntry then pending + [entry] else pending,
                    EntriesOver(root, path, names[..|names| - 1]))
  {
    hide WfTree, Lookup, Entries, AllEntries, Below, IsDirectory, Pending, EntriesAt, Covered, Kept;
    EntryParts(root, entry);
    TakeCovered(root, seen, pending, path, names, entry, kind);
    TakeKept(seen, files, entry, kind);
    DirectoryKind(root, entry);
  }

  lemma TakeCovered(root: Node, seen: multiset<(Path, Kind)>, pending: seq<Path>, path: Path, names: seq<nat>,
                    entry: Path, kind: Kind)
    requires Covered(root, seen, pending, EntriesOver(root, path, names))
    requires names != [] && entry == path + [names[|names| - 1]]
    requires EntriesAt(root, entry) == multiset{(entry, kind)} + Below(root, entry)
    requires kind != DirectoryEntry ==> Below(root, entry) == multiset{}
    ensures Covered(root, seen + multiset{(entry, kind)},
                    if kind == DirectoryEntry then pending + [entry] else pending,
                    EntriesOver(root, path, names[..|names| - 1]))
  {
    hide AllEntries, Below, Pending, EntriesAt;
    PendingMore(root, pending, entry);
    Balance(seen, Pending(root, pending), EntriesOver(root, path, names[..|names| - 1]), multiset{(entry, kind)},
            Below(root, entry));
  }

  lemma Balance<T>(s: multiset<T>, p: multiset<T>, r: multiset<T>, e: multiset<T>, b: multiset<T>)
    ensures s + p + (r + (e + b)) == (s + e) + (p + b) + r
    ensures b == multiset{} ==> p + b == p
  {
  }

  lemma TakeKept(seen: multiset<(Path, Kind)>, files: seq<Path>, entry: Path, kind: Kind)
    requires Kept(seen, files) && kind != UnsupportedEntry
    ensures Kept(seen + multiset{(entry, kind)}, if kind == GclEntry then files + [entry] else files)
  {
  }

  lemma TakeUnsupported(root: Node, seen: multiset<(Path, Kind)>, files: seq<Path>, pending: seq<Path>, path: Path,
                        names: seq<nat>,
                        entry: Path)
    requires Walking(root, seen, files, pending, EntriesOver(root, path, names))
    requires NextEntry(root, path, names, entry, UnsupportedEntry)
    ensures (entry, UnsupportedEntry) in AllEntries([], root)
  {
    hide WfTree, Lookup, Entries, AllEntries, Below, IsDirectory, Pending, Kept;
    EntryParts(root, entry);
    assert (entry, UnsupportedEntry) in EntriesAt(root, entry);
    assert (entry, UnsupportedEntry) in EntriesOver(root, path, names);
  }

  lemma EntryParts(root: Node, entry: Path)
    requires Lookup(root, entry).Some?
    ensures var kind := KindOf(Lookup(root, entry).value);
            && EntriesAt(root, entry) == multiset{(entry, kind)} + Below(root, entry)
            && (kind != DirectoryEntry ==> Below(root, entry) == multiset{})
  {
    var node := Lookup(root, entry).value;
    if !node.Directory? {
      assert AllEntries(entry, node) == Entries(entry, node, 0) == multiset{};
    }
  }

  lemma DirectoryKind(root: Node, entry: Path)
    requires Lookup(root, entry).Some?
    ensures IsDirectory(root, entry) <==> KindOf(Lookup(root, entry).value) == DirectoryEntry
  {
  }

  lemma PendingMore(root: Node, pending: seq<Path>, entry: Path)
    ensures Pending(root, pending + [entry]) == Pending(root, pending) + Below(root, entry)
  {
    assert (pending + [entry])[..|pending|] == pending;
  }

  /** What a successful traversal returns. */
  ghost predicate CollectsAll(root: Node, files: seq<Path>) {
    && Sorted(files, PathAtMost)
    && (forall p :: multiset(files)[p] == AllEntries([], root)[(p, GclEntry)])
    && (forall p :: (p, UnsupportedEntry) !in AllEntries([], root))
  }

  lemma EndWalk(root: Node, seen: multiset<(Path, Kind)>, files: seq<Path>)
    requires Walking(root, seen, files, [], multiset{})
    ensures CollectsAll(root, Sort(files, PathAtMost)) && seen == AllEntries([], root)
  {
    hide AllEntries, WfTree, PathAtMost, Sort, Sorted;
    PathOrdering();
    SortCorrect(files, PathAtMost);
    assert seen == AllEntries([], root);
  }

  /** Read one directory: charge each entry, by descending name, and sort it
      into files and pending directories. */
  method VisitDirectory(root: Node, directory: Path, before: seq<Path>, found: seq<Path>,
                        budget: PackageIngestionBudget,
                        ghost visited: multiset<(Path, Kind)>)
    returns (pending: seq<Path>, files: seq<Path>, error: Option<TraversalError>, ghost seen: multiset<(Path, Kind)>)
    requires Walking(root, visited, found, before + [directory], multiset{}) && budget.Valid()
    modifies budget
    ensures budget.Valid() && budget.bytes == old(budget.bytes)
    ensures budget.entries + |visited| == old(budget.entries) + |seen|
    ensures error.None? ==>
      && Walking(root, seen, files, pending, multiset{})
      && |pending| + |visited| <= |before| + |seen|
    ensures error.None? ==>
      VisitPending(root, pending, budget.RemainingEntries())
      == VisitPending(root, before + [directory], old(budget.RemainingEntries()))
    ensures error.Some? ==>
      VisitPending(root, before + [directory], old(budget.RemainingEntries())) == Err(error.value)
    ensures error.Some? && error.value.EntryLimitExceeded? ==>
      old(budget.entries) + |AllEntries([], root)| > budget.policy.maxEntries + |visited|
    ensures error.Some? && error.value.UnsupportedSource? ==>
      (error.value.path, UnsupportedEntry) in AllEntries([], root)
  {
    hide Walking, WfTree, AllEntries, EntriesOver, Lookup, Sort, Sorted, VisitPending, VisitNames, PutsOff, Child,
         LastUnsupported;
    pending, files, error, seen := before, found, None, visited;
    assert (before + [directory])[..|before|] == before;
    LastPending(root, visited, found, before, directory);
    ghost var node := Lookup(root, directory).value;
    VisitLast(root, before, directory, node, budget.RemainingEntries());
    PutsOffNothing(root, before, directory, node);
    var listed := Names(Lookup(root, directory).value.children);
    AtMostOrdering();
    SortCorrect(listed, AtMost);
    if |listed| > budget.RemainingEntries() {
      TooMany(root, visited, found, before, directory, listed);
      return pending, files, Some(EntryLimitExceeded(directory)), seen;
    }
    var names := Sort(listed, AtMost);
    OpenDirectory(root, visited, found, before + [directory], names);
    var k := |names|;
    assert names[..k] == names && names[k..] == [];
    while k > 0
      invariant budget.entries + k == old(budget.entries) + |names|
      invariant LastUnsupported(node.children, names) == LastUnsupported(node.children, names[..k])
      invariant PutsOff(root, before, directory, node, names[k..], pending)
      invariant k <= |names| && budget.Valid() && budget.bytes == old(budget.bytes)
      invariant budget.entries + |visited| == old(budget.entries) + |seen|
      invariant |pending| + |visited| <= |before| + |seen|
      invariant Walking(root, seen, files, pending, EntriesOver(root, directory, names[..k]))
    {
      k := k - 1;
      var path := directory + [names[k]];
      var kind := KindOf(Lookup(root, path).value);
      OneEntry(root, seen, files, pending, directory, names[..k + 1], path, kind);
      NextName(root, before, directory, node, names, k, pending);
      var limit := budget.AccountEntry();
      if limit.Some? {
        return pending, files, Some(EntryLimitExceeded(path)), seen;
      }
      seen := seen + multiset{(path, kind)};
      if kind == UnsupportedEntry {
        return pending, files, Some(UnsupportedSource(path)), seen;
      }
      assert names[..k + 1][..k] == names[..k];
      match kind {
        case DirectoryEntry => pending := pending + [path];
        case GclEntry => files := files + [path];
        case _ =>
      }
    }
    assert names[..0] == [] && names[0..] == names;
    NoNames(root, directory);
    AllNames(root, before, directory, node, names, pending, budget.RemainingEntries());
  }

  /** The next name is the last unsupported one, or its visit is put off. */
  lemma NextName(root: Node, before: seq<Path>, path: Path, node: Node, names: seq<nat>, k: nat, pending: seq<Path>)
    requires Lookup(root, path) == Some(node) && node.Directory? && k < |names|
    requires Lookup(root, path + [names[k]]).Some?
    requires PutsOff(root, before, path, node, names[k + 1..], pending)
    ensures var child := Lookup(root, path + [names[k]]).value;
            && (child == Unsupported ==> LastUnsupported(node.children, names[..k + 1]) == Some(names[k]))
            && (child != Unsupported ==>
                  LastUnsupported(node.children, names[..k + 1]) == LastUnsupported(node.children, names[..k]))
            && PutsOff(root, before, path, node, names[k..],
                       if child.Directory? then pending + [path + [names[k]]] else pending)
  {
    hide PutsOff, Lookup;
    LookupFurther(root, path, names[k]);
    PutsOffMore(root, before, path, node, names[k + 1..], pending, names[k], Lookup(root, path + [names[k]]).value);
    assert names[k..] == [names[k]] + names[k + 1..];
    assert names[..k + 1][..k] == names[..k];
  }

  lemma AllNames(root: Node, before: seq<Path>, path: Path, node: Node, names: seq<nat>, pending: seq<Path>, left: nat)
    requires node.Directory? && PutsOff(root, before, path, node, names, pending)
    ensures LastUnsupported(node.children, []) == None
    ensures VisitPending(root, pending, left) == Continue(root, before, VisitNames(path, node, names, left))
  {
    hide VisitPending, VisitNames;
  }

  lemma NoNames(root: Node, path: Path)
    ensures EntriesOver(root, path, []) == multiset{}
  {
  }

  lemma LastPending(root: Node, seen: multiset<(Path, Kind)>, files: seq<Path>, before: seq<Path>, directory: Path)
    requires Walking(root, seen, files, before + [directory], multiset{})
    ensures IsDirectory(root, directory)
  {
    assert (before + [directory])[|before|] == directory;
  }

  lemma TooMany(root: Node, seen: multiset<(Path, Kind)>, files: seq<Path>, before: seq<Path>, directory: Path,
                listed: seq<nat>)
    requires Walking(root, seen, files, before + [directory], multiset{}) && IsDirectory(root, directory)
    requires listed == Names(Lookup(root, directory).value.children)
    ensures |seen| + |listed| <= |AllEntries([], root)|
  {
    hide WfTree, Lookup, Walking, AllEntries, EntriesOver;
    assert (before + [directory])[|before + [directory]| - 1] == directory;
    OpenDirectory(root, seen, files, before + [directory], listed);
    EntriesOverSize(root, directory, listed);
    WalkSize(root, seen, files, (before + [directory])[..|before|], EntriesOver(root, directory, listed));
  }

  /** One step of the loop over a directory's names. */
  lemma OneEntry(root: Node, seen: multiset<(Path, Kind)>, files: seq<Path>, pending: seq<Path>, path: Path,
                 names: seq<nat>,
                 entry: Path, kind: Kind)
    requires Walking(root, seen, files, pending, EntriesOver(root, path, names))
             && NextEntry(root, path, names, entry, kind)
    ensures |seen| + 1 <= |AllEntries([], root)|
    ensures kind == UnsupportedEntry ==> (entry, UnsupportedEntry) in AllEntries([], root)
    ensures kind != UnsupportedEntry ==>
      Walking(root, seen + multiset{(entry, kind)},
              if kind == GclEntry then files + [entry] else files,
              if kind == DirectoryEntry then pending + [entry] else pending,
              EntriesOver(root, path, names[..|names| - 1]))
  {
    hide Walking, AllEntries, Lookup, EntriesAt;
    EntryParts(root, entry);
    assert EntriesOver(root, path, names) == EntriesOver(root, path, names[..|names| - 1]) + EntriesAt(root, entry);
    WalkSize(root, seen, files, pending, EntriesOver(root, path, names));
    if kind == UnsupportedEntry {
      TakeUnsupported(root, seen, files, pending, path, names, entry);
    } else {
      TakeEntry(root, seen, files, pending, path, names, entry, kind);
    }
  }

  /** The traversal: exactly the `.gcl` files in path order, one charge for each
      entry, and the entry limit exactly when the tree does not fit. */
  method CollectGclFiles(root: Option<Node>, budget: PackageIngestionBudget)
    returns (r: Result<seq<Path>, TraversalError>)
    requires budget.Valid() && (root.Some? ==> WfTree(root.value))
    modifies budget
    ensures budget.Valid() && budget.bytes == old(budget.bytes)
    ensures root.None? ==> r == Ok([]) && budget.entries == old(budget.entries)
    ensures root.Some? && !root.value.Directory? ==>
            r == Err(UnsupportedSource([])) && budget.entries == old(budget.entries)
    ensures root.Some? && root.value.Directory? ==>
      match r
      case Ok(files) =>
        CollectsAll(root.value, files) && budget.entries == old(budget.entries) + |AllEntries([], root.value)|
      case Err(EntryLimitExceeded(_)) =>
        old(budget.entries) + |AllEntries([], root.value)| > budget.policy.maxEntries
      case Err(UnsupportedSource(path)) =>
        (path, UnsupportedEntry) in AllEntries([], root.value)
    ensures root.Some? && root.value.Directory? ==>
      match VisitTree([], root.value, old(budget.RemainingEntries()))
      case Ok(left) => r.Ok? && budget.RemainingEntries() == left
      case Err(error) => r == Err(error)
  {
    hide Walking, WfTree, AllEntries, CollectsAll, VisitTree;
    if root.None? {
      return Ok([]);
    }
    if !root.value.Directory? {
      return Err(UnsupportedSource([]));
    }
    var files: seq<Path> := [];
    var pending: seq<Path> := [[]];
    ghost var seen: multiset<(Path, Kind)> := multiset{};
    StartWalk(root.value);
    VisitLast(root.value, [], [], root.value, budget.RemainingEntries());
    assert [] + [[]] == pending;
    while pending != []
      invariant budget.Valid() && budget.bytes == old(budget.bytes) && budget.entries == old(budget.entries) + |seen|
      invariant Walking(root.value, seen, files, pending, multiset{})
      invariant VisitPending(root.value, pending, budget.RemainingEntries())
                == VisitTree([], root.value, old(budget.RemainingEntries()))
      decreases |AllEntries([], root.value)| - |seen| + |pending|
    {
      var directory := pending[|pending| - 1];
      var rest := pending[..|pending| - 1];
      assert pending == rest + [directory];
      WalkSize(root.value, seen, files, pending, multiset{});
      var error: Option<TraversalError>;
      pending, files, error, seen := VisitDirectory(root.value, directory, rest, files, budget, seen);
      if error.Some? {
        return Err(error.value);
      }
      WalkSize(root.value, seen, files, pending, multiset{});
    }
    EndWalk(root.value, seen, files);
    r := Ok(Sort(files, PathAtMost));
  }

  // The entries of a tree are its paths

  ghost predicate Holds(node: Node, q: Path, kind: Kind) {
    q != [] && Lookup(node, q).Some? && KindOf(Lookup(node, q).value) == kind
  }

  ghost predicate Extends(e: Path, path: Path) {
    |path| < |e| && e[..|path|] == path
  }

  ghost predicate ListedBefore(node: Node, n: nat, name: nat)
    requires node.Directory? && n <= |node.children|
  {
    exists i :: 0 <= i < n && node.children[i].0 == name
  }

  /** The part of an entry below the `n`-th child, when it is there. */
  lemma ThroughChild(path: Path, node: Node, n: nat, e: Path, kind: Kind)
    requires WfTree(node) && node.Directory? && n < |node.children| && Extends(e, path)
             && e[|path|] == node.children[n].0
    ensures !ListedBefore(node, n, e[|path|])
    ensures var (name, child) := node.children[n];
            && (|e| == |path| + 1 ==> e == path + [name] && (Holds(node, e[|path|..], kind) <==> KindOf(child) == kind))
            && (|e| > |path| + 1 ==> Extends(e, path + [name]))
            && (|e| > |path| + 1 ==> (Holds(node, e[|path|..], kind) <==> Holds(child, e[|path| + 1..], kind)))
  {
    var (name, child) := node.children[n];
    var q := e[|path|..];
    ChildAt(node.children, n);
    assert q[0] == name && q[1..] == e[|path| + 1..];
    assert Lookup(node, q) == Lookup(child, q[1..]);
    if |e| == |path| + 1 {
      assert e == path + [name];
      assert q[1..] == [];
    } else {
      assert e[..|path| + 1] == path + [name];
    }
  }

  lemma {:induction false} EntriesCount(path: Path, node: Node, n: nat, e: Path, kind: Kind)
    requires WfTree(node) && node.Directory? && n <= |node.children|
    ensures Entries(path, node, n)[(e, kind)] ==
            if Extends(e, path) && ListedBefore(node, n, e[|path|]) && Holds(node, e[|path|..], kind) then 1 else 0
    decreases node, n
  {
    hide Lookup, KindOf, Holds;
    if n > 0 {
      var (name, child) := node.children[n - 1];
      EntriesCount(path, node, n - 1, e, kind);
      AllEntriesCount(path + [name], child, e, kind);
      if Extends(e, path) && e[|path|] == name {
        ThroughChild(path, node, n - 1, e, kind);
        assert node.children[n - 1].0 == e[|path|];
      } else {
        NotThrough(path, e, name);
      }
    }
  }

  lemma NotThrough(path: Path, e: Path, name: nat)
    requires !(Extends(e, path) && e[|path|] == name)
    ensures e != path + [name] && !Extends(e, path + [name])
  {
    if Extends(e, path + [name]) {
      PrefixOf(e, path, name);
    }
  }

  lemma PrefixOf(e: Path, path: Path, name: nat)
    requires Extends(e, path + [name])
    ensures Extends(e, path) && e[|path|] == name
  {
    assert e[..|path| + 1] == path + [name];
    assert e[..|path|] == (path + [name])[..|path|] == path;
    assert e[|path|] == (path + [name])[|path|];
  }

  lemma {:induction false} AllEntriesCount(path: Path, node: Node, e: Path, kind: Kind)
    requires WfTree(node)
    ensures AllEntries(path, node)[(e, kind)] == if Extends(e, path) && Holds(node, e[|path|..], kind) then 1 else 0
    decreases node, if node.Directory? then |node.children| + 1 else 1
  {
    if node.Directory? {
      EntriesCount(path, node, |node.children|, e, kind);
      if Extends(e, path) && Holds(node, e[|path|..], kind) {
        var i := ChildListed(node.children, e[|path|..][0]);
        assert node.children[i].0 == e[|path|];
      }
    } else {
      assert Entries(path, node, 0) == multiset{};
    }
  }

  /** A collected file list holds each `.gcl` path of the tree exactly once. */
  lemma CollectedPaths(root: Node, files: seq<Path>, p: Path)
    requires WfTree(root) && CollectsAll(root, files)
    ensures multiset(files)[p] == if Holds(root, p, GclEntry) then 1 else 0
    ensures !Holds(root, p, UnsupportedEntry)
  {
    hide Sorted;
    AllEntriesCount([], root, p, GclEntry);
    AllEntriesCount([], root, p, UnsupportedEntry);
    assert p[..0] == [] && p[0..] == p;
  }
}
