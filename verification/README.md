# Verified core of Graphcal

A Dafny model of the algorithms that Graphcal's other parts rely on, with proofs of what each of them
promises. `dafny verify dfyconfig.toml` checks everything.

- **Dependency graph** (`Digraph`, `EdgeLog`, `DepthFirst`, `Fifo`, `StrongComponents`, `CyclicClasses`,
  `GraphLoops`, `DependencyGraph`). A class with the redundant indexes of the original: keys, positions,
  adjacency lists both ways and the set of edges. `EdgeLog` is the history that determines all of them.
  The explicit-stack depth-first search is proved to compute a recursive reference search, which finds an
  order exactly when there is one and otherwise a simple cycle of recorded edges; which order and which
  cycle is stated without the search. Kahn's loop gives the
  one first-in first-out order, defined without an algorithm. Tarjan's loop is a state machine whose steps
  keep one invariant; every component it pops is a class of mutual reachability, and comes after all it
  depends on.
- **Dimensions** (`Ratios`, `Monomials`, `DimensionPrinter`). Reduced fractions over the symmetric 32-bit
  range, with the 128-bit intermediate steps of the original, and sparse monomials over them. Every
  operation succeeds exactly when the mathematical result is representable. What the printer writes,
  read as a left-associated product and quotient, is the printed dimension.
- **Function signatures** (`Signatures`, `SignatureEquivalence`, `SignatureValidation`,
  `SignatureBuilding`, `CallTyping`, `MonomialValues`, `CallMeaning`, `CallErrors`, `CallEquivalence`).
  Building accepts exactly the well-formed signatures and otherwise reports the first violation. The linear
  comparison by first occurrence decides whether two signatures are equal up to a renaming of their binders.
  A call has a type when some binding of the variables makes the arguments instances of the parameters and the type
  an instance of the result; the call checker's walk finds exactly that, and answers each error exactly when
  the arguments cause it. Equivalent signatures type every call alike, with two exceptions that are stated
  exactly.
- **Reading order** (`RecursiveComponents`, `ReadingOrders`, `ReadingResults`, `ReadingSchedule`). Recursive
  components, condensation, and Kahn's algorithm with a priority heap, for whatever order sets are iterated
  in. The result is one schedule, fixed by the dependency relation and the priorities, and its meaning is
  stated file by file.
- **Packages** (`IngestionBudget`, `SourceTraversal`, `LockResolution`, `PackageCaches`). The entry and byte
  budget, the bounded traversal of a source tree, recursive memoised lock resolution, and the
  content-addressed cache with its rollback. What fails outside the program is a parameter, so success is
  proved to happen exactly when the circumstances allow it.
- **Parameter JSON and plugin values** (`JsonKeys`, `DenseArrays`). The lexical scan for root keys against
  the grammar of RFC 8259, dense arrays flattened and rendered, and fresh type names.
- **Identities and literals** (`DagIds`, `DateTimeLiterals`). The order and hierarchy of module
  identities, and the byte validator of offset date-times against section 5.6 of RFC 3339.

`Outcomes`, `Numbers` and `Sorting` are shared.

## Conventions

Names, texts, base dimensions, paths' components and sources that are only compared are natural numbers
in the order of the original's values, so a sorted map or set is read in increasing order. A list that a
loop updates is a sequence that the loop reassigns. Recursive functions named after a loop specify it; the
lemmas say what they mean. A valid graph, budget or cache is one that its constructor and methods can
produce.

## Where the code and its description differ

- `function_signature.rs:977-979` describes equivalence as a renaming of dimension variables. The code also
  renames index variables, and so does the theorem.
- `function_signature.rs:976` calls equivalence "the same calling contract". It is not quite, in two ways. With
  checked exponents factors are multiplied in declaration order, so of two equivalent signatures one may
  overflow on a call that the other types (`CallEquivalence.OverflowDependsOnOrder`). And only the shapes of
  struct results are compared, while a call answers the nominal record, so equivalent signatures that name
  different records type a call differently (`CallEquivalence.RecordsDiffer`); `extern_function.rs:95-110` asks
  for the same record separately. `CallEquivalence.EquivalentCallsAgree` gives the exact condition in terms of
  the signatures and the arguments.

## Model

| member | source | states |
|---|---|---|
| `DependencyGraphs.DependencyGraph.constructor` | crates/graphcal-compiler/src/dependency_graph.rs:39-49 | a new graph satisfies the representation invariant: positions, both adjacency lists and the edge set are determined by the node list and the edge log |
| `DependencyGraphs.DependencyGraph.PositionOf` | crates/graphcal-compiler/src/dependency_graph.rs:274-284 | a known key keeps its place; a new key is appended to the node list; the place returned holds the key, and which key depends on which does not change |
| `DependencyGraphs.DependencyGraph.AddNode` | crates/graphcal-compiler/src/dependency_graph.rs:67-71 | the nodes are the old ones in their order and the key; which key depends on which does not change |
| `DependencyGraphs.DependencyGraph.RecordEdge` | crates/graphcal-compiler/src/dependency_graph.rs:77-84 | the dependency is appended to the list of the dependent and the dependent to the list of the dependency, with the first label kept for a pair that is recorded already; the edges afterwards are the old ones and this one |
| `DependencyGraphs.DependencyGraph.AddLabelledDependency` | crates/graphcal-compiler/src/dependency_graph.rs:73-84 | the old nodes stay first, the dependent becomes a node before the dependency, and afterwards the dependent depends on the dependency and nothing else has changed |
| `DependencyGraphs.DependencyGraph.AddLabelledDependencyBetween` | crates/graphcal-compiler/src/dependency_graph.rs:86-111 | answers whether both keys are nodes; exactly then the dependent depends on the dependency afterwards; nothing else changes and no node is added |
| `DependencyGraphs.RecordKeeps` | crates/graphcal-compiler/src/dependency_graph.rs:28-37 | one more record appends one entry to one list of each projection and joins one more pair: the redundant indexes stay consistent |
| `EdgeLog.ProjectionsAgree` | crates/graphcal-compiler/src/dependency_graph.rs:28-37 | in every reachable graph the dependents lists mirror the dependencies lists, and both have exactly the recorded edges |
| `EdgeLog.LabelRecorded` | crates/graphcal-compiler/src/dependency_graph.rs:73-84 | a label is stored for an edge exactly when the log recorded it for that edge |
| `DepthFirst.DepthFirstSearchCorrect` | crates/graphcal-compiler/src/dependency_graph.rs:153-178 | on every graph the search finishes exactly when the graph is acyclic; then its order lists every node once after all of its dependencies, otherwise it reports a simple cycle whose closing label is stored for its last edge |
| `DepthFirst.DepthFirstSearchGreedy` | crates/graphcal-compiler/src/dependency_graph.rs:286-329 | the search always descends from the first node that is not done to the first dependency that is not done, and emits where it cannot descend; a reported cycle is closed by the first such descent that meets itself |
| `DepthFirst.GreedyUnique` | crates/graphcal-compiler/src/dependency_graph.rs:153-159 | an order of that kind is determined by the graph with its insertion orders |
| `DepthFirst.FirstNodeLast` | crates/graphcal-compiler/src/dependency_graph.rs:156-159 | when the first node reaches every other node, it is emitted last |
| `GraphLoops.DepthFirstIndices` | crates/graphcal-compiler/src/dependency_graph.rs:286-329 | the explicit-stack loop over visit states computes the recursive reference search: the same order, or the same entry, path and closing label |
| `GraphLoops.KahnRanks` | crates/graphcal-compiler/src/dependency_graph.rs:331-352 | the ranks are those of an order that is topological and first-in first-out |
| `Fifo.CountDown` | crates/graphcal-compiler/src/dependency_graph.rs:343-347 | a pending count is positive whenever it is decremented, so the saturating subtraction never saturates, and it reaches zero only when all dependencies are out |
| `Fifo.FifoOrderUnique` | crates/graphcal-compiler/src/dependency_graph.rs:133-137 | rank of the last-emitted dependency, then edge insertion position, with dependency-free nodes first in insertion order, determine the whole order |
| `DependencyGraphs.RankSort` | crates/graphcal-compiler/src/dependency_graph.rs:145-148 | sorting the keys by rank lists them in exactly the first-in first-out order |
| `DependencyGraphs.TakeKeys` | crates/graphcal-compiler/src/dependency_graph.rs:167-174 | taking every key out once in post-order loses none and repeats none |
| `DependencyGraphs.SearchOutcome` | crates/graphcal-compiler/src/dependency_graph.rs:141-144 | a search result is an order exactly when the graph is acyclic, and an error names the keys of a recorded cycle |
| `DependencyGraphs.CycleOutcome` | crates/graphcal-compiler/src/dependency_graph.rs:354-364 | the reported keys name the nodes of the cycle in order, and the closing label is the one recorded for the edge back to the entry |
| `DependencyGraphs.DependencyGraph.IntoTopoOrder` | crates/graphcal-compiler/src/dependency_graph.rs:131-151 | succeeds exactly on acyclic graphs, with the unique first-in first-out order of the keys; otherwise it reports the cycle that the depth-first search closes |
| `DependencyGraphs.DependencyGraph.IntoDepthFirstOrder` | crates/graphcal-compiler/src/dependency_graph.rs:153-178 | succeeds exactly on acyclic graphs, with the one depth-first post-order that takes nodes and dependencies in insertion order; otherwise it reports the same cycle |
| `StrongComponents.EnterKeeps` | crates/graphcal-compiler/src/dependency_graph.rs:227-246 | discovering a node keeps the whole invariant of the search: numbering, placement, exploration, connection along the path, low links, finished classes |
| `StrongComponents.AdvanceKeeps` | crates/graphcal-compiler/src/dependency_graph.rs:235-252 | counting an edge to a visited node as tried keeps the invariant |
| `StrongComponents.LowerKeeps` | crates/graphcal-compiler/src/dependency_graph.rs:247-257 | lowering a low link to the number of an open node that is reached keeps the invariant |
| `StrongComponents.LeaveKeeps` | crates/graphcal-compiler/src/dependency_graph.rs:254-258 | leaving a node that is not its own low link, its parent inheriting the low link, keeps the invariant |
| `StrongComponents.ComponentIsClass` | crates/graphcal-compiler/src/dependency_graph.rs:258-267 | what is popped down to a node that is its own low link is exactly a class of mutual reachability |
| `StrongComponents.CloseKeeps` | crates/graphcal-compiler/src/dependency_graph.rs:258-268 | recording that class keeps the invariant, in particular that classes come after everything they depend on |
| `GraphLoops.ComponentIndices` | crates/graphcal-compiler/src/dependency_graph.rs:211-272 | for every graph the loop terminates with exactly the classes of mutual reachability, disjoint, each after every class it depends on |
| `CyclicClasses.ClassOnCycle` | crates/graphcal-compiler/src/dependency_graph.rs:181-193 | a node of a class lies on a cycle exactly when the class has two nodes or its one node depends on itself |
| `DependencyGraphs.DependencyGraph.CyclicComponents` | crates/graphcal-compiler/src/dependency_graph.rs:180-209 | lists exactly the classes with a cycle, each in insertion order, ordered by their first nodes |
| `CyclicClasses.ListUnique` | crates/graphcal-compiler/src/dependency_graph.rs:183-184 | that listing is determined by the graph |
| `CyclicClasses.ListedIffCyclic` | crates/graphcal-compiler/src/dependency_graph.rs:856-859 | some class is listed exactly when the graph has a cycle, so exactly when ordering fails |
| `CyclicClasses.CycleInsideClass` | crates/graphcal-compiler/src/dependency_graph.rs:863-870 | every simple cycle, hence the reported one, lies inside one listed class |
| `CyclicClasses.WithoutInnerAcyclic` | crates/graphcal-compiler/src/dependency_graph.rs:871-886 | without the edges inside the listed classes the graph is acyclic, so it can be ordered |
| `Ratios.TryFromWideExact` | crates/graphcal-ratio/src/ratio.rs:118-148 | the result is the fraction in lowest terms with a positive denominator; overflow means that no representable ratio denotes the fraction |
| `Ratios.ReducedUnique` | crates/graphcal-ratio/src/ratio.rs:120-148 | equal fractions in lowest terms are identical |
| `Ratios.AddFits` | crates/graphcal-ratio/src/ratio.rs:209-224 | no 128-bit step of an addition of representable ratios overflows |
| `Ratios.AddExact` | crates/graphcal-ratio/src/ratio.rs:209-224 | addition succeeds exactly when the exact sum is representable, and then is exact |
| `Ratios.MulFits` | crates/graphcal-ratio/src/ratio.rs:289-300 | no 128-bit step of a multiplication overflows |
| `Ratios.MulExact` | crates/graphcal-ratio/src/ratio.rs:289-300 | multiplication succeeds exactly when the exact product is representable, and then is exact |
| `Ratios.NegExact` | crates/graphcal-ratio/src/ratio.rs:261-271 | negation stays in the symmetric range, is exact, and undoes itself |
| `Monomials.SameExponents` | crates/graphcal-compiler/src/sparse_monomial.rs:58-66 | monomials with the same exponent function are equal |
| `Monomials.TryMulExact` | crates/graphcal-compiler/src/sparse_monomial.rs:182-208 | a product exists exactly when every exponent sum is representable; then exponents add and cancelled factors vanish |
| `Monomials.TryPowExact` | crates/graphcal-compiler/src/sparse_monomial.rs:210-231 | a power exists exactly when every exponent product is representable; then exponents scale |
| `Monomials.InverseExact` | crates/graphcal-compiler/src/sparse_monomial.rs:235-244 | the inverse always exists and negates every exponent |
| `Monomials.TryDivExact` | crates/graphcal-compiler/src/sparse_monomial.rs:246-253 | a quotient exists exactly when every exponent difference is representable; then exponents subtract |
| `Monomials.MulCommutes` | crates/graphcal-compiler/src/dimension.rs:304-310 | both orders of a product give the same result, also when they overflow |
| `Monomials.MulAssociates` | crates/graphcal-compiler/src/dimension.rs:304-310 | regrouping a product changes nothing once the inner products exist |
| `Monomials.MulUnit` | crates/graphcal-compiler/src/dimension.rs:304-310 | the dimensionless unit is neutral and never overflows |
| `Monomials.DivUndoesMul` | crates/graphcal-compiler/src/dimension.rs:311-317 | dividing a product by one factor always succeeds and gives the other |
| `Monomials.DivSelf` | crates/graphcal-compiler/src/dimension.rs:311-317 | every dimension over itself is dimensionless |
| `Monomials.PowDistributes` | crates/graphcal-compiler/src/dimension.rs:219-229 | a power of a product is the product of the powers, with the same overflow |
| `DimensionPrinter.FmtExponents` | crates/graphcal-compiler/src/dimension.rs:241-282 | the two loops with their flag write the positive powers and then the negative ones, a negative power standing first only when there is no numerator |
| `DimensionPrinter.PrintedReadsBack` | crates/graphcal-compiler/src/dimension.rs:241-282 | the printed factors, read as a left-associated product and quotient with checked arithmetic, denote the printed dimension |
| `DimensionPrinter.PrintedShape` | crates/graphcal-compiler/src/dimension.rs:241-282 | the printed form is the positive powers by increasing base joined by times signs, then the negative powers by increasing base, each after a division sign with its exponent negated; without positive powers the first negative one stands first as it is |
| `SignatureValidation.ResolveMonomialCorrect` | crates/graphcal-compiler/src/function_signature.rs:581-588 | resolving names to positions keeps every exponent; its only error is the first undeclared name, never a repeated or vanished factor |
| `SignatureValidation.ResolveKindCorrect` | crates/graphcal-compiler/src/function_signature.rs:590-609 | a resolved kind is the written kind renamed; the only errors are undeclared names, axes before elements |
| `SignatureBuilding.BindingState.AddParam` | crates/graphcal-compiler/src/function_signature.rs:626-675 | the state records exactly the variables bound and axes used so far; a compound use before binding reports its first unbound variable |
| `SignatureBuilding.ResolveResult` | crates/graphcal-compiler/src/function_signature.rs:677-710 | the result is accepted exactly when its axes and then its variables are covered by parameters, and the first uncovered one is reported |
| `SignatureBuilding.TryFromParts` | crates/graphcal-compiler/src/function_signature.rs:722-783 | accepts exactly the well-formed signatures; what is accepted is valid and is the written signature with names replaced by positions; what is rejected is rejected for its first violation in the documented order |
| `SignatureBuilding.ResolvedDetermined` | crates/graphcal-compiler/src/function_signature.rs:552-609 | the accepted signature is determined by the written one |
| `SignatureBuilding.ViolationNotWellFormed` | crates/graphcal-compiler/src/function_signature.rs:503-526 | every reported error is a violation of the documented invariants |
| `SignatureBuilding.FirstOccurrenceOf` | crates/graphcal-compiler/src/function_signature.rs:892-914 | numbering binders in place over the parameter list gives the first-occurrence order |
| `SignatureEquivalence.OrderTotal` | crates/graphcal-compiler/src/function_signature.rs:879-889 | on a valid signature every binder gets a number, and numbers are a rearrangement of the positions |
| `SignatureEquivalence.DimsCarried` | crates/graphcal-compiler/src/function_signature.rs:879-889 | after any number of parameters a renaming carries one numbering of dimension variables to the other: first occurrence is rename-invariant |
| `SignatureEquivalence.AxesCarried` | crates/graphcal-compiler/src/function_signature.rs:879-889 | the same for index variables |
| `SignatureEquivalence.MonomialsMatch` | crates/graphcal-compiler/src/function_signature.rs:916-923 | comparing sorted numbered factors is comparing the monomials up to the renaming that matches numbers |
| `SignatureEquivalence.EquivalentIffRenamed` | crates/graphcal-compiler/src/function_signature.rs:974-1010 | the linear comparison holds exactly when some bijections of dimension and index binders map every parameter kind and the result kind of one signature onto the other |
| `SignatureEquivalence.EquivalentReflexive` | crates/graphcal-compiler/src/function_signature.rs:974-1010 | equivalence is reflexive |
| `SignatureEquivalence.EquivalentSymmetric` | crates/graphcal-compiler/src/function_signature.rs:974-1010 | equivalence is symmetric |
| `SignatureEquivalence.EquivalentTransitive` | crates/graphcal-compiler/src/function_signature.rs:974-1010 | equivalence is transitive |
| `CallTyping.Evaluate` | crates/graphcal-compiler/src/function_signature.rs:199-211 | multiplying bound powers onto the fixed factor in position order, stopping at the first unbound variable or overflow |
| `CallErrors.CheckCall` | crates/graphcal-compiler/src/tir/dim_check/infer/hir/extern_call.rs:26-290 | one pass over the arguments that answers a type exactly when the call has that type, and an error exactly when the arguments cause it |
| `CallErrors.CallErrorExact` | crates/graphcal-compiler/src/tir/dim_check/infer/hir/extern_call.rs:26-290 | each error has its exact cause: the arity; or, all earlier arguments matching what they gave to the variables, an argument of the wrong sort; a quantity that differs from the dimension given to a bare variable or from the value of a compound monomial, expected and found not exchanged; the first axis whose index differs from the one given; or an overflow |
| `CallMeaning.CallTypeExact` | crates/graphcal-compiler/src/tir/dim_check/infer/hir/extern_call.rs:26-290 | the call checker answers a type exactly when some dimensions for the dimension variables and indexes for the index variables make every argument an instance of its parameter kind, every compound monomial free of overflow, and the type the instance of the result kind |
| `CallMeaning.GivenIsFirst` | crates/graphcal-compiler/src/tir/dim_check/builtins.rs:142-182 | the dimension given to a variable is that of the first argument at a bare occurrence of it, whether or not later arguments match |
| `CallMeaning.OverflowExact` | crates/graphcal-compiler/src/tir/dim_check/builtins.rs:185-241 | the call checker reports an overflow exactly when all arguments before some compound parameter match and its monomial does not fit under the dimensions given so far, or all arguments match and the monomial of the result does not fit |
| `MonomialValues.EvalExact` | crates/graphcal-compiler/src/function_signature.rs:192-211 | with every variable bound evaluation fails exactly when a power or a partial product has no representable exponent; otherwise the exponents are the exact sums |
| `CallEquivalence.EvalRenamed` | crates/graphcal-compiler/src/function_signature.rs:199-211 | renamed monomials evaluate alike exactly when both fit or neither does |
| `CallEquivalence.EquivalentCallsAgree` | crates/graphcal-compiler/src/function_signature.rs:976-988 | equivalent signatures type a call identically, errors included, exactly when the arguments overflow both or neither and, if they match and the result is a struct, both name the same record |
| `CallMeaning.CallNeverUnbound` | crates/graphcal-compiler/src/tir/dim_check/builtins.rs:217-241 | on a valid signature the internal errors for unbound dimensions and axes never arise |
| `CallEquivalence.OverflowDependsOnOrder` | crates/graphcal-compiler/src/function_signature.rs:978-984 | two equivalent signatures and a call on which one overflows and the other does not: multiplication follows declaration order |
| `CallEquivalence.RecordsDiffer` | crates/graphcal-compiler/src/function_signature.rs:996-998 | two equivalent signatures of one shape but different records, which type a call differently although nothing overflows |
| `RecursiveComponents.Components.StrongConnect` | internals/reading-order.py:527-546 | one recursive call keeps the invariant of the explicit-stack search, with only the caller's low link still to be lowered, and terminates |
| `RecursiveComponents.Components.Finish` | internals/reading-order.py:538-546 | popping down to a node that is its own low link records one class |
| `ReadingSchedule.ComponentsOf` | internals/reading-order.py:518-550 | the components are the classes of mutual dependency, each after the classes it depends on |
| `ReadingSchedule.Condense` | internals/reading-order.py:557-562 | a class depends on another exactly when some file of it depends on some file of the other |
| `ReadingSchedule.Release` | internals/reading-order.py:601-604 | counting a class as done, in whatever order its dependents are iterated, leaves exact counts and exactly the free classes on the heap |
| `ReadingOrders.ArrangedCorrect` | internals/reading-order.py:589-598 | the key-sorted class lists its files once each in key order; `ReadingResults.ScheduleMeaning` says what that order is |
| `ReadingSchedule.NextFromHeap` | internals/reading-order.py:587-597 | the class popped next is ready and its most urgent file is at least as urgent as any ready file |
| `ReadingSchedule.Analyze` | internals/reading-order.py:518-629 | every file is listed once, classes are contiguous and nothing outside a class points forward; inside a class test modules come last, then entry files, then fewer inner dependencies first, then priority; a class starts only when no file that could come instead is more urgent; the cycles are exactly the classes of several files as listed; the forward dependencies inside classes are listed exactly; the class numbers tell mutual dependency |
| `ReadingResults.ScheduleMeaning` | internals/reading-order.py:586-604 | what a schedule means file by file: the order inside each class, the most urgent class first, and the listed cycles |
| `ReadingSchedule.ForwardEdges` | internals/reading-order.py:608-620 | collects exactly the dependencies that point forward, inside classes or outside them |
| `ReadingOrders.ScheduleOrder` | internals/reading-order.py:606-614 | a schedule lists every file once, keeps each class contiguous, and has no dependency pointing forward outside a class |
| `ReadingOrders.ScheduleUnique` | internals/reading-order.py:518-605 | two runs over the same dependency relation and priorities give the same schedule, however dependency sets are iterated |
| `IngestionBudget.PackageIngestionBudget.Cap` | crates/graphcal-cli/src/deps.rs:133-152 | the cap is the per-file limit or the whole remainder, and reports the budget that it enforces |
| `IngestionBudget.PackageIngestionBudget.AccountEntry` | crates/graphcal-cli/src/deps.rs:154-171 | charges one entry exactly when the policy allows it, otherwise changes nothing |
| `IngestionBudget.PackageIngestionBudget.AccountBytes` | crates/graphcal-cli/src/deps.rs:173-191 | charges the bytes exactly when the policy allows them, otherwise changes nothing |
| `IngestionBudget.PackageIngestionBudget.AccountSourceTree` | crates/graphcal-cli/src/deps.rs:258-278 | charges entries and bytes together or neither, and reports entries first |
| `IngestionBudget.PackageIngestionBudget.Read` | crates/graphcal-cli/src/deps.rs:193-220 | a read succeeds exactly within all three limits, after which charging it cannot fail; the reported limit is the enforced one |
| `SourceTraversal.VisitDirectory` | crates/graphcal-cli/src/deps.rs:433-470 | one directory: entries charged one by one, files kept, and its subdirectories made pending so that the visits put off are those of the recursive traversal by name |
| `SourceTraversal.CollectGclFiles` | crates/graphcal-cli/src/deps.rs:412-474 | collects the files of the tree in path order, charging one entry for each directory entry; the entry limit is reported only when the tree exceeds the remaining budget, an unsupported entry only when there is one; which of them is reported, for which path, is what the recursive traversal by name meets first |
| `SourceTraversal.ListingsIrrelevant` | crates/graphcal-cli/src/deps.rs:451-452 | the outcome, with the path an error names, does not depend on the order in which directories are listed |
| `SourceTraversal.CollectedPaths` | crates/graphcal-cli/src/deps.rs:459-473 | a path is collected exactly when it is a `.gcl` file of the tree, and once |
| `SourceTraversal.PathOrderExact` | crates/graphcal-cli/src/deps.rs:470-474 | paths are ordered by the first name that differs, a path before what is below it |
| `LockResolution.LockResolver.ResolvePackage` | crates/graphcal-cli/src/deps.rs:618-648 | a resolved package records its manifest, all it needs is recorded before it, the visiting set is restored, and the recursion terminates; it fails exactly when the walk that remembers nothing does, with the same error |
| `LockResolution.LockResolver.ResolveDependency` | crates/graphcal-cli/src/deps.rs:650-681 | the dependency is the package that the source holds, of the expected name, and is recorded after everything it needs; an error is justified, a source being unavailable only when fetching it fails |
| `LockResolution.LockResolver.ResolveRoot` | crates/graphcal-cli/src/deps.rs:592-616 | succeeds exactly when no reachable package is on a cycle, all reachable dependencies carry the expected names and every source they name can be fetched; success locks exactly the reachable packages, each with the dependencies its manifest declares; an error is a real cycle, a real name mismatch or a fetch that fails, and is the first one that the depth-first walk without memory meets |
| `LockResolution.RecordedPlain` | crates/graphcal-cli/src/deps.rs:626-628 | returning a recorded package changes nothing: walked again, whatever else is being visited, it would give no error |
| `LockResolution.MeetsAgain` | crates/graphcal-cli/src/deps.rs:629-631 | a package met again while it is being visited is on a dependency cycle |
| `LockResolution.LockedAcyclic` | crates/graphcal-cli/src/deps.rs:618-648 | a lock exists only when no reachable package is on a cycle |
| `LockResolution.FailsUnresolvable` | crates/graphcal-cli/src/deps.rs:618-681 | every error shows that the world has no lock |
| `LockResolution.LockedResolvable` | crates/graphcal-cli/src/deps.rs:618-681 | a lock shows that nothing reachable is cyclic, misnamed or unavailable |
| `LockResolution.OnlyFetchFails` | crates/graphcal-cli/src/deps.rs:657-681 | with acyclic dependencies of the expected names only a failing fetch can be reported |
| `PackageCaches.CacheDirectory.Publish` | crates/graphcal-cli/src/deps.rs:967-1023 | succeeds exactly when the moves it needs work; each error names the step that failed; whatever moves fail, the prior checkout survives in place or in the reported backup unless the new one was published; other checkouts are untouched |
| `PackageCaches.PackageCache.MaterializeWith` | crates/graphcal-cli/src/deps.rs:827-895 | succeeds exactly when the circumstances allow it, and each error names something that failed after all earlier steps worked; a repeat and an intact trusted checkout are returned without a fetch and without touching the disk; otherwise success takes one fetch, whose digest is the one returned and the trusted one when there is one; what is stored afterwards is said exactly, and every prior checkout survives unless a new one was published over it |
| `PackageCaches.PackageCache.Settle` | crates/graphcal-cli/src/deps.rs:866-894 | a fetched checkout of the wrong digest is rejected; a readable stored one of the same digest is returned and the disk left alone; else the fetched one is published; succeeds exactly when these steps can |
| `JsonKeys.TopLevelParameterSpans` | crates/graphcal-cli/src/overrides.rs:432-476 | the cursor loop records what the scan from its position records |
| `JsonKeys.ScanValue` | crates/graphcal-cli/src/overrides.rs:438-473 | a value inside any container, however strings, escapes and containers nest, records nothing and restores the container stack |
| `JsonKeys.ScanMembers` | crates/graphcal-cli/src/overrides.rs:438-473 | the members of an object record their keys exactly when the object is the root |
| `JsonKeys.ScannerAgrees` | crates/graphcal-cli/src/overrides.rs:429-476 | for every well-formed object text the scanner records exactly the names of root members whose decoded key is a valid name, the last of several members with one name, with position and length of the quoted literal |
| `JsonKeys.KeySpelled` | crates/graphcal-cli/src/overrides.rs:452-458 | at the recorded position the text spells the key literal |
| `DenseArrays.FlattenExact` | crates/graphcal-cli/src/plugin.rs:706-744 | flattening succeeds exactly on rectangular, non-empty nestings of the rank and yields as many leaves as the product of the extents |
| `DenseArrays.FlattenBlames` | crates/graphcal-cli/src/plugin.rs:713-734 | every error is true of a part of the value: a place that is not an array with the levels missing there, an empty array, or two elements that are rectangular but of different shapes |
| `DenseArrays.LeavesRowMajor` | crates/graphcal-cli/src/plugin.rs:736-744 | the leaf under every sequence of positions is at its row-major index |
| `DenseArrays.CheckedProductExact` | crates/graphcal-cli/src/plugin.rs:800-806 | with positive extents the checked product fails exactly when the full product overflows |
| `DenseArrays.RenderRebuilds` | crates/graphcal-cli/src/plugin.rs:785-817 | rendering the leaves by the returned shape rebuilds the nesting, with no overflow and no remainder |
| `DenseArrays.RenderExact` | crates/graphcal-cli/src/plugin.rs:785-817 | a shape of one axis always renders; a longer one renders exactly when its inner extents are positive, their product fits and the values are as many as the extents say |
| `DenseArrays.BracketGrows` | crates/graphcal-cli/src/plugin.rs:792-799 | a rendered list is its parts in brackets, separated by a comma and a space |
| `DenseArrays.AllocateName` | crates/graphcal-cli/src/plugin.rs:590-613 | a name that was not in use is always found, the first free candidate, and is now in use |
| `DenseArrays.TakenCandidates` | crates/graphcal-cli/src/plugin.rs:595-609 | candidates are distinct, so one more candidate than used names includes a free one |
| `DenseArrays.CandidateSpelled` | crates/graphcal-cli/src/plugin.rs:596-600 | the candidates are the base name, then the base name followed by 2, 3 and so on in decimal without leading zeros |
| `DagIds.CompareTotalOrder` | crates/graphcal-compiler/src/dag_id.rs:190-215 | the comparison is a total order whose ties are exactly equal identities |
| `DagIds.CompareStages` | crates/graphcal-compiler/src/dag_id.rs:190-215 | an identity is less exactly by package, then at the first different rendered text or by ending first, then at the first segment where only the other is an instance, then by structure: files, inline DAGs, named and anonymous instances |
| `DagIds.ChildParent` | crates/graphcal-compiler/src/dag_id.rs:348-394 | child constructors keep the file prefix and the parent of a child is the original |
| `DagIds.DescendantIffParents` | crates/graphcal-compiler/src/dag_id.rs:432-445 | being a strict descendant is being reached by iterating the parent |
| `DagIds.FileRoot` | crates/graphcal-compiler/src/dag_id.rs:397-404 | climbing terminates at the file prefix of the identity |
| `DagIds.ScopesBelowExact` | crates/graphcal-compiler/src/dag_id.rs:418-430 | scopes exist exactly for the identity itself and its descendants, one for each further segment: the name of an inline DAG, the scope of an instance |
| `DateTimeLiterals.ValidatorExact` | crates/graphcal-compiler/src/datetime_literal.rs:54-104 | the validator accepts exactly the `date-time` production of section 5.6 of RFC 3339, either letter case, any fraction, days 01-31, seconds 00-59 |
| `DateTimeLiterals.LeapSecondExact` | crates/graphcal-compiler/src/datetime_literal.rs:34-52 | on date-time texts the leap-second test says exactly whether the seconds are 60, and is false on everything the validator accepts |
| `DateTimeLiterals.LeapSecondSpelled` | crates/graphcal-compiler/src/datetime_literal.rs:34-52 | on every text the test holds exactly when the first designator (either letter case or a space) is followed by a time with seconds 60, with colons or in the basic format without |

## Left out

- The numbering, low links and stack marks of Tarjan's loop are sequences that the loop reassigns, not arrays updated in place.
- The three loops of the dependency graph are methods of `GraphLoops` that read the adjacency lists, and the class methods call them: the original has them as private methods of the same type.
- Counters of type `usize` are unbounded here; the proofs bound each of them by the number of nodes or edges.
- Lookup of a key by a borrowed form, iteration and mapping over an order or cycle, and all display code of the graph.
- Library sorts are an insertion sort with proved results, and the heap of the reading-order tool is a set from which a least element is taken, so the cost of both is not modelled.
- The spelling of printed dimensions: tokens carry the base dimension and the exponent, not their text or the owner's name.
- Ratios over 64-bit integers, comparison and text of ratios.
- The signature in a plugin's manifest has no record; here every struct result names one, which the comparison ignores.
- Spans and message texts of all diagnostics, and the location that an overflow reports.
- CallErrors.CheckCall: argument types other than quantities, `Bool`, `Int`, arrays and structs are one kind with a tag, and errors from inferring an argument's own expression are not modelled.
- The tables, `use` paths and crate roots from which the reading-order tool collects dependencies, and its rendering of the guide: the dependency relation and the priorities are inputs. A priority ends with the path, so priorities differ.
- Python's recursion limit in the reading-order tool.
- LockResolution.LockResolver.ResolveRoot: package identities are compared by name, repository and revision; the shortened hash inside the real identity text is taken to be injective. The sorted list of packages is a map, and reading manifests within the budget is part of a fetch; which fetches fail is a parameter.
- SourceTraversal.CollectGclFiles: read errors and cancellation are left out; the directories are those of a finite tree that does not change meanwhile.
- Links and special files are one unsupported kind.
- PackageCaches.PackageCache.MaterializeWith: the source-tree hash is an arbitrary function of the contents, so collisions are allowed. Other processes are kept out by the lock. How the lock, the fetch, each inspection and each move go is a parameter; the budget's part is that an inspection may report it. Removing a temporary directory always succeeds.
- PackageCaches.CacheDirectory.Publish: a move either happens or changes nothing.
- JsonKeys.ScannerAgrees: decoding a key and checking that it is a declaration name is an arbitrary function of the key's bytes; numbers and the words `true`, `false` and `null` are any non-empty run of bytes that are not whitespace, quotes or punctuation, which includes all that RFC 8259 allows. Texts are bytes, not checked as UTF-8.
- Reading the parsed values of parameter files, and the size limits on them.
- DenseArrays.FlattenExact: what a leaf is (number, integer or Boolean) is decided after flattening and is not modelled.
- DenseArrays.AllocateName: the base name derived from the function, and the check that the result spells an identifier.
- DagIds.CompareTotalOrder: include scopes are identified by their text and whether they are anonymous, and texts by their place in the order of texts.
- Module paths and file paths of identities (`module_path_key`, `from_relative_path`).
- DateTimeLiterals.ValidatorExact: calendar days beyond 01-31, conversion to an instant, and civil and zoned literals are not modelled.
- Fetching, checking out, file locks, the plugin host, command-line parsing and report rendering.
- Procedural macro derives, built-in tables, floating-point and complex values, and the scripts around mutation tests.
