# Want: a verified model

Want compiles a build module, a tree of files with expressions in it, to a graph of jobs and runs the
graph in parallel. This project models the parts of it that decide whether a build is right, and proves
what they promise. `dafny verify dfyconfig.toml` checks everything.

| part | files |
|---|---|
| path sets: terms, three-valued procedures, rewriter, bounding prefixes, configuration form | `StringSets.dfy`, `Simplify.dfy`, `BoundingPrefix.dfy`, `PathSets.dfy` |
| build graphs: values, serial interpreter, parallel scheduler, stored form, run after storage | `Dag.dfy`, `SerialExec.dfy`, `ParallelExec.dfy`, `InterleavedExec.dfy`, `NodeList.dfy`, `DagStore.dfy`, `StoredRun.dfy` |
| compiler: expressions and keys, their meaning as references and as files, the graph builder | `Exprs.dfy`, `Meaning.dfy`, `Files.dfy`, `FileMeaning.dfy`, `LawfulWorld.dfy`, `GraphBuilder.dfy` |
| selections: the dependency search and lowering; paths and the virtual filesystem index; all stages together | `Selections.dfy`, `SelectionMeaning.dfy`, `Paths.dfy`, `Vfs.dfy`, `Compilation.dfy` |
| runtime: stream multiplexer, content store, job cache | `StreamMux.dfy`, `ContentStore.dfy`, `JobCache.dfy` |

The central result is a chain. `Simplify.SimplifyMeaning` says that rewriting a path set keeps its
members. `GraphBuilders.GraphBuilder.Compile` says that the node a selection-free expression is compiled to
evaluates to what the expression denotes. `DagStore.StoredRoundTrip` says that storing a graph loses
nothing but the order of inputs, and `StoredRun.SortedValues` that this order does not matter.
`ParallelExec.ParallelRefinesSerial` says that every schedule of the parallel run ends as the serial run
ends. `Compilation.BuildTarget` puts them together, from the index of source files to the result.

Jobs, marshalling and posting are deterministic functions in the record `Dag.World`. `Meaning.Lawful` and
`StoredRun.OrderBlind` list what is assumed of them. References are opaque; what one holds is a map from paths
to data, and the assumptions say, in terms of these maps, what posting a tree does and what the operations
`glfs.place`, `glfs.filterPathSet`, `glfs.merge` and `glfs.pass` do when they succeed
(src/internal/op/glfsops/ops.go). They are made only for what occurs in one compilation.
`LawfulWorld.LawfulWorldExists` shows a world that meets all of them. Hashing is assumed to have no collision
among the finitely many encodings of one compilation (`Exprs.KeysFaithful`), which a 256-bit hash can satisfy;
it is not assumed to be injective, which it cannot be.

## What the code does not do

These follow from the code and are proved or modelled as they are.

- The seeding loop of the scheduler reads counters that workers already decrement. With workers running
  during the loop, launching each node at most once is guaranteed exactly for graphs without edges
  (`ParallelExec.InterleavedSeedingSafeIff`). A run that launches a node twice can start another node before
  its inputs exist and fail where the serial run succeeds (`ParallelExec.RaceBreaksRefinement`); every run
  that does not ends as the serial run ends (`ParallelExec.InterleavedRefinesSerial`). So does every run of a
  graph in which a node that waits for a derived node waits, apart from it, only for what that node itself
  depends on (`InterleavedExec.StaggeredRefinesSerial`). The results that run the scheduler as a method let
  workers start after the loop.
- The cycle search unwinds its path before the check that would report it looks at it, so `detectCycles`
  never returns an error (`Selections.CycleDetector.DetectCycles`, `Compilation.MissCycle`). Its boolean
  verdict is exact.
- Selections of one path set share a key whatever their module and kind, so the cache gives the second of a
  ground and a derived selection the answer of the first, which is never right
  (`Selections.LowerGroundThenDerived`). Lowering yields the expansion of every expression if expressions with
  equal keys have equal expansions; freedom from selections holds without that.
- New index nodes copy the parent pointer of their parent, which is null, so the upward walk of `VFS.Get`
  takes no step. With keys of the two shapes files use, the index is right for all anchored queries
  (`Vfs.VFS.Get`). A query by a prefix that ends inside a path segment can miss entries
  (`Vfs.PrefixQueryCompleteIff`). Statements can bring keys of other shapes, and then the conflict test finds
  an entry exactly if the search starts at or above its place (`Vfs.SeenIff`). A statement for two paths of one
  directory, which the guard accepts, is missed once the subdirectory of the other path exists
  (`Vfs.PairUnseen`, `Vfs.MissConflict`).
- The comment on the bounding prefix promises the longest prefix of a set. A conjunction is answered only
  if both sides have equal bounds and panics otherwise (`BoundingPrefixes.ConjunctionAnsweredIff`,
  `BoundingPrefixes.PrefixAndSuffixBound`). The compiler itself makes such conjunctions: a derived selection by
  prefix in an expression file below that prefix panics when it is looked up
  (`BoundingPrefixes.SelectionWithoutSelfBound`).
- `Intersects` answering true and `Superset` answering false can be wrong
  (`StringSets.EmptyBranchMisleads`, `StringSets.ExcludedMiddleMisleads`,
  `StringSets.EmptyAffixMisleads`). When they are right is stated by `StringSets.IntersectsTrueExact` and
  `StringSets.SupersetFalseExact`; on single paths they always are (`Simplify.UnitVerdictsExact`). The order of
  the arguments of `Intersects` can matter, but only for disjoint sets, and for decided verdicts only if one
  has an unsatisfiable branch (`Simplify.OrderMattersIff`, `PathSets.OrderMattersForRecords`). The
  guard on statement files is exact on sets built from paths and prefixes
  (`BoundingPrefixes.GuardExactOnLiterals`), but at the root it rejects the paths with a given suffix
  (`Simplify.GuardOnSuffix`).
- An empty write on an open stream reaches the peer as a close, and the peer then locks a mutex it already
  holds (`StreamMux.EmptyWriteBreaks`).
- Deleting a blob through store 0 counts down without removing a row (`ContentStore.DeleteFromStoreZero`),
  and copying a store inserts rows without counting them (`ContentStore.CopyConservesIff`).
- The node list reader does not check that offsets stay inside the list, so `GetDAG` accepts graphs on which
  the executor indexes out of range (`DagStore.ReadBadGraph`); what it accepts is in order exactly if no offset
  reaches back before the first node (`DagStore.DecodedTopologicalIff`).

## Model

| member | source | states |
|---|---|---|
| `StringSets.IntersectsSound` | src/internal/stringsets/set.go:26-34 | for all terms and strings, `intersects` answering false means no common member, through the mutual recursion with `superset` |
| `StringSets.SupersetSound` | src/internal/stringsets/set.go:44-49 | for all terms and strings, `superset` answering true means every member of the second is a member of the first |
| `StringSets.OwnIntersectsSound` | src/internal/stringsets/boolean.go:17-25 | the same for the methods of the single terms: units, prefixes, suffixes, conjunctions, unions, complements |
| `StringSets.IntersectsFalseIsDisjoint` | src/internal/stringsets/not.go:28-36 | a false verdict is disjointness of the two sets |
| `StringSets.SupersetTrueIsSubsumes` | src/internal/stringsets/not.go:15-26 | a true verdict is containment |
| `StringSets.IntersectsTrueMeets` | src/internal/stringsets/boolean.go:114-124 | the opposite polarity: with both sets nonempty along every union branch, a true verdict has a common member |
| `StringSets.PrefixMeets` | src/internal/stringsets/ix.go:20-33 | the witness when a prefix is asked; for a suffix it is the concatenation |
| `StringSets.SuffixMeets` | src/internal/stringsets/ix.go:72-85 | the witness when a suffix is asked |
| `StringSets.IntersectsTrueExact` | src/internal/stringsets/set.go:26-34 | for terms that are not unions a true verdict is right if and only if both sets are nonempty |
| `StringSets.TopIntersects` | src/internal/stringsets/set.go:96-110 | the universe, asked first, answers true for every set, rightly if and only if the set is nonempty; asked second it may be overruled |
| `StringSets.EmptyBranchMisleads` | src/internal/stringsets/boolean.go:114-124 | nonemptiness of the whole sets is not enough: a union with one unsatisfiable branch answers true for a set it does not meet |
| `StringSets.SupersetFalseEscapes` | src/internal/stringsets/boolean.go:27-37 | without unions, empty affixes or unsatisfiable complements, a false `superset` verdict has a member that escapes |
| `StringSets.PrefixEscape` | src/internal/stringsets/ix.go:35-52 | a prefix that answers false is right if and only if it is not empty |
| `StringSets.SuffixEscape` | src/internal/stringsets/ix.go:87-104 | a suffix that answers false is right if and only if it is not empty |
| `StringSets.ComplementEscape` | src/internal/stringsets/not.go:15-26 | a complement that answers false is right, where neither side is a union, if and only if both are nonempty |
| `StringSets.SupersetFalseExact` | src/internal/stringsets/set.go:44-49 | for every pair, term by term, when a false `superset` verdict is right: units always, affixes unless empty, conjunctions by their parts, complements and the empty set by nonemptiness |
| `StringSets.UnitDecided` | src/internal/stringsets/unit.go:9-39 | against a single path every term decides: `superset` is membership, and `intersects` is false exactly for non-members |
| `StringSets.ExcludedMiddleMisleads` | src/internal/stringsets/boolean.go:126-136 | why unions are excluded: a prefix joined with its complement holds everything, and answers false for exactly the prefixes properly shorter than it |
| `StringSets.EmptyAffixMisleads` | src/internal/stringsets/ix.go:35-104 | why empty affixes are excluded: they hold everything, and answer false for exactly the nonempty affixes of the other kind |
| `Simplify.DistMeaning` | src/internal/stringsets/boolean.go:74-97 | distributing a conjunction over a nested one keeps its members |
| `Simplify.DistSmaller` | src/internal/stringsets/boolean.go:74-97 | both halves are smaller than the conjunction, which is why `simplify` terminates |
| `Simplify.ConjunctionCases` | src/internal/stringsets/boolean.go:43-60 | each verdict-guarded replacement of a conjunction keeps its members |
| `Simplify.DisjunctionCases` | src/internal/stringsets/boolean.go:142-157 | each verdict-guarded replacement of a union keeps its members |
| `Simplify.SimplifyTermMeaning` | src/internal/stringsets/boolean.go:43-157 | `simplify` on any term terminates and keeps its members |
| `Simplify.DeMorganDecreases` | src/internal/stringsets/simplify.go:25-51 | moving a complement inward decreases the termination measure although the term grows |
| `Simplify.DistributeMeaning` | src/internal/stringsets/simplify.go:53-86 | pushing a conjunction through unions keeps its members |
| `Simplify.SumOfMintermsMeaning` | src/internal/stringsets/simplify.go:25-86 | the sum of minterms terminates and keeps the members |
| `Simplify.RoundsMeaning` | src/internal/stringsets/simplify.go:7-23 | any number of rounds keeps the members |
| `Simplify.SimplifyMeaning` | src/internal/stringsets/simplify.go:7-17 | `Simplify` keeps the members of every term |
| `Simplify.SimplifyLoop` | src/internal/stringsets/simplify.go:7-17 | the loop with its early exit computes at most three rounds and returns a set with the same members |
| `Simplify.EqualTermsSameMembers` | src/internal/stringsets/simplify.go:88-92 | sets that `Equals` accepts have the same members |
| `Simplify.IntersectsFalseDisjoint` | src/internal/stringsets/set.go:19-24 | the public verdict false means disjoint, including the fallback through simplification |
| `Simplify.SupersetTrueSubsumes` | src/internal/stringsets/set.go:36-42 | the public verdict true means contained, including the fallback |
| `Simplify.AcceptedStatementStaysInside` | src/internal/wantc/compiler.go:303-308 | every path a statement that passes the guard affects starts with the directory prefix |
| `Simplify.MeetIntersects` | src/internal/stringsets/set.go:19-24 | sets with a common member are reported to intersect, in either order |
| `Simplify.OrderIrrelevant` | src/internal/stringsets/set.go:19-34 | for decided verdicts the order of arguments does not matter if both sets are nonempty along every union branch |
| `Simplify.OrderMattersIff` | src/internal/stringsets/set.go:19-34 | a decided verdict depends on the order if and only if both terms know an answer and these differ; then the sets are disjoint and one has an unsatisfiable branch |
| `Simplify.OrderMattersOnlyIfDisjoint` | src/internal/stringsets/set.go:19-24 | for all terms, decided or not, the order matters only for disjoint sets |
| `Simplify.UndecidedOrderMatters` | src/internal/stringsets/set.go:19-24 | a pair undecided in both orders and answered differently after simplification |
| `Simplify.UniverseOrderMattersIff` | src/internal/stringsets/set.go:96-110 | for every set, swapping it with the universe changes the answer if and only if the set finds itself disjoint from the universe |
| `Simplify.UnitVerdictsExact` | src/internal/stringsets/set.go:19-42 | for every term, the public verdicts about a single path are membership |
| `Simplify.GuardOnSuffix` | src/internal/wantc/compiler.go:303-308 | for every directory and suffix: the paths with the suffix lie below the directory if and only if it is the root, and the guard accepts them if and only if, besides, the suffix is empty |
| `BoundingPrefixes.CommonPrefixLenLoop` | src/internal/stringsets/util.go:70-77 | the loop finds the first difference |
| `BoundingPrefixes.CommonPrefixIsGreatest` | src/internal/stringsets/util.go:55-77 | a string is a prefix of both exactly when it is a prefix of the common prefix |
| `BoundingPrefixes.LongestCommonPrefix` | src/internal/stringsets/util.go:55-67 | over any list, the prefixes of the answer are exactly the common prefixes, whichever exit is taken |
| `BoundingPrefixes.BudgetIrrelevant` | src/internal/stringsets/util.go:24-53 | a run that ends within some depth gives the same answer at any greater depth |
| `BoundingPrefixes.BoundingPrefixSound` | src/internal/stringsets/util.go:24-53 | whenever it returns, every member starts with the returned string |
| `BoundingPrefixes.ConjunctionAnsweredIff` | src/internal/stringsets/util.go:43-49 | a conjunction with two bounds is answered if and only if the bounds are equal |
| `BoundingPrefixes.PrefixAndSuffixBound` | src/internal/stringsets/util.go:43-49 | for all prefixes and suffixes, the paths with the suffix below the prefix have a bounding prefix if and only if the prefix is empty, and otherwise the code panics |
| `BoundingPrefixes.LiteralBoundIsLongest` | src/internal/wantc/selections.go:18-21 | on unions of units and prefixes it terminates without panic, and a string bounds the set if and only if it is a prefix of the answer |
| `BoundingPrefixes.PrefixWithoutUnitBound` | src/internal/stringsets/util.go:43-49 | for all prefixes without one path: the prefix if the path is outside, nothing if the prefix is empty, and a panic otherwise |
| `BoundingPrefixes.SelectionWithoutSelfBound` | src/internal/wantc/expr.go:219-227 | the same for what the compiler makes of a derived selection by prefix in an expression file, from which the file's own paths are taken: a panic whenever the file lies below a nonempty prefix |
| `BoundingPrefixes.SelectionOfSelfEmpty` | src/internal/wantc/expr.go:226-231 | if the prefix lies among the file's own paths, the selection is found empty |
| `BoundingPrefixes.GuardExactOnLiterals` | src/internal/wantc/compiler.go:303-308 | for sets built from paths and prefixes the guard accepts exactly those below the directory, through the fallback simplification |
| `BoundingPrefixes.GuardExactOnPrefixAndSuffix` | src/internal/wantc/compiler.go:303-308 | so it does for the paths with a given prefix and suffix |
| `PathSets.UnionMeaning` | src/internal/stringsets/set.go:72-87 | the halving union of any list has the members of its elements |
| `PathSets.IntersectionMeaning` | src/internal/stringsets/set.go:55-70 | the halving intersection has the common members |
| `PathSets.FromPathSetMeaning` | src/internal/stringsets/util.go:93-116 | for every nested record, the converted term has the members the record denotes |
| `PathSets.ToPathSetMeaning` | src/internal/stringsets/util.go:118-137 | the record made from a term denotes its members |
| `PathSets.RoundTripMeaning` | src/internal/stringsets/util.go:93-137 | there and back keeps the members, for terms without universe and empty set |
| `PathSets.OrderMattersForRecords` | src/internal/stringsets/util.go:93-116 | configuration records whose sets answer differently in the two orders |
| `Dag.PrepareInputLoop` | src/internal/wantdag/wantdag.go:20-45 | the loop with its early returns assembles one entry per input or the first error in input order |
| `Dag.EntriesFailIff` | src/internal/wantdag/wantdag.go:22-31 | assembling fails if and only if some upstream result is an error or does not parse |
| `Dag.FirstError` | src/internal/wantdag/wantdag.go:22-31 | the error is that of the first input that is an error or does not parse, and names its node and code or quotes what does not parse |
| `Dag.EntriesInOrder` | src/internal/wantdag/wantdag.go:22-40 | otherwise there is one entry per input, in order, with the input's name and the reference its result holds |
| `Dag.ValueFromResults` | src/internal/wantdag/serialexec.go:30-66 | a node's value depends only on the values of its inputs, wherever they are stored |
| `Dag.BlockedValue` | src/internal/wantdag/wantdag.go:22-31 | a derived node with an input that has no value has none |
| `Dag.ValuesStable` | src/internal/wantdag/dag.go:117-140 | appending nodes changes no earlier value |
| `SerialExec.SerialExecAll` | src/internal/wantdag/serialexec.go:22-68 | succeeds if and only if every node evaluates, then with every node's value; otherwise reports the error of the first node that does not |
| `SerialExec.SerialExecLast` | src/internal/wantdag/serialexec.go:12-19 | the last node's value, if every node evaluates |
| `ParallelExec.Prepare` | src/internal/wantdag/parallelexec.go:16-28 | the set-up loops record each edge once with multiplicity and each node's number of inputs |
| `ParallelExec.RecordInputs` | src/internal/wantdag/parallelexec.go:23-26 | the inner loop appends the node to the list of each of its inputs |
| `ParallelExec.UnblocksMember` | src/internal/wantdag/parallelexec.go:22-28 | a node is in the list of another exactly when it has it as an input |
| `ParallelExec.UnblocksCount` | src/internal/wantdag/parallelexec.go:22-28 | and as often as it has it |
| `ParallelExec.RemainingAfterRelease` | src/internal/wantdag/parallelexec.go:66-68 | one release removes exactly one unreleased edge |
| `ParallelExec.InputsReady` | src/internal/wantdag/parallelexec.go:66-71 | when a node is launched all its inputs hold their final results |
| `ParallelExec.WorkerStepInv` | src/internal/wantdag/parallelexec.go:32-73 | every step of a worker keeps the invariant: computing, releasing, ending, failing, being cancelled |
| `ParallelExec.SeedInv` | src/internal/wantdag/parallelexec.go:74-79 | one seeding iteration keeps the invariant unless it meets a node with inputs whose counter is already zero, and then launches it twice |
| `ParallelExec.SchedulerSafety` | src/internal/wantdag/parallelexec.go:15-85 | in every state of every run counters equal unreleased edges, no node has two workers, and launched nodes have all inputs |
| `ParallelExec.QuiescentCompletes` | src/internal/wantdag/parallelexec.go:80-82 | a run at rest without failures has executed every node |
| `ParallelExec.QuiescentMatchesSerial` | src/internal/wantdag/parallelexec.go:80-84 | a run at rest fails if and only if the serial run fails; otherwise all results agree |
| `ParallelExec.ParallelRefinesSerial` | src/internal/wantdag/parallelexec.go:15-85 | the same for every finished run of every nonempty graph under every interleaving |
| `ParallelExec.StepProgress` | src/internal/wantdag/parallelexec.go:32-73 | every worker step launches a node or leaves less work |
| `ParallelExec.ParallelExecLast` | src/internal/wantdag/parallelexec.go:15-85 | under an arbitrary schedule the scheduler terminates with the serial answer |
| `ParallelExec.RaceOnFirst` | src/internal/wantdag/parallelexec.go:66-79 | with interleaved seeding, a run that launches the first node with inputs twice, for every graph that has one |
| `ParallelExec.InterleavedSeedingSafeIff` | src/internal/wantdag/parallelexec.go:66-79 | with interleaved seeding no node is ever launched twice if and only if no node has inputs |
| `ParallelExec.TwoNodeRace` | src/internal/wantdag/parallelexec.go:66-79 | the smallest graph with the race |
| `ParallelExec.InterleavedRunInv` | src/internal/wantdag/parallelexec.go:66-79 | with interleaved seeding the invariant holds as long as no node has two workers |
| `ParallelExec.RunSafeIff` | src/internal/wantdag/parallelexec.go:66-79 | over any interleaving no node is launched twice if and only if the seeding loop never meets a node that has inputs and a counter already at zero |
| `ParallelExec.InterleavedSafety` | src/internal/wantdag/parallelexec.go:15-85 | in every state of every interleaved run without a double launch counters equal unreleased edges and launched nodes have all inputs |
| `ParallelExec.InterleavedRefinesSerial` | src/internal/wantdag/parallelexec.go:15-85 | every finished run, with seeding interleaved as in the code, launches some node twice or ends as the serial run ends |
| `ParallelExec.RaceBreaksRefinement` | src/internal/wantdag/parallelexec.go:66-79 | a duplicate worker's releases launch a node before one of its inputs has even a worker; every run that begins so fails although the serial run succeeds |
| `InterleavedExec.ReleaseCounted` | src/internal/wantdag/parallelexec.go:66-68 | with any number of workers on a node, each counter equals the inputs minus what all workers together have released |
| `InterleavedExec.TriggeredReady` | src/internal/wantdag/parallelexec.go:66-71 | in a staggered graph a counter at zero means that every input has its result, even if nodes were launched twice |
| `InterleavedExec.StepLoose` | src/internal/wantdag/parallelexec.go:32-79 | every step, seeding and workers interleaved, keeps the invariant of staggered graphs |
| `InterleavedExec.StaggeredSafety` | src/internal/wantdag/parallelexec.go:15-85 | in every state of every interleaved run of a staggered graph launched nodes have the final results of their inputs |
| `InterleavedExec.StaggeredRefinesSerial` | src/internal/wantdag/parallelexec.go:15-85 | every finished interleaved run of a staggered graph ends as the serial run ends |
| `InterleavedExec.SimpleGraphsStaggered` | src/internal/wantdag/parallelexec.go:66-79 | graphs whose nodes each have inputs from one node only, or only from nodes without inputs, are staggered |
| `InterleavedExec.DiamondNotStaggered` | src/internal/wantdag/parallelexec.go:66-79 | the graph on which the race does harm is not |
| `NodeList.SortBySorts` | src/internal/wantdag/nodelist_rw.go:60-62 | inputs are sorted by name and none is lost or added |
| `NodeList.LexLeIff` | src/internal/wantdag/nodelist_rw.go:60-62 | the order of names: the first difference decides, and a prefix comes first |
| `NodeList.SortedUnique` | src/internal/wantdag/nodelist_rw.go:60-62 | with distinct names the sorted list is unique, so the choice of algorithm does not matter |
| `NodeList.NodeRoundTrip` | src/internal/wantdag/nodelist_rw.go:45-109 | an encoded input has its name and the position minus the node it refers to, between 1 and the position; decoding gives the node with its inputs sorted |
| `NodeList.DecodedBackwardIff` | src/internal/wantdag/nodelist_rw.go:98-106 | where a decoded input refers, with wrap-around: backwards if and only if its offset is at most the position, and into the graph at all only if it does or the graph is large enough for the wrapped number |
| `NodeList.NodeListWriter.Add` | src/internal/wantdag/nodelist_rw.go:45-72 | appends the encoding, or rejects exactly zero facts and self or forward references without a change |
| `NodeList.NodeListReader.Read` | src/internal/wantdag/nodelist_rw.go:87-109 | decodes the next node unless an offset is zero, and then names the first such input |
| `DagStore.NodeNameInjective` | src/internal/wantdag/dag.go:103-105 | nodes of one graph have different fact names |
| `DagStore.HexReadBack` | src/internal/wantdag/dag.go:103-105 | reading a written number digit by digit, by the value of each character, gives the number |
| `DagStore.HexOrdered` | src/internal/wantc/graph_glfs.go:30-36 | numbers written at one width are in the order of the numbers |
| `DagStore.NodeNameRead` | src/internal/wantdag/dag.go:103-105 | a node's name has sixteen digits that read as its number, and names are in the order of the nodes |
| `DagStore.FactsLookup` | src/internal/wantdag/dag.go:43-51 | a graph's own table finds every fact under its node's name and nothing else |
| `DagStore.StorableIff` | src/internal/wantdag/nodelist_rw.go:46-54 | the writer's node-by-node demands amount to topological order and nonzero facts |
| `DagStore.PostDAG` | src/internal/wantdag/dag.go:58-89 | succeeds if and only if the graph is topologically ordered and no fact is zero, then with the fact table and all encodings |
| `DagStore.ReadNodes` | src/internal/wantdag/dag.go:37-41 | reads the whole list if and only if no offset is zero |
| `DagStore.DecodedTopologicalIff` | src/internal/wantdag/nodelist_rw.go:98-106 | a graph that is read is topologically ordered if and only if no offset reaches back before the first node |
| `DagStore.GetDAG` | src/internal/wantdag/dag.go:17-56 | succeeds if and only if offsets are nonzero, every fact is listed with its value, and nothing else is listed; each failure says which of these does not hold; the graph is topologically ordered if and only if no offset reaches back before the first node |
| `DagStore.ReadBadGraph` | src/internal/wantdag/parallelexec.go:22-26 | for every operation, name and offset, a graph that reading accepts whose only node has an input outside the graph, which the executor uses as an index |
| `DagStore.StoredRoundTrip` | src/internal/wantdag/dag.go:17-89 | what posting stores passes every check of reading and decodes to the graph with sorted inputs |
| `DagStore.SortedDagUnchanged` | src/internal/wantdag/node.go:73-81 | a graph whose inputs are sorted, as validation demands, is stored unchanged |
| `DagStore.PostAndGet` | src/internal/wantdag/dag.go:17-89 | post, then get: the sorted graph, or nothing if it cannot be stored |
| `StoredRun.SortedEntries` | src/internal/wantdag/wantdag.go:20-40 | assembling sorted inputs fails exactly when assembling the original ones does, and otherwise gives the same entries sorted |
| `StoredRun.SortedPrepare` | src/internal/wantdag/wantdag.go:20-45 | the prepared input does not depend on the order of the inputs |
| `StoredRun.SortedValues` | src/internal/wantdag/dag.go:17-89 | every node of the stored graph has the value it had before |
| `StoredRun.PostGetRun` | src/internal/op/dagops/dagops.go:31-45 | posting, reading and running in parallel gives the outcome of the original graph; it fails to post only on a zero fact and never fails to read |
| `StoredRun.RunStored` | src/internal/op/dagops/dagops.go:31-45 | a compiled target run after storage yields its expression's reference, exactly when there is one |
| `Exprs.InputBytesSnoc` | src/internal/wantc/expr.go:55-61 | appending one input's bytes to the buffer is encoding the longer list |
| `Exprs.ComputeKey` | src/internal/wantc/expr.go:49-63 | the buffer-appending loop hashes the length-prefixed encoding |
| `Exprs.ComputeBytesInjective` | src/internal/wantc/expr.go:49-63 | the encoding is uniquely decodable |
| `Exprs.ReadComputeBack` | src/internal/wantc/expr.go:49-63 | a reader with big-endian lengths gets the operation and the inputs back from the encoding |
| `Exprs.KeyInjective` | src/internal/wantc/expr.go:49-63 | within one compilation equal keys mean equal expressions up to file modes |
| `Meaning.MergedConcat` | src/internal/wantc/graph.go:119-140 | merging a concatenation is merging the merged parts |
| `Meaning.MergedNeedsAll` | src/internal/wantdag/wantdag.go:22-31 | a merge has a value only if every layer has one; it may fail on layers that have |
| `Meaning.LayerNamesOrdered` | src/internal/wantc/graph_glfs.go:30-36 | layers are named in their order, by two hexadecimal digits |
| `Files.TreeSub` | src/internal/wantdag/wantdag.go:32-44 | in a posted tree each name leads to what was put there |
| `Files.MergedTreeIsStack` | src/internal/op/glfsops/ops.go:52-64 | merging a tree in the order of its names stacks the layers, the last one uppermost |
| `FileMeaning.InputHolds` | src/internal/wantdag/wantdag.go:41-44 | an operation gets a single unnamed reference as it is, and otherwise a tree of all references under their names |
| `FileMeaning.PlaceFiles` | src/internal/wantc/graph.go:158-168 | placing moves the files of a reference below the cleaned destination |
| `FileMeaning.MergedFiles` | src/internal/wantc/graph.go:119-140 | merged layers hold nothing else than their files, and without conflicts their files on top of each other |
| `FileMeaning.ComputeFiles` | src/internal/wantc/graph.go:83-117 | a computation that has a value was run on its inputs, each placed, on top of each other |
| `Meaning.ExprRefErased` | src/internal/wantc/expr.go:49-63 | file modes, which keys ignore, do not change the meaning |
| `Meaning.DerivedNodeRef` | src/internal/wantdag/parallelexec.go:40-60 | a derived node evaluates to its operation run on its inputs' references |
| `Meaning.NodeRefStable` | src/internal/wantdag/dag.go:117-140 | appending nodes changes no earlier node's reference |
| `GraphBuilders.BatchSizeBounds` | src/internal/wantc/graph.go:123-127 | batches are smaller than the whole and 64 of them suffice |
| `GraphBuilders.GraphBuilder.IndexStable` | src/internal/wantc/graph.go:59-81 | every index entry stays right as nodes are appended |
| `GraphBuilders.GraphBuilder.HitIsRight` | src/internal/wantc/graph.go:59-64 | an index hit evaluates to the expression that is looked up |
| `GraphBuilders.GraphBuilder.Fact` | src/internal/wantdag/dag.go:117-126 | appends a fact that evaluates to its reference |
| `GraphBuilders.GraphBuilder.Derived` | src/internal/wantdag/dag.go:128-140 | appends a derived node, or rejects exactly references to nodes that do not exist yet |
| `GraphBuilders.GraphBuilder.DeriveMerge` | src/internal/wantc/graph_glfs.go:25-38 | one node with at most 64 inputs, named in the order of the layers, that evaluates to their merge |
| `GraphBuilders.GraphBuilder.MergeBatches` | src/internal/wantc/graph.go:123-138 | the batch loop ends with between 2 and 64 nodes that merge to the whole, in order; no node has more than 64 inputs |
| `GraphBuilders.GraphBuilder.MergeLayers` | src/internal/wantc/graph.go:119-140 | terminates on any nonempty list with fewer than twice as many nodes as layers, none of which has more than 64 inputs, and equals the flat merge |
| `GraphBuilders.GraphBuilder.Place` | src/internal/wantc/graph.go:158-168 | the node holds the files of what is placed, moved below the cleaned destination; the empty path adds nothing |
| `GraphBuilders.GraphBuilder.CompileInputs` | src/internal/wantc/graph.go:91-104 | one layer per input, in order, each evaluating to the placed input |
| `GraphBuilders.GraphBuilder.CompileCompute` | src/internal/wantc/graph.go:83-117 | the node of a computation evaluates to its meaning, for no, one and many layers |
| `GraphBuilders.GraphBuilder.Compile` | src/internal/wantc/graph.go:51-81 | the node of any selection-free expression evaluates to its meaning; it is the last node unless it was found in the index; the number of new nodes is bounded by the expression, none has more than 64 inputs, and none is a zero fact if the expression has no zero reference |
| `GraphBuilders.MakeGraph` | src/internal/wantc/compiler.go:548-558 | the last node of a target's graph evaluates to the placed meaning and holds its files below the destination, and then every node evaluates; size and facts are bounded by the expression |
| `GraphBuilders.CompileAndRun` | src/internal/wantc/compiler.go:548-558 | compiled and run in parallel under any schedule, the result holds the placed meaning exactly when there is one |
| `Selections.AcyclicFromSuccessors` | src/internal/wantc/compiler.go:447-469 | if no cycle is reachable from any successor, none is reachable from the set itself |
| `Selections.SuccessorsAcyclic` | src/internal/wantc/compiler.go:447-469 | the converse |
| `Selections.CycleDetector.Dfs` | src/internal/wantc/compiler.go:447-469 | true: no cycle is reachable; false: the current path extends through the set to a cycle; path and current set are restored |
| `Selections.CycleDetector.TraverseExpr` | src/internal/wantc/compiler.go:432-446 | the same for all selections inside an expression |
| `Selections.CycleDetector.DetectCycles` | src/internal/wantc/compiler.go:424-493 | the verdict of each root is true if and only if no cycle is reachable from it; no error is ever returned |
| `Selections.QuerySelects` | src/internal/wantc/selections.go:36-84 | what a derived selection lowers to selects only successors of its set |
| `Selections.GroundAndDerivedDiffer` | src/internal/wantc/compiler.go:400-416 | a ground and a derived selection never have a common expansion |
| `Selections.LowerClashing` | src/internal/wantc/compiler.go:372-380 | of two expressions with one key the second gets the answer of the first, which is right if and only if their expansions coincide; the first succeeds if and only if it has an expansion |
| `Selections.LowerGroundThenDerived` | src/internal/wantc/compiler.go:372-422 | whenever a ground selection has an answer, a derived selection of the same set lowered after it gets that answer, and it is never right |
| `Selections.NotExpandingAlready` | src/internal/wantc/compiler.go:372-422 | in an acyclic graph no set is expanded inside its own expansion, so lowering terminates |
| `Selections.OnlyExpansion` | src/internal/wantc/compiler.go:372-422 | an expression has at most one full expansion |
| `Selections.OnlyThisModule` | src/internal/wantc/compiler.go:399-414 | only selections of the module being compiled, of sets with a configuration form, can be expanded |
| `Selections.ErrorMeans` | src/internal/wantc/compiler.go:399-414 | what each error of lowering stands for |
| `Selections.Lowerer.ReplaceSelections` | src/internal/wantc/compiler.go:372-422 | terminates on acyclic graphs; what it returns is selection-free, is a cached answer if there is one, is cached, and is the full expansion when expressions with equal keys have equal expansions; it fails only for expressions without an expansion |
| `Selections.Lowerer.ReplaceInputs` | src/internal/wantc/compiler.go:382-398 | the same over the inputs of a computation, stopping at the first failure |
| `SelectionMeaning.FilteredExpr` | src/internal/wantc/compiler.go:595-612 | a filtered expression holds exactly the selected files |
| `SelectionMeaning.PlacedExpr` | src/internal/wantc/selections.go:54-69 | a placed expression holds its files below the path |
| `SelectionMeaning.DerivedSelectionFiles` | src/internal/wantc/selections.go:36-84 | a derived selection that evaluates holds only selected paths; without conflicts it holds the files of the entries found, each placed and filtered, in the order they are found, the last one uppermost |
| `SelectionMeaning.GroundSelectionFiles` | src/internal/wantc/selections.go:86-110 | a ground selection holds exactly the module's own files at the selected paths |
| `Selections.LowerSelections` | src/internal/wantc/compiler.go:343-370 | lowers every root in place so that the graph builder's selection panic is unreachable; a failure is at a root without an expansion and leaves it and the remaining ones unchanged |
| `Compilation.LookUpAll` | src/internal/wantc/compiler.go:465 | the answers of the index to all queries form a lookup for the search and for lowering |
| `Compilation.ConsultedClosed` | src/internal/wantc/compiler.go:447-469 | the selection graph of an index is finite |
| `Compilation.MissCycle` | src/internal/wantc/compiler.go:424-493 | two expression files that select each other: the index accepts both, the verdict is false, and no error is returned |
| `Compilation.BuildTarget` | src/internal/wantc/compiler.go:343-558 | from the index to the result: cycles are found exactly and lowering fails exactly for expressions without an expansion; otherwise the graph is no larger than the expansion allows, and only more than 2^32 nodes or a zero fact keep it from running; the run delivers the placed meaning of the expansion, exactly when there is one, with its files below the destination |
| `Paths.SplitJoin` | src/internal/wantc/vfs.go:59-63 | splitting a joined path gives its segments |
| `Paths.BelowIff` | src/internal/wantc/expr_file.go:47-49 | a path string lies below another's directory if and only if the path strictly extends it |
| `Paths.KeyBound` | src/internal/wantc/vfs.go:59-63 | the bounding prefix of a file's or tree's key is its path |
| `Paths.KeysDecided` | src/internal/stringsets/set.go:26-34 | on the two key shapes the three-valued procedure always answers |
| `Paths.KeysIntersectIff` | src/internal/stringsets/set.go:19-24 | on the two key shapes the public test is exact, and is decided by the paths |
| `Vfs.StoredDisjoint` | src/internal/wantc/vfs.go:14-22 | stored keys are pairwise disjoint |
| `Vfs.FileOne` | src/internal/wantc/vfs.go:19-20 | filing a key that overlaps no filed key keeps every entry in place, every node populated and trees without descendants |
| `Vfs.VFS.Closest` | src/internal/wantc/vfs.go:105-114 | the deepest existing node on the way to a path |
| `Vfs.VFS.AddChild` | src/internal/wantc/vfs.go:120-126 | one new empty node, with its parent's null parent pointer |
| `Vfs.VFS.MakeRoom` | src/internal/wantc/vfs.go:116-128 | creates exactly the missing nodes on the way to a path |
| `Vfs.VFS.Collect` | src/internal/wantc/vfs.go:88-103 | the intersecting entries of a subtree, each once, in whatever order children are visited |
| `Vfs.VFS.CollectChildren` | src/internal/wantc/vfs.go:92-96 | those below the children |
| `Vfs.VFS.CollectOwn` | src/internal/wantc/vfs.go:97-101 | those at the node |
| `Vfs.VFS.Get` | src/internal/wantc/vfs.go:24-45 | for every query that has a bounding prefix and keys of any shape, exactly the stored entries that intersect it and are filed at or below the deepest existing node on the way; with keys of the two file shapes and anchored queries, everything the query meets, each once, and exactly that where the intersection test is exact |
| `Vfs.KeyAnchored` | src/internal/wantc/vfs.go:59-63 | file and tree keys are anchored and the intersection test is exact for them |
| `Vfs.DirAnchored` | src/internal/wantc/vfs.go:59-63 | so are queries for everything below a directory |
| `Vfs.UnboundedAnchored` | src/internal/wantc/vfs.go:59-63 | the universe, the empty prefix and suffixes are anchored at the root |
| `Vfs.UnanchoredMisses` | src/internal/wantc/vfs.go:24-45 | a prefix query that ends inside a segment misses entries it meets |
| `Vfs.PrefixQueryCompleteIff` | src/internal/wantc/vfs.go:24-45 | such a query finds everything it meets if and only if nothing is filed at or below its path, or everything filed under a path string that starts with it is |
| `Vfs.SeenIff` | src/internal/wantc/vfs.go:14-22 | the search for a key finds an entry that shares a member with it if and only if it starts at or above the entry's place |
| `Vfs.SeenAboveIff` | src/internal/wantc/vfs.go:14-45 | an entry filed above the key's place is found if and only if no node exists further on the way |
| `Vfs.GuardOnPair` | src/internal/wantc/compiler.go:303-308 | the guard accepts a statement for two paths if and only if both lie below the directory |
| `Vfs.PairFiledAt` | src/internal/wantc/vfs.go:59-63 | such a statement is filed at the directory the two paths share |
| `Vfs.PairUnseen` | src/internal/wantc/vfs.go:14-45 | once a subdirectory exists, the search for a path in it does not find the statement that contains this path |
| `Vfs.UnboundedSeenIff` | src/internal/wantc/vfs.go:14-45 | an entry without a bounding prefix is found if and only if the search starts at the root |
| `Vfs.PairFiledUnbounded` | src/internal/wantc/vfs.go:59-63 | such are two paths with different first characters, which the guard accepts at the root |
| `Vfs.MissConflict` | src/internal/wantc/vfs.go:14-22 | a file, a statement the guard accepts, and a file the statement contains: all three are filed |
| `Vfs.VFS.Add` | src/internal/wantc/vfs.go:14-22 | for keys of any shape that has a bounding prefix: files the entry if and only if it intersects nothing filed at or below where the search for its key starts; otherwise names a pair that intersects and stores nothing; with keys of the two file shapes, if and only if no stored key shares a member with its key |
| `StreamMux.LE32RoundTrip` | src/internal/streammux/streammux.go:194-200 | a header integer is read as it was written |
| `StreamMux.LE32Bytes` | src/internal/streammux/streammux.go:115-123 | the least significant byte comes first |
| `StreamMux.FrameLayout` | src/internal/streammux/streammux.go:115-128 | a frame is four bytes of tag, four bytes of length, and the payload |
| `StreamMux.SendsNeverBlock` | src/internal/streammux/streammux.go:52-73 | whoever holds the permit finds all channels empty |
| `StreamMux.HeaderAtBoundary` | src/internal/streammux/streammux.go:84-93 | the eight bytes read as a header are the header of the next frame, which opens a tag exactly when it is empty |
| `StreamMux.HeaderInv` | src/internal/streammux/streammux.go:84-113 | dispatching a header keeps the invariant |
| `StreamMux.DeliverInv` | src/internal/streammux/streammux.go:172-183 | full and short reads of a payload keep the invariant |
| `StreamMux.SendInv` | src/internal/streammux/streammux.go:115-128 | writing a frame keeps the invariant |
| `StreamMux.StepInv` | src/internal/streammux/streammux.go:52-185 | every step keeps the invariant |
| `StreamMux.MuxSafety` | src/internal/streammux/streammux.go:52-185 | over every interleaving there is one read permit, headers are read only at frame boundaries, none breaks, and the bytes read on each tag are a prefix of those written |
| `StreamMux.DrainedDeliversAll` | src/internal/streammux/streammux.go:157-185 | with an empty pipe everything written has been read |
| `StreamMux.AcceptedInOrder` | src/internal/streammux/streammux.go:52-113 | over every interleaving the accepted streams are the first ones the peer opened, in order, and all of them once nothing waits |
| `StreamMux.HeaderBreaksIff` | src/internal/streammux/streammux.go:95-111 | a header breaks the reader if and only if an empty frame meets a known tag or a payload an unknown one |
| `StreamMux.EmptyWriteBreaks` | src/internal/streammux/streammux.go:102-136 | after any safe run, an empty frame on a known tag cannot be read without breaking |
| `ContentStore.AddConserves` | src/internal/wantdb/store.go:218-232 | adding keeps each count equal to (or at most) the number of holders, including ignored inserts |
| `ContentStore.PostConserves` | src/internal/wantdb/store.go:176-194 | so does posting |
| `ContentStore.DeleteConserves` | src/internal/wantdb/store.go:234-246 | so does deleting, which removes a blob only when no store holds it |
| `ContentStore.DropConserves` | src/internal/wantdb/store.go:159-174 | so does dropping a store |
| `ContentStore.DeleteFromStoreZero` | src/internal/wantdb/store.go:261-284 | deleting through store 0 keeps counts exact if and only if the blob is absent or has one holder |
| `ContentStore.AddHolders` | src/internal/wantdb/store.go:218-232 | adding succeeds exactly if the store holds the blob already or both exist; then the store is among the blob's holders and nothing else has changed |
| `ContentStore.PostHolders` | src/internal/wantdb/store.go:176-194 | posting succeeds exactly if the data is small enough and the store exists; then the store is among the holders and a new identifier has exactly the given data |
| `ContentStore.DeleteHolders` | src/internal/wantdb/store.go:234-246 | deleting takes exactly the store from the blob's holders, takes the blob exactly if nobody holds it then, and fails exactly if there is none |
| `ContentStore.CopyConservesIff` | src/internal/wantdb/store.go:252-259 | copying keeps counts exact if and only if there is nothing new to copy |
| `ContentStore.CopyNotOvercounted` | src/internal/wantdb/store.go:252-259 | copying keeps each count at most the number of holders |
| `ContentStore.RunConserves` | src/internal/wantdb/store.go:153-284 | over every run of create, post, add, delete and drop counts equal holders; with copying and store 0 they are at most holders |
| `ContentStore.ContentDB.NewStore` | src/internal/wantdb/store.go:153-157 | the new store is not in use and holds nothing; no holder of any blob changes, and counts stay exact |
| `ContentStore.ContentDB.InsertRow` | src/internal/wantdb/store.go:218-232 | the statements of adding: on success the store is among the blob's holders, and only there |
| `ContentStore.ContentDB.PostData` | src/internal/wantdb/store.go:176-194 | the statements of posting: on success the store holds the blob and its data is there; other data is unchanged, and a failure undoes everything |
| `ContentStore.ContentDB.Remove` | src/internal/wantdb/store.go:234-284 | the statements of deleting: the store, and only it, is gone from the holders, and the blob exactly if it was the last |
| `ContentStore.ContentDB.RemoveStore` | src/internal/wantdb/store.go:159-174 | the store is gone from the holders of every blob and no other holder is; no blob disappears, and counts stay exact |
| `ContentStore.DropHolders` | src/internal/wantdb/store.go:159-174 | dropping a store takes exactly it from the holders of every blob |
| `ContentStore.ContentDB.CopyRows` | src/internal/wantdb/store.go:252-259 | the destination becomes a holder of exactly what the source holds in addition to what it held; counts never exceed holders, and stay exact if and only if nothing new was copied |
| `ContentStore.CopyHolders` | src/internal/wantdb/store.go:252-259 | copying adds the destination to the holders of exactly the source's blobs |
| `JobCache.JobsTable.CacheRead` | src/internal/wantdb/jobs.go:246-261 | the data of some successful row with that task ID, or nothing if there is none |
| `JobCache.JobsTable.FinishJobAtRow` | src/internal/wantdb/jobs.go:98-104 | afterwards the row is done, with the given result only if it was not done before; its task, done rows and all other rows are unchanged |
| `JobCache.JobsTable.CreateJob` | src/internal/wantdb/jobs.go:45-74 | adds one row, already done with the cached data on a hit |
| `JobCache.SpawnsInv` | src/want/job.go:347-395 | spawning keeps the invariant, whether answered from the table or queued |
| `JobCache.RechecksInv` | src/want/job.go:485-491 | the leader's second look at the cache keeps it: it executes only a task that was never executed |
| `JobCache.LandedInv` | src/want/job.go:485-502 | handing the value to the leader and all waiters keeps it |
| `JobCache.WritesRowInv` | src/want/job.go:413-421 | finishing the row, or turning a database failure into an internal error, keeps it |
| `JobCache.StepInv` | src/want/job.go:397-504 | every step of every worker keeps it |
| `JobCache.JobCacheSafety` | src/want/job.go:397-504 | in every reachable state each task was executed at most once, and every success reported or recorded for it is the result of that execution |
| `JobCache.DoneNeverChanges` | src/internal/wantdb/jobs.go:98-104 | over a whole run a done row and a finished job never change |
| `JobCache.SuccessesAgree` | src/want/job.go:397-439 | any two successes of one task carry the same data, in memory or in the table, at any two times |
| `JobCache.SuccessIsRecorded` | src/want/job.go:397-439 | in every reachable state a job that reports a success has its row done with exactly that result, and the row of a job without a value is not done |

## Left out

- BoundingPrefixes.BudgetIrrelevant: every recursive call simplifies its argument again, so the function
  carries a depth budget; that the recursion always ends is proved for unions of units and prefixes only.
- StringSets.SupersetFalseEscapes: one direction, for terms without unions; exactness is stated term by term
  in `SupersetFalseExact`, where unions are left out because a set may be covered by the branches jointly.
- ParallelExec.ParallelRefinesSerial: workers start after the seeding loop (the interleaved form is
  `InterleavedRefinesSerial`), store synchronisation and job submission do not fail, and which error a failing
  run reports is not compared.
- ParallelExec.SchedulerSafety: workers start after the seeding loop; the interleaved form is
  `InterleavedSafety`.
- ParallelExec.ParallelExecLast: workers start after the seeding loop, and the error of a failing run is not
  returned.
- ParallelExec.RaceOnFirst: assumes that the empty tree can be posted.
- StoredRun.PostGetRun: workers start after the seeding loop, as in `ParallelExecLast`.
- StoredRun.RunStored: workers start after the seeding loop, as in `ParallelExecLast`.
- GraphBuilders.CompileAndRun: workers start after the seeding loop, as in `ParallelExecLast`.
- GraphBuilders.GraphBuilder.Compile: node identifiers are unbounded; the truncation to 32 bits beyond 2^32
  nodes is not modelled, and synchronising facts into the store does not fail.
- GraphBuilders.GraphBuilder.Fact: synchronising the fact into the store does not fail.
- NodeList.NodeListReader.Read: returns a fresh list of inputs; the code refills the list of the node it is
  given.
- DagStore.GetDAG: the limits of 1e6 facts and 1e7 nodes are left out, because what the libraries do at a limit
  is not visible; a fact missing from the table, on which the code dereferences nil, is an outcome of its own.
- Selections.CycleDetector.Dfs: path sets are identified by their terms, not by their string form.
- Selections.Lowerer.ReplaceSelections: what a lookup finds does not change during a pass, in content or order.
- StringSets.SupersetFalseExact: unions, and complements of unions, are left out, because whether a false
  verdict on them is right depends on the branches jointly.
- Selections.LowerSelections: expression roots and statements are one array; a cyclic selection graph, on
  which the code recurses without end, is excluded.
- Vfs.VFS.Get: queries and keys whose bounding prefix the code computes without a panic; submodule and
  provenance fields of entries are dropped.
- SelectionMeaning.DerivedSelectionFiles: what GLFS makes of a file and a directory at one path in different
  layers is not visible, so in that case only that no path is invented is stated; empty directories and file
  modes are no part of what a reference holds.
- FileMeaning.ComputeFiles: conflicts between files and directories, as for derived selections.
- Compilation.BuildTarget: one target of one module; source files are in the index already; queries have
  bounding prefixes; a cyclic selection graph, on which lowering would not end, and a graph of more than 2^32
  nodes, which the model does not post, end in outcomes of their own; the keys of every order in which the index may answer are assumed to
  suffice; workers start after the seeding loop.
- InterleavedExec.StaggeredRefinesSerial: the condition is sufficient; that it is necessary is not claimed, and
  one graph outside it with a run that goes wrong is exhibited.
- StreamMux.MuxSafety: one direction of one endpoint, tags opened once, no empty writes, no closes, no I/O
  errors; a frame header is read in one step, because the reader holds the permit.
- JobCache.JobCacheSafety: one process starting from an empty database; pulling results into a job's store
  and the second write of a row do not fail (the code panics if they do); result schemas are not part of a
  row.
- JobCache.JobsTable.CreateJob: rows only; the store a job gets, child indexes and time stamps are left out.
- Strings are sequences of characters standing for bytes; there is no Unicode.
- GLFS, blake3, JSON, Jsonnet and SQLite are functions and tables with stated laws, not modelled themselves.
- The order of inputs with equal names, which the code's unstable sort does not fix.
- `isDNF`, `deMorgan` and the distribution of unions, which nothing uses, and any normal form of `Simplify`,
  which stops after three rounds.
- `SetFromGlob`, `MapPrependPrefix`, `SetFromQuery` and `VFS.Delete`.
- Cancelling and deleting jobs, `DropJob`, logs, and rows of coalesced failed jobs, which are never finished.
- Foreign keys from jobs and artifacts to stores, listing and reading blobs.
- Executors that touch the outside world, importing and exporting file trees, the command line, the HTTP
  interface and pretty printing.
