# Verified models of the Veryl analyzer

Dafny models of the parts of the Veryl analyzer and formatter that carry the hardest invariants,
with proofs for all inputs, all runs and all reachable states. `dafny verify dfyconfig.toml`
checks everything.

* **Combinational loops.** The detector walks the module hierarchy children first
  (`HierarchyWalk`). A coarse tier clears most modules; the precise tier decides the rest and
  summarizes cleared modules only on demand, through an explicit worklist (`LoopTiers`). Each cycle
  is reported once (`LoopReports`). The coarse analysis, the graph of a module, its summary and the
  search for cycles are parameters (`LoopAnalyses`).
* **Importing a child's summary.** Positions are array elements and packed bits with 64-bit
  arithmetic written out (`Spans`). Outputs are tiled by fragments (`OutputFragments`) that are
  found by binary search (`OutputAccesses`), a child source region is projected through a
  destination (`RegionProjections`), and dependencies become parent edges (`ImportedEdges`), unless
  an interval test separates their ends (`RegionOverlaps`), that link exactly the parent positions
  of the child's (`ImportedRegions`), node by node for its inputs (`InputImports`).
* **Type and file dependencies.** Two graphs are kept in step (`TypeDagModel`), and what was asked
  for is in them (`DependencyRuns`); files are sorted by
  Kahn's algorithm with a heap (`KahnSort`, `TopologicalOrders`) and queried by depth-first
  searches that share a visited set (`Digraph`, `FileQueries`).
* **Multiple drivers.** A sort and sweep over the writes of a variable (`DriverSweep`), the
  grouping around it (`DriverCheck`) and the merging of diagnostics (`DriverReports`).
* **Diagnostic sources.** Excerpts of files (`SourceText`) are spliced into one buffer
  (`SplicedSources`) with two caches (`OrderedContext`), or whole files in reverse
  (`DiagnosticSources`).
* **Scopes.** The interned tree (`ScopeTree`), tokens (`ScopeTokens`), the delegations of generic
  instances (`ScopeDelegations`) and the cycles they can close (`ScopeCycles`), imports seen through
  them (`ScopeImports`), dropped symbols (`ScopeDrops`), the arena that holds them (`ScopeArenas`),
  what its calls bind (`ScopeBindings`) and what its runs keep (`ScopeRuns`).
* **Alignment.** The state machine of one column kind (`Alignment`), which items its groups hold
  (`AlignmentRuns`), and the sum over all kinds (`Aligners`).
* **Fragments.** Ids on the wire (`FragmentCodec`), and capturing and restoring a file's
  definitions (`Fragments`).

`MachineIntegers`, `SourceTokens`, `Options`, `Sequences`, `Strings`, `TokenLists` and `StableSorts`
hold what these share.

## How to read it

An object whose methods update it is a class; its fields form a value (`View()`), each method
ends in a function of the value before the call, and invariants are lemmas about these functions
and about runs of them. A free function that changes tables passed to it takes and returns them.
Hash maps are maps, and a loop over one visits its entries in an arbitrary order. A heap and a
library sort are modelled by what they promise: the least element, and a stable sorted
permutation.

Some properties do not hold on all inputs. The exact condition is then proved, and where the
condition is not plain a concrete input shows that it is needed:

* a child source or destination whose end overflows is never read as `Exact`, even if it reaches the
  parent (`OverflowIsNeverExact`, `OverflowingSourceIsMissed`, `OverflowingDestinationIsMissed`);
* an empty array span inside another write is reported as a conflict (`SweepIsExact`,
  `EmptySpanIsReported`);
* a span that starts inside a CRLF is shown one line too early, unless the context reaches the first
  line (`WindowKeepsLine`, `SplitCrlfLosesALine`);
* a label over whole files is right exactly if the texts before it leave room for it in 32 bits
  (`LabelReadsBackIffItFits`);
* a scope name that still starts with `r#` once one such prefix is stripped does not survive
  export and import, though no identifier of the language is such a name (`RoundTripIffCanonical`,
  `RestoredIffCanonical`, `DoublyRawNameIsLost`);
* the import walk ends exactly if it does not go round or meets an import; a call makes walks go
  round exactly if it registers a delegation whose walk comes back past no container, or if a kind it
  gives makes a container passable that the walk comes back to (`WalkStopsIff`,
  `RegisteredChildEndsIff`, `WalksEndIffNeverCloses`, `DeeperDelegationLoops`);
* a box of positions beyond the signed range overlaps nothing, so an edge into it is dropped
  (`OverlapIff`);
* a group has an unpadded item exactly if a widest one is the last at its location
  (`SomeNeedsNoneIff`, `RepeatedLocationPads`).

## Model

| member | source | states |
|---|---|---|
| `LoopTiers.EagerIsFixpoint` | crates/analyzer/src/comb_loop_detect.rs:205-346 | The eager bottom-up build solves all summary equations at once, so which children-first order it took does not show |
| `LoopTiers.CoarseIsFixpointAt` | crates/analyzer/src/comb_loop_detect.rs:270-289 | Every module the walk visits is analyzed on the coarse summaries of its children, and is cleared exactly if that proves it acyclic |
| `LoopTiers.SummarizePrecisely` | crates/analyzer/src/comb_loop_detect.rs:353-411 | Terminates; summarizes exactly the cleared modules reachable from the root through cleared modules, each once, after all its cleared children, with the contents of the eager build; the flag is false exactly when one of them does not build |
| `LoopTiers.ClosedHoldsDemanded` | crates/analyzer/src/comb_loop_detect.rs:353-411 | A set with the root and every cleared child of its members holds everything demanded |
| `LoopTiers.NothingLeft` | crates/analyzer/src/comb_loop_detect.rs:360-409 | With the worklist empty, exactly the demanded modules have summaries and no module with a summary leaves a child cleared |
| `LoopTiers.SummarizeChildren` | crates/analyzer/src/comb_loop_detect.rs:290-292 | After the loop over the children of a module the precise tier decides, no child is left cleared |
| `LoopTiers.NeededHaveSummaries` | crates/analyzer/src/comb_loop_detect.rs:205-346 | At the end of a run, a module has a summary exactly if the precise tier decides it or a module above it through cleared ones |
| `LoopTiers.SearchAgrees` | crates/analyzer/src/comb_loop_detect.rs:310-320 | The search for cycles meets the same summaries below a module as an eager build would give it |
| `LoopTiers.CheckInner` | crates/analyzer/src/comb_loop_detect.rs:205-346 | Whole run over any children-first order: summaries exactly where needed, each inserted once and after its visited children, contents of the eager build; the errors are those of the builds that fail and of the first cycle found with each symbol and variables, in order, and no others; a summary or the run is flagged complete exactly if all that went into it is; and, if cleared modules build, one cleared with everything below it has no cycle, and a search reads no summaries but those below its module, the errors are those of a run that builds every module precisely and searches all but those cleared above one that is not |
| `LoopReports.ReportTells` | crates/analyzer/src/comb_loop_detect.rs:321-328 | Reporting the cycles of a search adds the errors of those whose symbol and variables are new, in order, and remembers the keys of all |
| `LoopReports.EachIsTold` | crates/analyzer/src/comb_loop_detect.rs:321-328 | Of each key exactly the first cycle is reported |
| `LoopReports.FoundIsReported` | crates/analyzer/src/comb_loop_detect.rs:310-328 | Every cycle found in a run is reported, by its own error or that of an earlier one with its key |
| `LoopReports.FailureIsReported` | crates/analyzer/src/comb_loop_detect.rs:294-309 | Every build that fails is reported |
| `LoopReports.ReportedWasFound` | crates/analyzer/src/comb_loop_detect.rs:294-328 | And nothing else is |
| `LoopTiers.Decide` | crates/analyzer/src/comb_loop_detect.rs:294-345 | The summary of a decided module, and its flag: complete exactly if the graph, all summaries below and the search are |
| `LoopTiers.DecidedIsThere` | crates/analyzer/src/comb_loop_detect.rs:225-345 | Every module of the walk that is not cleared is decided |
| `LoopTiers.EchoFreeReports` | crates/analyzer/src/comb_loop_detect.rs:160-164 | Where the searches left out would find nothing, the precise tier alone reports the same |
| `HierarchyWalk.Visit` | crates/analyzer/src/comb_loop_detect/unit.rs:163-185 | The depth-first visit appends each module once and no template; in an acyclic hierarchy after all its children |
| `HierarchyWalk.Postorder` | crates/analyzer/src/comb_loop_detect/unit.rs:162-198 | The walk covers every root and, in an acyclic hierarchy, everything below, children first |
| `HierarchyWalk.Check` | crates/analyzer/src/comb_loop_detect.rs:105-113 | The detector on an acyclic hierarchy: every module the coarse tier does not clear is decided, and the errors are exactly what that finds; under the same assumptions on clearing and searching, walk and tiers together report what the precise tier would, echoes aside |
| `Digraph.AddEdgeKeepsAcyclic` | crates/analyzer/src/type_dag.rs:461-490 | An edge added to an acyclic graph keeps it acyclic exactly when its end does not reach its start |
| `Digraph.AddEdge` | crates/analyzer/src/type_dag.rs:461-490 | `add_edge` of the graph library: adds the edge, or refuses and leaves the graph as it was when that would close a cycle |
| `Digraph.Explore` | crates/analyzer/src/type_dag.rs:635-646 | One restarted depth-first search with a kept visited set: adds exactly what the start reaches, when the set was closed before |
| `Digraph.ReversedReaches` | crates/analyzer/src/type_dag.rs:651-674 | Reaching in the reversed graph is reaching backwards |
| `TypeDagModel.TypeDag.InsertNode` | crates/analyzer/src/type_dag.rs:426-450 | A new symbol gets a node, the source edge and, if need be, a file node; an old one nothing |
| `TypeDagModel.TypeDag.InsertEdge` | crates/analyzer/src/type_dag.rs:461-491 | Adds the symbol edge and then its file edge; a cycle is an error unless it is an allowed self-reference |
| `TypeDagModel.TypeDag.InsertFileEdge` | crates/analyzer/src/type_dag.rs:493-529 | Adds the file edge between two different files unless it is there; a cycle is an error that names both symbols and files |
| `TypeDagModel.TypeDag.InsertSymbol` | crates/analyzer/src/type_dag.rs:344-375 | Only symbols of certain kinds get a node, prototypes and variable parameters never |
| `TypeDagModel.TypeDag.InsertDagEdge` | crates/analyzer/src/type_dag.rs:397-407 | An edge that exists is not added again; an error is recorded |
| `TypeDagModel.TypeDag.InsertDagOwned` | crates/analyzer/src/type_dag.rs:409-416 | Ownership removes the dependency edge and is remembered |
| `TypeDagModel.TypeDag.InsertDeclarationSymbol` | crates/analyzer/src/type_dag.rs:377-395 | A declaration is owned by the declaration it is written in and depends on it |
| `TypeDagModel.TypeDag.InsertPathSymbols` | crates/analyzer/src/type_dag.rs:327-342 | A reference adds a dependency unless the base is owned |
| `TypeDagModel.Dags.WithEdgeOk` | crates/analyzer/src/type_dag.rs:461-529 | Adding an edge keeps both graphs acyclic and in step: the file edge is there or its error is recorded |
| `TypeDagModel.Dags.WithOwnedOk` | crates/analyzer/src/type_dag.rs:409-416 | Removing an owned edge keeps everything |
| `TypeDagModel.Dags.WithDeclarationOk` | crates/analyzer/src/type_dag.rs:377-395 | Inserting a declaration keeps everything |
| `TypeDagModel.Dags.WithReferenceOk` | crates/analyzer/src/type_dag.rs:327-342 | Inserting a reference keeps everything |
| `TypeDagModel.Dags.OwnedIsNotReferred` | crates/analyzer/src/type_dag.rs:327-424 | After a declaration is inserted, a reference from its owner to it changes nothing |
| `TypeDagModel.Run` | crates/analyzer/src/type_dag.rs:130-192 | Over any sequence of insertions, removals and error hand-outs both graphs stay acyclic, and every symbol edge between two files has its file edge or an error was recorded for it |
| `DependencyRuns.ReferSettles` | crates/analyzer/src/type_dag.rs:327-407 | After a reference between two symbols of the DAG, an edge leads from what is referred to to the referrer, unless the referrer owns it; or the edge was refused because it closes a cycle, which is recorded with both symbols, or is an allowed self-reference |
| `DependencyRuns.DependSettles` | crates/analyzer/src/type_dag.rs:143-155 | The same for an import |
| `DependencyRuns.DeclareSettles` | crates/analyzer/src/type_dag.rs:377-395 | The same for a declaration and the one it is written in, which then owns it and does not depend on it |
| `DependencyRuns.DependencyErrorsIff` | crates/analyzer/src/type_dag.rs:397-407 | No error is recorded exactly if the edge was there, is an allowed self-reference, or has been added with the file edge it needs |
| `DependencyRuns.AppliedAddsOnly` | crates/analyzer/src/type_dag.rs:327-529 | An operation adds no symbol edge but its own dependency and edges from the source, and no file edge but that of the dependency |
| `DependencyRuns.RunIsRooted` | crates/analyzer/src/type_dag.rs:426-450 | Whatever is inserted and removed, an edge leads from the source to every symbol |
| `TypeDagModel.KeysAreTotal` | crates/analyzer/src/type_dag.rs:547-599 | The key (opaque, path, node) orders the nodes strictly and totally |
| `TopologicalOrders.TakesLeastIsLeast` | crates/analyzer/src/type_dag.rs:547-599 | An order that always takes the least ready node is the lexicographically least topological order |
| `TopologicalOrders.TakesLeastIsUnique` | crates/analyzer/src/type_dag.rs:547-599 | There is only one such order |
| `TopologicalOrders.RenamedTakesLeast` | crates/analyzer/src/type_dag.rs:547-599 | Taking the least carries over from node numbers to what they stand for |
| `KahnSort.Kahn` | crates/analyzer/src/type_dag.rs:569-598 | Kahn's algorithm with in-degrees and a heap emits all nodes of an acyclic graph, edges forward, always the least ready one |
| `FileQueries.ToposortFile` | crates/analyzer/src/type_dag.rs:547-599 | A permutation of all files with every edge forward; with distinct path strings it always takes the least ready file by (opaque, path) |
| `FileQueries.ToposortIsLeast` | crates/analyzer/src/type_dag.rs:541-599 | No topological order of the files comes before it lexicographically |
| `FileQueries.ToposortIgnoresNumbering` | crates/analyzer/src/type_dag.rs:541-599 | Two graphs on the same files with the same dependencies give the same order, however their nodes are numbered |
| `FileQueries.FileLessMeans` | crates/analyzer/src/type_dag.rs:547-568 | A file with a module, interface or package comes before one without; of two alike, the one whose path comes first character by character |
| `FileQueries.OpaqueFilesWait` | crates/analyzer/src/type_dag.rs:541-599 | An opaque file is emitted only when no other file is ready |
| `FileQueries.OrderRespectsSymbols` | crates/analyzer/src/type_dag.rs:493-599 | If no error was ever reported, the file of a symbol comes before the files of its dependents |
| `DependencyRuns.AskedFilesAreSettled` | crates/analyzer/src/type_dag.rs:327-529 | In a run without an error, every dependency that was asked for between symbols of two files has its file edge |
| `DependencyRuns.ReferredFileComesFirst` | crates/analyzer/src/type_dag.rs:327-649 | So the file of a symbol comes before the files of all that refer to it, import it or are written in it, and is required by them |
| `FileQueries.RequiredFiles` | crates/analyzer/src/type_dag.rs:628-649 | Exactly the seeds and what they reach, although all seeds share one visited set |
| `FileQueries.RequiredIsLeast` | crates/analyzer/src/type_dag.rs:628-649 | What is required is the least set of files that holds the seeds and all direct dependencies of its files |
| `FileQueries.RequiredIsMonotone` | crates/analyzer/src/type_dag.rs:628-649 | So more seeds require no less |
| `FileQueries.RequiredIsIdempotent` | crates/analyzer/src/type_dag.rs:628-649 | Requiring the required files adds nothing |
| `FileQueries.DependentFiles` | crates/analyzer/src/type_dag.rs:651-674 | For every file, each file that depends on it, once |
| `FileQueries.DependentsAreDual` | crates/analyzer/src/type_dag.rs:628-674 | A different file g is among the dependents of f exactly when f is required by g |
| `FileQueries.ConnectedFiles` | crates/analyzer/src/type_dag.rs:603-626 | The files of the symbols connected to the included ones |
| `Spans.ArrayIntersectionHolds` | crates/analyzer/src/ir/span.rs:41-46 | The intersection of two array spans holds exactly the common positions, and is there exactly if there is one |
| `Spans.PackedIntersectionHolds` | crates/analyzer/src/ir/span.rs:89-97 | The same for packed spans, and `overlaps` agrees with it |
| `Spans.TranslateArrayHolds` | crates/analyzer/src/comb_loop_detect.rs:1656-1662 | A span moves as a whole exactly if it is not empty and every position stays representable |
| `Spans.TranslatePackedHolds` | crates/analyzer/src/comb_loop_detect.rs:1664-1667 | The same for packed spans |
| `RegionProjections.LandingIsRight` | crates/analyzer/src/comb_loop_detect.rs:1592-1628 | The intersections on the way hold exactly the child destination positions that land in the parent node; a destination whose end overflows meets nothing |
| `RegionProjections.ProjectionIsExact` | crates/analyzer/src/comb_loop_detect.rs:1584-1654 | `Exact` holds precisely the source positions that reach the parent node, at least one, and occurs only for regions with representable ends; for these `Disjoint` means there is none; `Unknown` occurs exactly when the offset or the partition entry is missing or a negation or translation is not representable |
| `RegionProjections.OverflowIsNeverExact` | crates/analyzer/src/comb_loop_detect.rs:1622-1645 | With a source or destination whose end overflows the projection is never `Exact` |
| `RegionProjections.OverflowingSourceIsMissed` | crates/analyzer/src/comb_loop_detect.rs:1643-1645 | It can be `Disjoint` although a position of such a source reaches the parent |
| `RegionProjections.OverflowingDestinationIsMissed` | crates/analyzer/src/comb_loop_detect.rs:1622-1626 | And although a position of such a destination lands in it |
| `OutputFragments.Fragments` | crates/analyzer/src/comb_loop_detect.rs:1367-1457 | Fragments exist for exactly the two layouts, full-width rows or a packed concatenation on one element, in ascending or reversed destination order, and cover the child to its end |
| `OutputFragments.FragmentsTile` | crates/analyzer/src/comb_loop_detect.rs:1397-1457 | Each position of the child, and no other, lies in exactly one fragment |
| `OutputAccesses.PartitionPoint` | crates/analyzer/src/comb_loop_detect.rs:1463-1466 | The binary search finds how many fragments lie before the region |
| `OutputAccesses.Accesses` | crates/analyzer/src/comb_loop_detect.rs:1459-1496 | Binary search and `take_while` yield what visiting every fragment in order yields, whenever they yield something, and always when nothing is empty |
| `OutputAccesses.AccessTakes` | crates/analyzer/src/comb_loop_detect.rs:1473-1494 | An overlapping fragment gives an access exactly if its starts fit signed positions; it takes exactly the region's positions in the fragment and stays in the parent region |
| `OutputAccesses.EachPositionOnce` | crates/analyzer/src/comb_loop_detect.rs:1459-1496 | Every position of the region that the child has is connected through exactly one access, at position + offset, and no other position is |
| `OutputAccesses.FragmentsCanBeSearched` | crates/analyzer/src/comb_loop_detect.rs:1367-1466 | What `fragments` builds meets the order the search relies on |
| `ImportedEdges.InhabitedAxisFits` | crates/analyzer/src/comb_loop_detect.rs:1926-1937 | If one source position maps through the dependency to a destination position, no intermediate sum overflows |
| `ImportedEdges.LinkedFits` | crates/analyzer/src/comb_loop_detect.rs:1920-1941 | So neither `expect` fires for two nodes that the dependency links |
| `ImportedEdges.OffsetCommutes` | crates/analyzer/src/comb_loop_detect.rs:1920-1938 | The edge's offset is y - x for exactly the parent positions the child's dependency links |
| `ImportedEdges.KindCommutes` | crates/analyzer/src/comb_loop_detect.rs:1920-1941 | An imported edge is linked on just the axes of the dependency, and commutes on both |
| `ImportedEdges.LinkAxis` | crates/analyzer/src/comb_loop_detect.rs:1926-1937 | The two `expect`s cannot fire when the sums fit |
| `ImportedEdges.AddResolvedDependencyEdges` | crates/analyzer/src/comb_loop_detect.rs:1905-1984 | Every source to every destination with compatible conditions; runs through when their sums fit; the new edges are those of the row-by-row import |
| `ImportedEdges.EdgeConditionIsExact` | crates/analyzer/src/comb_loop_detect.rs:1914-1919 | The edge is open exactly when the dependency and both mapped nodes are |
| `RegionOverlaps.OverlapIff` | crates/analyzer/src/comb_loop_detect/graph.rs:188-220 | The overlap test is exact for boxes on signed positions while no sum overflows; a box beyond them overlaps nothing |
| `RegionOverlaps.MayReachIff` | crates/analyzer/src/comb_loop_detect/model.rs:57-72 | One axis: whether some position leads into the destination; a sum that overflows keeps the cautious answer |
| `RegionOverlaps.RelatedOverlap` | crates/analyzer/src/comb_loop_detect/graph.rs:188-220 | Boxes on signed positions with a related pair of positions always pass, overflowing sums included |
| `ImportedEdges.ImportCovers` | crates/analyzer/src/comb_loop_detect.rs:1905-1984 | No old edge is lost or narrowed, and between every mapped source and destination that the overlap test does not separate the edge is open whenever the dependency and both ends are |
| `ImportedEdges.LinkedIsOpen` | crates/analyzer/src/comb_loop_detect.rs:1905-1984 | The test separates no two nodes when the edge leads from a position of the one to a position of the other: that edge is there and open |
| `ImportedEdges.ImportChangesOnly` | crates/analyzer/src/comb_loop_detect.rs:1905-1984 | Only the keys of imported edges change: pairs of nodes whose conditions agree with the dependency's and which the overlap test does not separate |
| `ImportedEdges.ImportIsLeast` | crates/analyzer/src/comb_loop_detect.rs:1914-1984 | Every condition that covers the old condition of an edge and the conjunctions of all three conditions of the imported edges with its key covers its new one |
| `ImportedEdges.NewEdgeIsExact` | crates/analyzer/src/comb_loop_detect.rs:1914-1984 | A new edge from one pair of nodes is open exactly where the dependency and both nodes are |
| `ImportedEdges.ImportOpensOnly` | crates/analyzer/src/comb_loop_detect.rs:1914-1984 | If disjunction covers no more than the union, an edge is open only where it was or where some imported pair is with the dependency |
| `ImportedRegions.CarriedPairIsLinked` | crates/analyzer/src/comb_loop_detect.rs:1459-1984 | When accesses map both ends of a dependency, every pair of child positions that it carries has one pair of parent positions, and an open imported edge leads from the one to the other, the overlap test notwithstanding |
| `ImportedRegions.LinkedPairIsCarried` | crates/analyzer/src/comb_loop_detect.rs:1459-1984 | And two parent positions that the edge between their accesses links are those of a carried pair |
| `InputImports.ImportInput` | crates/analyzer/src/comb_loop_detect.rs:883-938 | For an input with exact offsets: each destination node gets the sources of the region projected onto it, nodes of unknown sources get all of them in the end |
| `InputImports.ReachingIsFed` | crates/analyzer/src/comb_loop_detect.rs:883-938 | A child source position that reaches a node is in the exact region of the node, or the node is among those that get all sources |
| `InputImports.InputPairIsLinked` | crates/analyzer/src/comb_loop_detect.rs:883-984 | And the edges from the source nodes that have it to the graph nodes where it lands are open and lead there |
| `InputImports.InputImportIsLeast` | crates/analyzer/src/comb_loop_detect.rs:883-984 | Each edge gets the least condition that covers its old one and those of the pairs of a fed source and its destination |
| `InputImports.InputImportFromFed` | crates/analyzer/src/comb_loop_detect.rs:883-984 | Every edge that is new or changed joins a source of the region that feeds a destination node to a graph node of this |
| `DriverSweep.Sweep` | crates/analyzer/src/driver_check.rs:118-131 | The active list finds exactly the pairs of the sweep's test |
| `DriverSweep.ConflictingSites` | crates/analyzer/src/driver_check.rs:115-140 | Sorts the writes in place; the sites are sorted, duplicate-free and exactly the tokens of the writes the sweep's test pairs with another process |
| `DriverSweep.SweepIsExact` | crates/analyzer/src/driver_check.rs:121-130 | The sweep's test is overlap on both axes with another process, spans that overflow included, except that it also pairs an empty span lying inside another |
| `DriverSweep.SweepIsQuadratic` | crates/analyzer/src/driver_check.rs:114-140 | For non-empty spans the sweep reports exactly what comparing every two writes reports |
| `DriverSweep.SameWritesSameReport` | crates/analyzer/src/driver_check.rs:114-140 | The report depends on which writes there are, not on their order |
| `DriverSweep.EmptySpanIsReported` | crates/analyzer/src/driver_check.rs:114-140 | An empty span is reported although it covers no position |
| `DriverReports.Reports.Insert` | crates/analyzer/src/driver_check.rs:35-45 | A known key merges sorted and deduplicated sites, a new one goes to the end |
| `DriverReports.Reports.IntoErrors` | crates/analyzer/src/driver_check.rs:47-56 | One error per key in first-seen order, at its least site |
| `DriverReports.FindingsAreMerged` | crates/analyzer/src/driver_check.rs:25-45 | Each variable with a finding has exactly the sites of all its findings |
| `DriverReports.SameFindingsSameSites` | crates/analyzer/src/driver_check.rs:35-45 | In whatever order they came in |
| `DriverReports.FirstSeenOrder` | crates/analyzer/src/driver_check.rs:35-45 | Keys keep the order in which they were first found |
| `DriverCheck.GroupWrites` | crates/analyzer/src/driver_check.rs:70-79 | Grouping by variable, process and region keeps exactly the driving writes' tokens |
| `DriverCheck.GroupingKeepsReports` | crates/analyzer/src/driver_check.rs:70-102 | The sweep's report on the groups is the pairwise one on the writes themselves |
| `DriverCheck.SharedIffCovered` | crates/analyzer/src/driver_check.rs:114-140 | Two writes that each cover an element are in conflict exactly if different processes drive a common position |
| `DriverCheck.FindConflicts` | crates/analyzer/src/driver_check.rs:68-108 | One finding for each declared, unexempted variable that two processes drive at a common position, or at an empty span inside the other's, and no other, ordered by first site and identifier |
| `DriverCheck.ContributionIsOrdered` | crates/analyzer/src/driver_check.rs:104-107 | The findings of a module come by first site, those with the same one by name, character by character |
| `DriverCheck.CheckModule` | crates/analyzer/src/driver_check.rs:68-112 | The findings of the module are inserted into the reports |
| `DriverCheck.Check` | crates/analyzer/src/driver_check.rs:17-23 | One diagnostic per declared variable driven twice in some specialization, none for others, with exactly the conflicting writes of all specializations, sorted and without duplicates |
| `SourceText.AfterAscii` | crates/analyzer/src/multi_sources.rs:170-175 | A position after a line terminator is a character boundary of UTF-8 text |
| `SourceText.LineStartIsRight` | crates/analyzer/src/multi_sources.rs:170-175 | The start of the position's line, exactly unless the position splits a CRLF |
| `SourceText.PreviousLineStartIsRight` | crates/analyzer/src/multi_sources.rs:177-187 | One line up |
| `SourceText.NextLineEndIsRight` | crates/analyzer/src/multi_sources.rs:189-202 | One line down, or the end of the text |
| `SourceText.ExcerptWindow` | crates/analyzer/src/multi_sources.rs:119-159 | A window exists exactly for spans in bounds on character boundaries; it holds the span, starts and ends on whole lines, has the asked lines of context unless the text ends, and can be cut out |
| `SourceText.WindowKeepsLine` | crates/analyzer/src/multi_sources.rs:119-159 | For a span that knows its line the line offset is the true one exactly unless the span splits a CRLF, some context is asked for, and the span's line number exceeds it |
| `SourceText.SplitCrlfLosesALine` | crates/analyzer/src/multi_sources.rs:119-159 | A concrete span that splits a CRLF gets the wrong line |
| `SourceText.BreaksInside` | crates/analyzer/src/multi_sources.rs:161-168 | Lines inside an excerpt are counted as in the whole text |
| `SplicedSources.ReadSpan` | crates/analyzer/src/multi_sources.rs:209-262 | Reads a span from the source that holds it, with the line in its file; fails exactly when none does or the line overflows |
| `SplicedSources.ReadIsDetermined` | crates/analyzer/src/multi_sources.rs:216-229 | There is only one source it can read from |
| `SplicedSources.ReadsBackIsRead` | crates/analyzer/src/multi_sources.rs:209-262 | What a read of such a span yields is the token's bytes, its file's path and its line |
| `SplicedSources.ReadToken` | crates/analyzer/src/multi_sources.rs:209-262 | In a buffer that fits in memory, on 32-bit lines, reading a span that reads back as a token succeeds and yields it |
| `OrderedContext.ExcerptFor` | crates/analyzer/src/analyzer_error.rs:2488-2502 | A token in bounds gets the window around a token of the context on its lines, if that holds it, and its own otherwise; only a token that cannot be shown gets the whole text |
| `OrderedContext.PlaceExcerpt` | crates/analyzer/src/analyzer_error.rs:2503-2514 | An excerpt is placed once, and cutting it out never fails |
| `OrderedContext.SourceWithOrderedContext` | crates/analyzer/src/analyzer_error.rs:2472-2517 | For every list of tokens: the sources after the first are excerpts chosen for some token, a window with one line of context or the whole text of a token that cannot be shown, none of them twice; each label shows its token in the excerpt chosen for it, and a non-empty in-bounds one reads back as its own bytes from its own file, on its own line when the tokens' lines are right, whatever the two caches share; every source starts on a 32-bit line |
| `OrderedContext.ReadLabels` | crates/analyzer/src/analyzer_error.rs:2472-2517 | So splicing the sources and reading every label succeeds for each such token and yields its bytes, path and line |
| `DiagnosticSources.SourceWithContext` | crates/analyzer/src/analyzer_error.rs:2439-2467 | Whole files in reverse, each label moved to where its file starts |
| `DiagnosticSources.LabelReadsBackIffItFits` | crates/analyzer/src/analyzer_error.rs:2452-2463 | A label reads back as its token from its own source exactly if the texts before it and the token's end together stay within 32-bit positions; otherwise it reads back from an earlier source if at all |
| `DiagnosticSources.FittingLabelReadsBack` | crates/analyzer/src/analyzer_error.rs:2452-2463 | Such a label reads its own line when the token knows it |
| `DiagnosticSources.CombinationalLoop` | crates/analyzer/src/analyzer_error.rs:3553-3574 | Participants and dependency sites read back as themselves, on their lines when these are right, each list in its order |
| `DiagnosticSources.SideEffectFunctionCallInAlwaysFf` | crates/analyzer/src/analyzer_error.rs:3484-3514 | While the quoted texts together stay within 32-bit positions the two reversals cancel: calls and writes read back as themselves, on their lines when these are right, each list in its order |
| `ScopeTree.InternChild` | crates/analyzer/src/scope.rs:208-232 | The child of that name, new ones at the end; parents stay below children and `intern` stays exactly the map from parent and name to child |
| `ScopeTree.InternedPathIsNamed` | crates/analyzer/src/scope.rs:235-241 | Interning a path yields the scope named by its canonical names and moves no other |
| `ScopeTree.RoundTripIffCanonical` | crates/analyzer/src/scope.rs:235-241 | Interning the name path of a scope yields that scope and changes nothing exactly if its names are canonical |
| `ScopeTree.DoublyRawNameIsLost` | crates/analyzer/src/scope.rs:208-241 | A concrete name that does not survive, though no identifier of the language is of this form |
| `ScopeTree.PathsAreDistinct` | crates/analyzer/src/scope.rs:395-407 | Different scopes have different name paths |
| `ScopeTokens.InsertedTokensStand` | crates/analyzer/src/scope.rs:416-419 | Tokens read in from an export stand in the scopes their namespaces name, in any arena |
| `ScopeTokens.ReinsertionRestores` | crates/analyzer/src/scope.rs:416-464 | Exporting a file, dropping it for all projects and reinserting leaves the arena as it was when the names are canonical |
| `ScopeTokens.RestoredIffCanonical` | crates/analyzer/src/scope.rs:416-464 | And only then |
| `ScopeTokens.DroppedTokens` | crates/analyzer/src/scope.rs:432-453 | Dropping leaves the tokens of other files and, when one project is named, those whose name path begins with another name or is empty |
| `ScopeDelegations.RegisteredInstanceOk` | crates/analyzer/src/scope.rs:173-184 | A generic instance delegates to an equally deep scope |
| `ScopeDelegations.RegisteredChildOk` | crates/analyzer/src/scope.rs:611-618 | Registering a generic child keeps all delegations level exactly if its base scope is one deeper than its instance |
| `ScopeDelegations.CorrespondingIsLevel` | crates/analyzer/src/scope.rs:600-618 | Which a child of the scope that the instance delegates to is |
| `ScopeCycles.NewScopesKeepAcyclic` | crates/analyzer/src/scope.rs:208-232 | New scopes close no cycle of the steps that the walk takes, from scopes that are no containers to their effective parents |
| `ScopeCycles.RedirectedIffComesBack` | crates/analyzer/src/scope.rs:173-184 | A new delegation closes a cycle exactly if the walk from where it leads passes a child, no container, of the scope that delegates |
| `ScopeCycles.RekindedIff` | crates/analyzer/src/scope.rs:208-217 | A new kind closes a cycle exactly if it makes a container passable and the walk outward from it comes back to it |
| `ScopeCycles.RegisteredChildEndsIff` | crates/analyzer/src/scope.rs:611-618 | Registering a generic child closes a cycle exactly if one of the two does: the delegation, or the kind an existing child loses |
| `ScopeCycles.NewChildNeverCloses` | crates/analyzer/src/scope.rs:611-618 | Which never happens for a new child |
| `ScopeCycles.RegisteredInstanceEndsIff` | crates/analyzer/src/scope.rs:173-184 | Registering an instance closes a cycle exactly under the same condition |
| `ScopeCycles.InstanceNeverCloses` | crates/analyzer/src/scope.rs:173-184 | Which never happens for a new instance, nor for one that is no container and stands for a sibling, if this is no container or the template is one |
| `ScopeCycles.LinksAcyclicIff` | crates/analyzer/src/scope.rs:894-919 | Links to effective parents, out of containers too, have no cycle exactly if the steps have none whatever kinds the scopes get |
| `ScopeCycles.NoDeeperIsAcyclic` | crates/analyzer/src/scope.rs:894-919 | Delegations to scopes that are no deeper close no cycle of either |
| `ScopeImports.BoundedIffNotRound` | crates/analyzer/src/scope.rs:894-919 | The walks outward from a scope are bounded exactly if none of them meets a scope twice |
| `ScopeImports.WalksEndIffAcyclic` | crates/analyzer/src/scope.rs:894-919 | All of them are exactly if the steps outward, out of no container, have no cycle |
| `ScopeImports.WalkStopsIff` | crates/analyzer/src/scope.rs:894-919 | A walk stops exactly if it does not go round, or meets an import of the symbol |
| `ScopeImports.WalkOutward` | crates/analyzer/src/scope.rs:894-919 | Then the loop terminates and is true exactly if some scope on the delegation-following chain, up to the first container, imports the symbol |
| `ScopeImports.IsImported` | crates/analyzer/src/scope.rs:877-921 | The same after interning the namespace |
| `ScopeImports.DeeperDelegationLoops` | crates/analyzer/src/scope.rs:611-618 | Two calls and a generic child registered under its own child make an endless walk |
| `ScopeDrops.CleanedNames` | crates/analyzer/src/scope.rs:266-305 | A cleaned scope names no dropped id and still names every other |
| `ScopeDrops.DropIsCleanIffPlaced` | crates/analyzer/src/scope.rs:266-305 | Dropping leaves a scope clean, all other bindings in order, exactly if its locals and owner are where their symbols were registered |
| `ScopeDrops.DropAtHomeIsClean` | crates/analyzer/src/scope.rs:266-305 | It does so while symbols are bound at their registered scope and name |
| `ScopeBindings.AddedLocalIsDeclared` | crates/analyzer/src/scope.rs:257-264 | A declaration comes last among those of its canonical name in its scope, and nowhere else |
| `ScopeBindings.AddedImportIsSeen` | crates/analyzer/src/scope.rs:307-325 | An import is seen by matching queries from exactly the scopes whose way outward, along delegations and past no container, leads through the scope it was added to |
| `ScopeBindings.AddedWildcardIsSeen` | crates/analyzer/src/scope.rs:327-343 | A wildcard is seen there for exactly the symbols its source scope declares |
| `ScopeBindings.AddedLocalIsSeen` | crates/analyzer/src/scope.rs:257-264 | A declaration comes into sight exactly where its scope is imported as a whole, also by earlier imports |
| `ScopeBindings.KindIsInterned` | crates/analyzer/src/scope.rs:208-232 | An interned child gets the kind given unless that is unknown, and no other scope changes |
| `ScopeBindings.KindAndOwnerAreSet` | crates/analyzer/src/scope.rs:361-367 | One scope gets the owner, and the kind unless that is unknown |
| `ScopeBindings.ExitUndoesEnter` | crates/analyzer/src/scope.rs:243-255 | Entering a scope puts the cursor at the child of that name, and leaving puts it back |
| `ScopeBindings.InstanceStandsForTemplate` | crates/analyzer/src/scope.rs:173-184 | The instance is the child of its enclosing scope with the mangled name, of the kind of an instance, and delegates to the child with the name of the template; no other delegation changes |
| `ScopeBindings.ChildStandsForMember` | crates/analyzer/src/scope.rs:611-618 | The child of that name stands for the member it is registered with, and nothing else is delegated |
| `ScopeRuns.RunDropsCleanly` | crates/analyzer/src/scope.rs:146-464 | Which they are after every run that binds no symbol elsewhere |
| `ScopeArenas.CallOk` | crates/analyzer/src/scope.rs:146-464 | Every call keeps the arena in order |
| `ScopeArenas.Run` | crates/analyzer/src/scope.rs:146-464 | So every reachable arena is in order |
| `ScopeRuns.CallKeepsAcyclic` | crates/analyzer/src/scope.rs:146-618 | A call leaves the steps outward without a cycle exactly unless it registers a delegation that comes back to itself or gives a container a kind that opens a cycle |
| `ScopeRuns.WalksEndIffNeverCloses` | crates/analyzer/src/scope.rs:146-618 | All walks outward end throughout a run exactly if none of its calls closes a cycle |
| `ScopeRuns.WalksOfRunEnd` | crates/analyzer/src/scope.rs:894-919 | Then the walk of `is_imported` ends from every namespace, interned before or not |
| `ScopeRuns.CallKeepsLevel` | crates/analyzer/src/scope.rs:146-618 | A call keeps delegations level exactly if it registers no generic child with a base of another depth |
| `ScopeRuns.LevelRunEnds` | crates/analyzer/src/scope.rs:146-618 | Runs of such calls close no cycle |
| `ScopeArenas.ScopeArena.InternNamespace` | crates/analyzer/src/scope.rs:235-241 | The loop interns the path |
| `ScopeArenas.ScopeArena.DropSymbols` | crates/analyzer/src/scope.rs:268-305 | Symbol by symbol, then one scan for imports |
| `ScopeArenas.ScopeArena.DropTokens` | crates/analyzer/src/scope.rs:432-453 | Exactly the file's tokens, of one project or of all |
| `ScopeArenas.ScopeArena.ExportTokensByPath` | crates/analyzer/src/scope.rs:455-464 | The file's tokens with their namespaces, in order of token id |
| `ScopeArenas.ScopeArena.NamePathOf` | crates/analyzer/src/scope.rs:395-407 | The names from the root down |
| `ScopeArenas.ScopeArena.ProjectName` | crates/analyzer/src/scope.rs:382-393 | The name of the root-level ancestor |
| `ScopeArenas.ScopeArena.IsImported` | crates/analyzer/src/scope.rs:877-921 | Interns the namespace and answers exactly, whenever the walk stops |
| `ScopeArenas.ScopeArena.RegisterGenericInstance` | crates/analyzer/src/scope.rs:173-184 | Interns the instance, then the template, both in the enclosing scope, lets the one delegate to the other, and returns the instance |
| `ScopeArenas.ScopeArena.RegisterGenericChild` | crates/analyzer/src/scope.rs:611-618 | The child delegates to the base's member scope |
| `Alignment.MergeShows` | crates/aligner/src/lib.rs:55-69 | Merged padding shows exactly in the layouts where one of the two shows |
| `Alignment.MergeIsOnly` | crates/aligner/src/lib.rs:55-69 | And is the only kind that does |
| `Alignment.Called` | crates/aligner/src/lib.rs:87-205 | Whatever is called, `max_width` stays the greatest width of the group, so padding never underflows |
| `Alignment.GroupIsAligned` | crates/aligner/src/lib.rs:88-94 | After any calls, closing a group gives every item the padding of the last item at its location, so width + padding is the greatest width exactly for items as wide as that one |
| `Alignment.SomeNeedsNoneIff` | crates/aligner/src/lib.rs:88-94 | Some item of the group ends with padding 0 exactly if a widest one is the last at its location, as with distinct locations |
| `Alignment.RepeatedLocationPads` | crates/aligner/src/lib.rs:88-94 | Six calls with one location twice leave a whole group padded |
| `Alignment.GroupLinesAscend` | crates/aligner/src/lib.rs:103-120 | Unless splitting is switched off, the lines of a group ascend |
| `AlignmentRuns.ItemIsMeasured` | crates/aligner/src/lib.rs:122-205 | An open item is as wide as the tokens and spaces seen since it was started, on 32 bits, and ends at the last token |
| `AlignmentRuns.LineMoves` | crates/aligner/src/lib.rs:103-162 | The line of a group is that of the last item taken, moved on to the end of its statement, and by no other call |
| `AlignmentRuns.StatementHasItem` | crates/aligner/src/lib.rs:99-162 | A kind has an item in the statement from its start until the statement's end is noted or the item is disowned |
| `AlignmentRuns.AdjacentItemJoins` | crates/aligner/src/lib.rs:103-120 | An item on the line where the last one ended or the next one joins the group, and any item while splitting is off |
| `AlignmentRuns.DistantItemSplits` | crates/aligner/src/lib.rs:103-120 | Any other item closes the group and begins one of its own |
| `AlignmentRuns.FinishGroupCloses` | crates/aligner/src/lib.rs:88-94 | Finishing a group pads its items and touches no other padding |
| `AlignmentRuns.OthersKeepGroup` | crates/aligner/src/lib.rs:87-205 | No other call touches the group or the paddings |
| `AlignmentRuns.AdjacentItemsAlign` | crates/aligner/src/lib.rs:88-120 | Two items on one line or on adjacent ones get paddings that make them equally wide |
| `Alignment.Align.FinishGroup` | crates/aligner/src/lib.rs:88-94 | Pads the items of the group and empties it |
| `Alignment.Align.FinishItem` | crates/aligner/src/lib.rs:103-120 | Closes the group at a line gap, then takes the item |
| `Aligners.AddKind` | crates/aligner/src/lib.rs:326-336 | Adds one kind's paddings in whatever order they come |
| `Aligners.TotalsAreSums` | crates/aligner/src/lib.rs:325-337 | From empty totals: per location the sum of the widths, shown in the layouts where some kind shows |
| `Aligners.Aligner.GatherAdditions` | crates/aligner/src/lib.rs:325-337 | The totals after all kinds |
| `Aligners.Aligner.FinishItem` | crates/aligner/src/lib.rs:303-307 | Every kind finishes its item |
| `Aligners.Aligner.FinishGroupFor` | crates/aligner/src/lib.rs:311-314 | Closes one kind's item and group and touches no other kind |
| `Aligners.Aligner.SeeToken` | crates/aligner/src/lib.rs:262-274 | Every kind sees the token, and the latest line is the greatest seen |
| `Aligners.Aligner.NoteStatementEnd` | crates/aligner/src/lib.rs:284-289 | Every kind moves on to the latest line seen |
| `FragmentCodec.RefRoundTrip` | crates/analyzer/src/fragment_codec.rs:47-61 | An id is written exactly if it lies in its window or is the sentinel, and reads back moved by base - start, the sentinel fixed |
| `FragmentCodec.DecodedIsFresh` | crates/parser/src/fragment_codec.rs:46-64 | Whatever the bytes, an id read lies in the reserved range or is the sentinel |
| `FragmentCodec.EntriesRoundTrip` | crates/analyzer/src/fragment_cache.rs:209-233 | A payload is written exactly if every id in it belongs, and reads back with every id moved, in order |
| `Fragments.Tables.Insert` | crates/analyzer/src/definition_table.rs:102-106 | A definition gets the next id |
| `Fragments.Tables.ExportInWindow` | crates/analyzer/src/definition_table.rs:116-125 | Exactly the definitions in the window, by ascending id |
| `Fragments.Tables.ReserveDefinitionIds` | crates/analyzer/src/definition_table.rs:36-43 | A range right after all issued ids |
| `Fragments.Tables.Capture` | crates/analyzer/src/fragment_cache.rs:168-243 | Succeeds exactly for one text id and payloads whose ids all belong |
| `Fragments.Tables.Restore` | crates/analyzer/src/fragment_cache.rs:253-341 | Reserves fresh ranges, succeeds exactly if the payload decodes and no restored symbol conflicts, inserts the decoded definitions, and changes no definition otherwise |
| `Fragments.RestoredExport` | crates/analyzer/src/definition_table.rs:112-125 | Exporting the new window gives the captured definitions moved, in the same order |
| `Fragments.CapturedFragmentRestores` | crates/analyzer/src/fragment_cache.rs:168-341 | A captured fragment restores into any tables |
| `Fragments.Tables.RestoreAll` | crates/analyzer/src/fragment_cache.rs:253-341 | Successive restores get the ranges right after one another, and at the end each window holds what its own restore put there |
| `Fragments.ReservationsAreDisjoint` | crates/analyzer/src/definition_table.rs:36-43 | Their windows lie above all earlier ids of each kind, and apart from one another |

## Left out

- Step budgets, the switch that disables the coarse tier, and the incremental unit cache, whose cached modules may lack a summary.
- The coarse analysis, the building of a module's graph, its summary and the search for cycles: parameters of `LoopTiers`, assumed to depend on nothing but their arguments.
- LoopTiers.CheckInner: says what a `complete` flag is made of; when a build, a coarse verdict or a search is complete in itself is up to those parameters.
- Carriers and exits of regions, and the deferred analysis of instance actuals: they stand for nodes with identity edges.
- ImportedEdges.AddResolvedDependencyEdges: the algebra of path conditions is a parameter; conjunction is exact, and disjunction covers both sides. That it is the least condition that does, as that of the analyzer is, is asked for only where no edge may be opened too far.
- ImportedRegions.CarriedPairIsLinked: for ends mapped by connected outputs.
- InputImports.InputPairIsLinked: which nodes a region of an input maps to is a parameter; evaluating the selected actual is not modelled.
- Resolving symbol paths, type-checking candidates and the order in which candidates are applied; `TypeDagModel` starts from resolved symbols.
- The graph library, the bidirectional map and the binary heap themselves: `add_edge` adds or refuses, a search restarted elsewhere keeps what it visited, a heap yields the greatest element.
- SplicedSources.ReadSpan: reads without lines of context; the library that reads one text is modelled as a slice with its line counted by LF, CR and CRLF.
- OrderedContext.SourceWithOrderedContext: looks texts up without the cache of texts, a plain memo; asks that the quoted files fit in memory together, and that no token ends before it begins.
- Well-formed UTF-8 is leading bytes with their continuation bytes; overlong and surrogate encodings are not excluded, so the proofs cover more texts than there are.
- Mixins, `import_package_path`, dumping, and the root project of the scope arena; scope ids are unbounded.
- ScopeArenas.CallOk: covers calls with existing scopes; others panic.
- DiagnosticSources.SourceWithContext: moves positions on 32 bits that wrap, as a build without overflow checks does; one with them panics where a position does not fit.
- Display text of diagnostics and every diagnostic but the two in `DiagnosticSources`.
- The tables of tokens, texts, symbols, literals, attributes and candidates in a fragment: their entries are lists with ids in them, and which of them conflict on a restore is a parameter. What a failed restore leaves in these tables is not modelled. Ids are unbounded. The interned strings and paths and the byte format are not modelled.
- Walking the syntax tree to drive the aligner, and rendering its result.
