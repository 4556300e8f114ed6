# Verified model of Pensyve's core algorithms

Pensyve is a memory store for software agents. This project models the parts of it whose behaviour is
hard to see from the code and proves what they promise, for all inputs, all runs and all interleavings.
`dafny verify dfyconfig.toml` checks everything.

| modules | what they model |
|---|---|
| `TemporalPaths`, `BreadthFirst`, `BeamLevels`, `WideBeam`, `BeamHeap`, `EdgeScores`, `MemoryGraphs` | the temporal memory graph: a mutable multigraph, invalidation, breadth-first traversal and beam search |
| `LexRules`, `LexGrammar`, `LexLines`, `LexChars`, `LexPrinter`, `RuntimeGuard` | the Rust scanner of the runtime guard: its loops, the grammar it accepts, line numbers, and a printer that it inverts |
| `VectorClocks`, `CausalHistory`, `ConflictResolution` | vector clocks as a semilattice and as a protocol, and the resolution of conflicting entries |
| `LazyEmbedder`, `EmbedderRuns` | the lazily built, shared embedder: threads as program counters over its locks, and what its callers get |
| `Paging`, `NamespaceExport`, `BulkExport` | the export of a namespace and of all namespaces |
| `SessionGroups`, `SessionObservations`, `RankFusion`, `ModalSearch` | grouping, fusing and merging of search results |
| `StepUp`, `Midranks`, `BootstrapInterval`, `Ndcg`, `BradleyTerry` | the evaluation arithmetic of the benchmarks |
| `Histogram`, `AccessHistory`, `WeightLearning`, `SignalCapture` | counters, ring buffer, weight learner and capture buffer |
| `Common`, `StableSort` | shared types and the stable sort of the standard library |

Code that changes fields is a class with those fields; loops are loops, each proved against a function
or predicate that is independent of how the loop works. Floating-point numbers are reals. The
exponential, the confidence formula, the gain and the discount of NDCG, similarity to a query, the
classification of a signal, random draws, clocks and fresh identifiers are parameters, and so is which
calls of storage and file system are answered.

Results that differ from what the code or its comments suggest:

- `sync.rs`: distinct timestamps that agree with strict clock dominance do not make devices converge.
  Under them every device ends with the latest entry exactly when no other entry's clock and its own
  dominate each other (`StrictlyLaterConverges`); two different entries under one clock never converge
  (`EqualClocksDiverge`). Without any assumption the exact condition is `ConvergesIffChampion` with
  `ChampionOutranks`; entries made by ticks of a run never share a clock, so they converge
  (`RunsConverge`).
- `check-bounded-runtime-callers.rs`: a newline inside a character literal is not counted. `LineAccount`
  says when a line is right, `NewlineLiteralMisleads` gives the smallest source for which it is not.
  The literal `'\''` of an escaped apostrophe is taken to end at the escaped one, and the last
  apostrophe may then open a literal that swallows code. `EscapedQuoteExactly` says when it does;
  `EscapedQuoteSwallows` is a source whose identifier the scanner misses. The printed programs of
  `RoundTrip` hold this literal only where its last apostrophe opens nothing.
- `feedback.rs`: the comment says that a relevant sample should score higher after an update.
  Normalisation can take back more than the nudge gave. `ScoresHigherExactly` is the exact condition
  for all weights, normalised or not, `RelevantScoresHigher` what it becomes where no weight is lifted to the
  floor; `RelevantCanScoreLower` and `FloorTakesBack` are instances.
- `pensyve_capture.py`: the synchronous flush leaves items held by earlier automatic flushes behind, so
  they come out after newer ones; `LateDelivery` is such a session. `FlushSync` keeps the order exactly
  when the held and the new items are repetitions of one word; when no value occurs on both sides, that
  is when nothing is held or nothing is new (`OneWordWhenDisjoint`, `NothingFresh`).
- `observability.rs`: no bucket of a scrape exceeds the count, but a bucket may exceed a later one or
  +Inf (`BucketMayPassInfinity`). `ScrapeCumulativeExactly` says when a scrape is cumulative in terms of
  the observers met and what finishes between the reads; reads that meet no observer under way suffice
  (`QuietReadsAreCumulative`).

## Model

| member | source | states |
|---|---|---|
| `MemoryGraphs.MemoryGraph.AddNode` | pensyve-core/src/graph.rs:72-79 | a known identifier changes nothing; a new one is appended; the edge log stays as it was |
| `MemoryGraphs.MemoryGraph.AddEdge` | pensyve-core/src/graph.rs:82-93 | the log gains exactly one valid entity edge between the two nodes, both of which exist afterwards |
| `MemoryGraphs.MemoryGraph.AddEdgeWithMeta` | pensyve-core/src/graph.rs:95-103 | the log gains exactly this edge; both ends exist afterwards; parallel edges stay separate |
| `MemoryGraphs.MemoryGraph.InvalidateEdge` | pensyve-core/src/graph.rs:106-127 | exactly the still-valid edges between the two nodes are closed, at this time and with this heir; edges closed earlier and all others are untouched, and unknown nodes change nothing |
| `MemoryGraphs.MemoryGraph.GetValidEdges` | pensyve-core/src/graph.rs:130-141 | the valid edges out of the entity, parallel ones included, latest first |
| `TemporalPaths.ExpandedCovers` | pensyve-core/src/graph.rs:182-206 | once every node nearer than d is expanded, every valid walk of at most d hops ends in a node already met, no further away than the walk is long |
| `TemporalPaths.FirstMeeting` | pensyve-core/src/graph.rs:195-204 | a node first met from depth d has shortest valid distance exactly d + 1 |
| `TemporalPaths.NoFartherNodes` | pensyve-core/src/graph.rs:182-206 | if no node lies at distance d, none lies further away |
| `TemporalPaths.SurvivingWalks` | pensyve-core/src/graph.rs:106-127 | after an invalidation the walks left are exactly the old ones that never take the closed step |
| `TemporalPaths.InvalidationShrinks` | pensyve-core/src/graph.rs:106-127 | every distance after an invalidation is at least the distance before it |
| `TemporalPaths.InvalidationCuts` | pensyve-core/src/graph.rs:106-127 | a node stays within k hops if and only if some walk of at most k hops avoids the closed step |
| `TemporalPaths.AppendKeepsWalks` | pensyve-core/src/graph.rs:95-103 | adding an edge never removes a walk |
| `MemoryGraphs.MemoryGraph.VisitNeighbors` | pensyve-core/src/graph.rs:186-205 | one expansion follows every valid edge out of the node, reports each node met for the first time, and keeps the search state sound |
| `MemoryGraphs.MemoryGraph.Traverse` | pensyve-core/src/graph.rs:160-209 | exactly the nodes other than the start within the depth bound over valid edges, each once, scored 1/(1 + shortest distance), in non-increasing score order; an unknown start gives nothing |
| `BreadthFirst.InvalidationShrinksTraversal` | pensyve-core/src/graph.rs:106-127 | after an invalidation a traversal lists no node it did not list before, and none with a higher score |
| `BeamHeap.SelectBeam` | pensyve-core/src/graph.rs:349-360 | popping by score until the beam is full or the heap empty selects the best offer of each of the best nodes, marks exactly these visited, and drops a node only when the beam is full of scores at least as good |
| `BeamHeap.SelectionIsLevel` | pensyve-core/src/graph.rs:303-360 | the index-level selection is the level that the walk-level definition asks for |
| `BeamHeap.RankTable` | pensyve-core/src/graph.rs:368-385 | the score table comes out once per node, by descending score and then ascending identifier, whatever the map order |
| `MemoryGraphs.MemoryGraph.Gather` | pensyve-core/src/graph.rs:304-347 | the heap of a level holds exactly the valid edges out of the beam to unvisited nodes, each scored by the product along the way |
| `MemoryGraphs.MemoryGraph.BeamSearch` | pensyve-core/src/graph.rs:266-385 | the levels selected form a run of the beam definition and the result ranks everything found; the result is bounded by width times depth, without repeats, exact for a beam as wide as the graph, and its scores are positive when the exponential is |
| `BeamLevels.EveryScoreIsAWalk` | pensyve-core/src/graph.rs:303-365 | each score found at level n is the product of transition scores along a real valid walk of n edges |
| `BeamLevels.FoundOnce` | pensyve-core/src/graph.rs:351-365 | no node is found twice and the start is never found |
| `BeamLevels.AnyWidth` | pensyve-core/src/graph.rs:266-385 | at any width: distinct nodes other than the start, at most width times depth of them, each scored by a real walk within the depth |
| `WideBeam.WideLevels` | pensyve-core/src/graph.rs:266-385 | with a beam as wide as the graph, level n holds exactly the nodes at shortest valid distance n, each with the best product over its shortest walks |
| `WideBeam.WideBeamIsExact` | pensyve-core/src/graph.rs:266-385 | with a beam as wide as the graph the result is exactly the nodes within the depth, each with the maximum product over all its shortest-hop valid walks |
| `WideBeam.WideBeamAgreesWithTraversal` | pensyve-core/src/graph.rs:160-209 | with a beam as wide as the graph, beam search and traversal list the same nodes |
| `EdgeScores.NewerScoresHigher` | pensyve-core/src/graph.rs:322-341 | with a growing exponential and a confidence that fades with age: of two edges that differ only in when they became valid, one scores higher if and only if it is newer |
| `EdgeScores.HeavierScoresHigher` | pensyve-core/src/graph.rs:322-341 | of two that differ only in weight, one scores higher if and only if it is heavier |
| `EdgeScores.LastingScoresHigher` | pensyve-core/src/graph.rs:328-336 | of two past edges that differ only in their half-life, one scores higher if and only if its half-life is longer |
| `EdgeScores.FavouredScoresHigher` | pensyve-core/src/graph.rs:27-35 | of two that differ only in type, one scores higher if and only if the intent favours its type more: recall temporal, then semantic; action causal; question entity, then semantic; code entity, then causal; nothing else |
| `EdgeScores.FactorsTradeOff` | pensyve-core/src/graph.rs:338-341 | a better match of type makes up for as much weight, and a gain in confidence for half as much |
| `EdgeScores.AgedAlike` | pensyve-core/src/graph.rs:328-336 | edges as old, in days, as their half-life score alike whatever it is |
| `EdgeScores.FirstStepIsBest` | pensyve-core/src/graph.rs:303-365 | whatever the width, the first level starts with the best score among the valid edges out of the source; a beam of width 1 keeps only that |
| `EdgeScores.WorseEdgeIsDropped` | pensyve-core/src/graph.rs:303-365 | a beam of width 1 never steps to a node that only the older, the lighter or the less favoured of two otherwise equal edges leads to |
| `RuntimeGuard.SkipQuoted` | scripts/check-bounded-runtime-callers.rs:23-45 | ends past the first unescaped quote or fails; the line counter advances by the newlines passed |
| `RuntimeGuard.CharLiteral` | scripts/check-bounded-runtime-callers.rs:56-70 | ends past a character literal, escaped or of one UTF-8 character, or says that there is none |
| `RuntimeGuard.FindRawStart` | scripts/check-bounded-runtime-callers.rs:72-90 | recognises r, br and cr with any number of hashes before the quote, and nothing else |
| `RuntimeGuard.SkipRawString` | scripts/check-bounded-runtime-callers.rs:91-112 | ends past the first quote followed by the right number of hashes, or fails; newlines are counted |
| `RuntimeGuard.SkipBlockComment` | scripts/check-bounded-runtime-callers.rs:134-156 | ends where the nesting of comment delimiters returns to zero, or fails; newlines are counted |
| `RuntimeGuard.Lex` | scripts/check-bounded-runtime-callers.rs:114-218 | the byte loop with its mutable index, line and token vector computes the scan defined position by position, and terminates |
| `RuntimeGuard.ScanFile` | scripts/check-bounded-runtime-callers.rs:220-233 | exactly the forbidden identifiers of the file with their lines, in order, or the error of the scan |
| `LexChars.CharClosed` | scripts/check-bounded-runtime-callers.rs:47-70 | in valid UTF-8 an apostrophe opens a character literal if and only if one well-formed character other than a backslash, or a backslash and escaped text without apostrophe and newline, and then an apostrophe follow; the literal ends there |
| `LexGrammar.StringClosed` | scripts/check-bounded-runtime-callers.rs:23-45 | a string is closed if and only if the source continues with well-formed characters and escapes and a quote |
| `LexGrammar.RawClosed` | scripts/check-bounded-runtime-callers.rs:91-112 | a raw string ends at its first terminator |
| `LexGrammar.RawNotClosed` | scripts/check-bounded-runtime-callers.rs:91-112 | a raw string runs to the end if and only if no terminator follows |
| `LexGrammar.CommentClosed` | scripts/check-bounded-runtime-callers.rs:134-156 | a block comment is closed if and only if the source continues with a well-nested body |
| `LexGrammar.ErrorsAreUnclosed` | scripts/check-bounded-runtime-callers.rs:114-218 | the scan fails if and only if it comes to an opened string, raw string or block comment that nothing closes, and the error names which |
| `LexLines.SlicesOnBoundaries` | scripts/check-bounded-runtime-callers.rs:162-178 | in valid UTF-8 (section 3 of RFC 3629) every identifier is sliced on character boundaries |
| `LexLines.LineAccount` | scripts/check-bounded-runtime-callers.rs:114-218 | the line of a token falls short of the true line by exactly the newline character literals before it, so it is right if and only if there are none |
| `LexLines.LinesAreExact` | scripts/check-bounded-runtime-callers.rs:114-218 | without the bytes quote, newline, quote in a row, each token is on line 1 plus the newlines before it |
| `LexLines.ErrorLineAccount` | scripts/check-bounded-runtime-callers.rs:114-218 | an error carries the line on which its comment opens, or the last line of the file for a string, short by exactly the newline character literals before the opener |
| `LexLines.NewlineLiteralMisleads` | scripts/check-bounded-runtime-callers.rs:191-201 | a four-byte source whose only identifier is reported one line too early |
| `LexPrinter.RoundTrip` | scripts/check-bounded-runtime-callers.rs:114-218 | printing identifiers, raw identifiers, comments, nested comments, strings, raw strings, character literals and separators and scanning the text gives back exactly the identifiers and their lines; an escaped apostrophe is among the literals where its last apostrophe opens nothing |
| `LexPrinter.EscapedQuoteExactly` | scripts/check-bounded-runtime-callers.rs:56-70 | in valid UTF-8 the literal of an escaped apostrophe always ends at the escaped one, and the stray apostrophe behind it is skipped exactly when no literal body follows it |
| `LexPrinter.EscapedQuoteSwallows` | scripts/check-bounded-runtime-callers.rs:56-70 | a source of fourteen bytes with one identifier, of which the scanner sees none |
| `LexPrinter.GuardSeesCodeOnly` | scripts/check-bounded-runtime-callers.rs:220-233 | the guard reports a forbidden identifier of a printed program exactly where it stands as code |
| `LexPrinter.NameIsToken` | scripts/check-bounded-runtime-callers.rs:15-21 | letters, digits, underscores and non-ASCII bytes that do not begin with a digit are one identifier |
| `LexPrinter.ForbiddenIsReported` | scripts/check-bounded-runtime-callers.rs:220-233 | each of the four names is reported where it stands alone |
| `RuntimeGuard.ViolationsInOrder` | scripts/check-bounded-runtime-callers.rs:220-233 | the violations are the forbidden tokens, each as often as it stands there and in the same order |
| `VectorClocks.VectorClock.Tick` | pensyve-core/src/sync.rs:29-32 | the device’s own entry goes up by one and no other changes |
| `VectorClocks.VectorClock.Merge` | pensyve-core/src/sync.rs:40-45 | the clock becomes the entry-wise maximum, whatever the order in which the other clock is read |
| `VectorClocks.VectorClock.DominatesClock` | pensyve-core/src/sync.rs:48-55 | true exactly when every entry of the other clock is reached, whatever the order in which the other clock is read |
| `VectorClocks.VectorClock.IsConcurrent` | pensyve-core/src/sync.rs:58-60 | true exactly when each clock is ahead on some device |
| `VectorClocks.JoinIsLeastUpperBound` | pensyve-core/src/sync.rs:40-55 | a merge dominates both clocks, and a clock dominates the merge if and only if it dominates both |
| `VectorClocks.JoinCommutes` | pensyve-core/src/sync.rs:40-45 | merging is idempotent and commutative |
| `VectorClocks.JoinAssociates` | pensyve-core/src/sync.rs:40-45 | merging is associative |
| `CausalHistory.OwnEntryIsLargest` | pensyve-core/src/sync.rs:29-45 | in every run no device’s entry for another exceeds that device’s own |
| `CausalHistory.DominatesIffCaused` | pensyve-core/src/sync.rs:29-60 | in every run of ticks, snapshots and merges the clock of a step dominates the clock of a tick if and only if the tick is in its causal history |
| `CausalHistory.DominatesIffTicksWithin` | pensyve-core/src/sync.rs:29-60 | for any two steps, sends and receives included, the clock of one dominates the clock of the other if and only if every tick in the history of the other is in its own history |
| `CausalHistory.TicksAreDistinct` | pensyve-core/src/sync.rs:29-60 | of two ticks the earlier never dominates the later |
| `CausalHistory.OwnEntryCounts` | pensyve-core/src/sync.rs:29-45 | in every run the own entry of a device is the number of its ticks |
| `CausalHistory.EntryCountsHistory` | pensyve-core/src/sync.rs:29-60 | every entry of a clock is the number of that device’s ticks in the causal history of its step |
| `ConflictResolution.ConvergesIffChampion` | pensyve-core/src/sync.rs:98-111 | every delivery order, with duplicates, ends at the same entry if and only if that entry wins from both sides against every other one |
| `ConflictResolution.ChampionOutranks` | pensyve-core/src/sync.rs:98-111 | an entry wins from both sides against every other one if and only if its clock strictly dominates the other, or the clocks are concurrent and it is later |
| `ConflictResolution.RemoteIsKeptExactly` | pensyve-core/src/sync.rs:98-111 | the remote entry is kept if and only if it strictly dominates, or is concurrent and strictly later; every tie stays local |
| `ConflictResolution.StrictlyLaterConverges` | pensyve-core/src/sync.rs:98-111 | for distinct timestamps that follow strict dominance, every delivery order ends at the latest entry if and only if no other clock and its own dominate each other, and nothing else can be converged to |
| `ConflictResolution.CausalTimestampsConverge` | pensyve-core/src/sync.rs:98-111 | with distinct timestamps that agree with clock dominance every delivery order ends at the latest entry |
| `ConflictResolution.RunsConverge` | pensyve-core/src/sync.rs:29-111 | entries made by ticks of a run, with distinct timestamps that follow the causal order, converge |
| `ConflictResolution.ThreeEntryCycle` | pensyve-core/src/sync.rs:98-111 | a dominating entry with an earlier timestamp makes three entries beat each other in a circle, and nothing converges |
| `ConflictResolution.EqualClocksDiverge` | pensyve-core/src/sync.rs:98-111 | two different entries under one clock never converge, whatever their timestamps |
| `LazyEmbedder.InvKept` | pensyve-core/src/embedding.rs:549-583 | every step of every thread keeps the locks, the pool, the space and the session slots consistent with all program counters |
| `LazyEmbedder.SetOnce` | pensyve-core/src/embedding.rs:549-583 | in every interleaving the pool and the space never change once set |
| `LazyEmbedder.OnePool` | pensyve-core/src/embedding.rs:549-583 | in every interleaving at most one build succeeds and all threads use that pool |
| `LazyEmbedder.OneSpace` | pensyve-core/src/embedding.rs:700-727 | all successful calls of `embedding_space` return the same space |
| `LazyEmbedder.NeverConcurrentlyInitialized` | pensyve-core/src/embedding.rs:720-727 | the errors for a concurrent initialisation and for a space that did not persist are unreachable |
| `LazyEmbedder.FailedBuildIsRetried` | pensyve-core/src/embedding.rs:549-583 | a failed build leaves no pool and no lock, and the next waiting thread comes to build again |
| `LazyEmbedder.NoDeadlock` | pensyve-core/src/embedding.rs:549-583 | in every interleaving, while any thread is inside a call some thread can take a step |
| `LazyEmbedder.CallsFinish` | pensyve-core/src/embedding.rs:665-727 | every step of a call brings it nearer to its end |
| `EmbedderRuns.OutcomesTell` | pensyve-core/src/embedding.rs:665-727 | a finished call returned a vector of a pool if and only if its own inference succeeded on that pool, and each error if and only if that step of the call failed; a call without a failure returns what its caller asked for, and a space that it hashed is the one it returns |
| `EmbedderRuns.PoolWasBuilt` | pensyve-core/src/embedding.rs:570-582 | there is a shared pool if and only if a build has succeeded, and it is the one that build returned |
| `EmbedderRuns.BuiltOnce` | pensyve-core/src/embedding.rs:549-583 | in every run at most one build succeeds |
| `EmbedderRuns.SpaceWasHashed` | pensyve-core/src/embedding.rs:700-727 | the shared space is one that a hash step returned |
| `EmbedderRuns.HashedIsKept` | pensyve-core/src/embedding.rs:720-727 | what a hash step returned becomes the shared space in the next step of that thread |
| `EmbedderRuns.RoundRobin` | pensyve-core/src/embedding.rs:779-811 | calls take the slots in turn in the order in which they draw, through the wrap of the counter |
| `Paging.PageContinues` | pensyve-core/src/namespace_export.rs:178-189 | whatever page a backend may answer, with a cursor on every full page or only when a further row exists: reading on from the cursor of the first k rows yields the next rows, a cursor comes only with a full page, and none comes only at the end |
| `NamespaceExport.ExportHeader` | pensyve-core/src/namespace_export.rs:120-166 | the namespace row and then its settled space, if and only if the namespace exists, is settled and every call was answered; it is refused with the error for its case when the calls are answered, and with a storage error exactly when one is not |
| `NamespaceExport.ExportEpisodes` | pensyve-core/src/namespace_export.rs:175-189 | a successful walk writes every episode once, in order, and counts them |
| `NamespaceExport.CapturePage` | pensyve-core/src/namespace_export.rs:241-277 | loading in chunks of the fused-hit budget pairs every memory with exactly its vectors in the space, and never exceeds the budget |
| `NamespaceExport.TallyCountsEverything` | pensyve-core/src/namespace_export.rs:88-101 | every memory is counted once under its kind and every vector once |
| `NamespaceExport.ExportMemories` | pensyve-core/src/namespace_export.rs:191-214 | a successful walk restores every memory, superseded ones included, once and with its vectors, and the tally agrees |
| `NamespaceExport.ExportEdges` | pensyve-core/src/namespace_export.rs:216-229 | a successful walk writes every incident edge exactly once, although it is met under both its ends |
| `NamespaceExport.ExportNamespace` | pensyve-core/src/namespace_export.rs:113-237 | succeeds if and only if the namespace exists, is settled and every call of the storage was answered; then the destination holds an exact, ordered copy with matching counts. It fails with a storage error exactly when a call was not answered, and otherwise with the refusal for its case |
| `NamespaceExport.PrefixOrdered` | pensyve-core/src/namespace_export.rs:104-113 | wherever a run stops, what has been written is in that order |
| `BulkExport.ExportOne` | pensyve-mcp-gateway/src/bulk_export.rs:152-201 | a record is produced if and only if the namespace can be exported and every call was answered; the file published for it is then an exact, ordered copy with these counts; no other published file changes; after a failure the file is as before or a finished, ordered copy, never half written |
| `BulkExport.ExportAllNamespaces` | pensyve-mcp-gateway/src/bulk_export.rs:212-282 | the run fails if and only if the directory already holds a manifest, or the directory, a listing or the manifest fails; otherwise every namespace ends in exactly one record or one failure, in store order, only those that can be exported have records, and all of those do unless a call of some copy failed; every record is faithful to the file in the directory when the run ends; however the run ends, each file is as before or a finished copy and none is removed; an existing manifest is refused |
| `BulkExport.PublishableIsComplete` | pensyve-mcp-gateway/src/bulk_export.rs:110-127 | a run that may be published has exactly one record for every namespace, in order, and the published file of every namespace is an exact copy of it |
| `BulkExport.GateIsExact` | pensyve-mcp-gateway/src/bulk_export.rs:110-127 | the gate opens if and only if the store has namespaces and none was lost |
| `StepUp.BenjaminiHochberg` | pensyve-benchmarks/src/stats.rs:190-219 | for a budget that is not negative the rejected set R is the largest in which every p-value times the number of hypotheses is at most the size of the set times the budget: every other set of that kind lies in it; for a negative one, with p-values that are not negative, nothing is rejected |
| `StepUp.VerdictsFollowP` | pensyve-benchmarks/src/stats.rs:190-219 | a hypothesis at least as significant as a rejected one is rejected, so equal p-values get equal verdicts |
| `StepUp.RejectionsGrow` | pensyve-benchmarks/src/stats.rs:190-219 | a larger budget rejects at least as much |
| `StepUp.PermutationInvariant` | pensyve-benchmarks/src/stats.rs:190-219 | permuting the hypotheses permutes the verdicts |
| `Midranks.SignedRankStatistic` | pensyve-benchmarks/src/stats.rs:129-168 | the loops over tie groups compute W+ as defined by groups and midranks |
| `Midranks.RanksKeepSum` | pensyve-benchmarks/src/stats.rs:147-160 | whatever the tie grouping the ranks sum to n(n+1)/2 |
| `Midranks.EqualMagnitudes` | pensyve-benchmarks/src/stats.rs:147-160 | equal magnitudes get equal ranks |
| `Midranks.SwapComplements` | pensyve-benchmarks/src/stats.rs:129-168 | W+ of the samples and W+ of the swapped samples sum to n(n+1)/2 over the non-zero differences, and each lies between 0 and that sum |
| `Midranks.PairOrderIrrelevant` | pensyve-benchmarks/src/stats.rs:144-168 | W+ depends on the differences only as a multiset: the order of the pairs does not matter |
| `Midranks.LargerRanksHigher` | pensyve-benchmarks/src/stats.rs:143-160 | a larger magnitude never ranks lower, and one larger by the tolerance or more ranks higher |
| `Midranks.WPlusIsRankSum` | pensyve-benchmarks/src/stats.rs:129-168 | for magnitudes that are equal or apart by the tolerance, W+ adds over the pairs in which y is ahead the average of the places its difference can take among all |
| `Midranks.OneSidedSamples` | pensyve-benchmarks/src/stats.rs:129-168 | W+ is the whole rank sum when every y is clearly ahead of its x, and 0 when none is ahead |
| `BootstrapInterval.BootstrapCi` | pensyve-benchmarks/src/stats.rs:22-49 | the interval is read off the sorted resampled means at the two percentile indices |
| `BootstrapInterval.IntervalWithinSample` | pensyve-benchmarks/src/stats.rs:22-49 | for any draws lower is at most upper, and any bounds of the data bound the interval |
| `BootstrapInterval.IndicesInRange` | pensyve-benchmarks/src/stats.rs:44-46 | both percentile indices are in range and in order |
| `BootstrapInterval.IntervalCovers` | pensyve-benchmarks/src/stats.rs:42-48 | at most the share alpha/2 of the resampled means lies below the interval and at most as much above it; counted with the ends themselves, the lower share is exceeded and the upper one reached |
| `Ndcg.Exchange` | pensyve-benchmarks/src/metrics.rs:12-24 | putting the larger gain first of two never loses |
| `Ndcg.DescendingIsIdeal` | pensyve-benchmarks/src/metrics.rs:12-24 | no arrangement of the same relevances collects more in its first n places than the descending one, for any monotone gain and positive non-decreasing discount |
| `Ndcg.NdcgInUnit` | pensyve-benchmarks/src/metrics.rs:6-28 | for relevances that are not negative the score lies between 0 and 1 |
| `Ndcg.DescendingScoresOne` | pensyve-benchmarks/src/metrics.rs:6-28 | a descending list with a positive top gain scores exactly 1 |
| `Ndcg.ZeroExactly` | pensyve-benchmarks/src/metrics.rs:6-28 | the score is positive if and only if one of the first k results gains something |
| `Ndcg.PlaceCounts` | pensyve-benchmarks/src/metrics.rs:6-28 | each place contributes its gain over the discount of its own position, and nothing else depends on it |
| `Ndcg.ShareOfTheBest` | pensyve-benchmarks/src/metrics.rs:6-28 | the score is the share of what the best arrangement of all results collects in the first k places |
| `BradleyTerry.Strengthen` | pensyve-benchmarks/src/judge.rs:205-259 | strengths are not negative, sum to the number of players, and are positive exactly for players that won a game or met nobody else; no division is by zero |
| `BradleyTerry.StrengthsSound` | pensyve-benchmarks/src/judge.rs:231-244 | in every round the two strengths of players that met sum to more than zero |
| `BradleyTerry.RoundKeepsStrengths` | pensyve-benchmarks/src/judge.rs:228-247 | every round keeps winners positive, players without opponents at 1, and puts the others at 0 |
| `BradleyTerry.NormalisedReports` | pensyve-benchmarks/src/judge.rs:249-258 | after any positive number of rounds the normalised strengths have these properties |
| `BradleyTerry.RoundsKeepProportions` | pensyve-benchmarks/src/judge.rs:228-247 | multiplying every count by the same positive number changes no strength in any round |
| `BradleyTerry.StrengthsKeepProportions` | pensyve-benchmarks/src/judge.rs:205-259 | nor the reported strengths |
| `BradleyTerry.GamesAddUp` | pensyve-benchmarks/src/judge.rs:219-225 | the games of two players are those that one won and those that the other won, from both sides |
| `BradleyTerry.WinsAddUp` | pensyve-benchmarks/src/judge.rs:213-217 | the wins of a player are those over each of the players |
| `BradleyTerry.BalancedExactly` | pensyve-benchmarks/src/judge.rs:228-247 | a round changes nothing if and only if everyone who met somebody has won as many games as their strength against each opponent lets one expect |
| `SessionGroups.AppendNew` | pensyve-core/src/recall_grouped.rs:216-227 | a memory of an unseen episode, or of none, adds one part to the end of the partition |
| `SessionGroups.AppendOld` | pensyve-core/src/recall_grouped.rs:216-227 | a memory of a seen episode is appended to the part of that episode |
| `SessionGroups.FillBuckets` | pensyve-core/src/recall_grouped.rs:212-227 | the hash buckets in first-seen order mirror the partition that splits off one episode at a time |
| `SessionGroups.GroupBySession` | pensyve-core/src/recall_grouped.rs:202-284 | the result is the sorted list of groups of that partition, and a cap returns a prefix of it |
| `SessionGroups.NothingLost` | pensyve-core/src/recall_grouped.rs:202-270 | the multiset of memories with their scores is conserved |
| `SessionGroups.GroupsAreWellFormed` | pensyve-core/src/recall_grouped.rs:229-264 | each group is all of one episode sorted stably by time, or a single memory without one; its time is the earliest and its score the highest of its members |
| `SessionGroups.OneGroupPerEpisode` | pensyve-core/src/recall_grouped.rs:202-270 | every episode among the candidates gets exactly one group and no other episode gets any |
| `SessionGroups.GroupsAreOrdered` | pensyve-core/src/recall_grouped.rs:266-277 | groups stand by earliest time, or by descending score, as asked; those that tie stand in the order in which their first candidates came |
| `SessionGroups.MembersShown` | pensyve-core/src/recall_grouped.rs:171-197 | a group of an episode holds its episodic memories and observations, earlier events first, where an event time goes before the time of recording; a group without one is a single semantic or procedural memory; the time of a group is that of its first member |
| `SessionObservations.AttachObservations` | pensyve-core/src/recall_grouped.rs:311-376 | each group is followed by the kept observations of its episode; no listing, an empty one or a failed one changes nothing |
| `SessionObservations.KeptWithinBudget` | pensyve-core/src/recall_grouped.rs:344-358 | the kept observations fit the byte budget; they are the serialisable ones up to a cut, and the cut falls short of the end only where the next one would not fit |
| `SessionObservations.AttachedOnce` | pensyve-core/src/recall_grouped.rs:360-375 | the members afterwards are the members before and, once each, the kept observations whose episode has a group |
| `SessionObservations.PrefixKept` | pensyve-core/src/recall_grouped.rs:360-375 | members stay as a prefix, time and score do not change, and what follows are listed observations of the group’s own episode, with the group’s score |
| `RankFusion.ReciprocalRankFusion` | pensyve-core/src/rrf.rs:49-87 | fails exactly when the lengths differ; otherwise lists every identifier once with its summed weighted reciprocal ranks, by score and then identifier |
| `RankFusion.FusionIsUnique` | pensyve-core/src/rrf.rs:78-84 | the order in which the map is iterated does not show in the result |
| `RankFusion.ListOrderIrrelevant` | pensyve-core/src/rrf.rs:67-76 | permuting the rankings together with their weights changes nothing |
| `RankFusion.AheadComesOutAhead` | pensyve-core/src/rrf.rs:67-84 | with weights that are not negative, an identifier ranked ahead of another in every list that holds the other, one such weight positive, comes out ahead |
| `RankFusion.FusionIsOrdered` | pensyve-core/src/rrf.rs:78-84 | the result stands by descending score and then by ascending identifier |
| `RankFusion.OneListScores` | pensyve-core/src/rrf.rs:67-76 | an identifier in one list only scores the weight of that list divided by k plus its rank |
| `Histogram.HistogramBuckets.Observe` | pensyve-core/src/observability.rs:74-87 | the counters go from the tallies of the values so far to the tallies with one more |
| `Histogram.BucketsCumulate` | pensyve-core/src/observability.rs:74-87 | for sorted boundaries the buckets do not decrease and end in the number of observations |
| `Histogram.SumFallsShort` | pensyve-core/src/observability.rs:76-78 | the integer sum never exceeds the true one and is short by less than a microsecond per observation |
| `Histogram.InvKept` | pensyve-core/src/observability.rs:74-112 | every atomic step of an observer or the scraper keeps every counter exact for what has been added so far |
| `Histogram.TotalAheadByObservers` | pensyve-core/src/observability.rs:74-87 | at every moment total minus the +Inf bucket is the number of observers between the two increments |
| `Histogram.ScrapeNeverAhead` | pensyve-core/src/observability.rs:96-112 | a scrape beside the observers never shows any bucket above the count |
| `Histogram.ReadInTurn` | pensyve-core/src/observability.rs:96-112 | a finished scrape has read the buckets, then the sum, then the count, and shows the sum and the count as they stood at those moments |
| `Histogram.QuietIsExact` | pensyve-core/src/observability.rs:74-87 | when nobody is observing, the counters are those of the finished observations made one after the other |
| `Histogram.BucketMayPassInfinity` | pensyve-core/src/observability.rs:96-112 | a run whose scrape shows a finite bucket above +Inf |
| `Histogram.AboveInfinityExactly` | pensyve-core/src/observability.rs:74-87 | at every moment of every run a finite bucket exceeds +Inf if and only if the observers under way that it has counted outnumber the finished values above its boundary |
| `Histogram.AboveBucketExactly` | pensyve-core/src/observability.rs:74-87 | at every moment of every run it exceeds a later finite bucket if and only if the observers between the two outnumber the counted values between their boundaries |
| `Histogram.ShownAboveExactly` | pensyve-core/src/observability.rs:96-112 | a scrape shows a bucket above a later one if and only if, when the first was read, the observers under way that it had counted outnumber the finished values above its boundary plus what is counted by the later one until its read |
| `Histogram.ScrapeCumulativeExactly` | pensyve-core/src/observability.rs:96-112 | a complete scrape is cumulative if and only if no read overtakes a later one in this sense |
| `Histogram.QuietReadsAreCumulative` | pensyve-core/src/observability.rs:96-112 | a scrape whose reads meet no observer under way shows the tallies at its reads and is cumulative for sorted boundaries, whatever finishes between the reads |
| `AccessHistory.AccessRingBuffer.Push` | pensyve-core/src/activation.rs:85-91 | the ring keeps the last pushes, whatever was pushed before |
| `AccessHistory.AccessRingBuffer.Timestamps` | pensyve-core/src/activation.rs:94-113 | exactly the last min(n, capacity) pushed values, oldest first |
| `AccessHistory.Bootstrap` | pensyve-core/src/activation.rs:127-143 | what has been pushed is the unit-step sequence that ends at the last access |
| `AccessHistory.BootstrapWindow` | pensyve-core/src/activation.rs:121-143 | whatever is evicted, the rebuilt window ends at the last access and steps by one second |
| `AccessHistory.OnlyWindowMatters` | pensyve-core/src/activation.rs:85-113 | what has left the window never comes back |
| `WeightLearning.WeightLearner.Update` | pensyve-core/src/feedback.rs:68-84 | the in-place loops compute nudge, floor and normalisation of all six weights, and count one sample |
| `WeightLearning.WeightLearner.UpdateBatch` | pensyve-core/src/feedback.rs:87-91 | a batch is its samples one after the other |
| `WeightLearning.NudgeFollowsFeedback` | pensyve-core/src/feedback.rs:68-76 | before normalisation a relevant sample raises the weight of every signal that is up and an irrelevant one lowers it, apart from lifting it to the floor; the one takes back what the other did |
| `WeightLearning.LearnedNormalised` | pensyve-core/src/feedback.rs:68-84 | whatever the signals, one sample makes the weights sum to 1 and leaves every one positive |
| `WeightLearning.BatchSettles` | pensyve-core/src/feedback.rs:68-91 | from a normalised start and signals between 0 and 1, after any batch no weight is below 0.01/1.06 |
| `WeightLearning.ScoresHigherExactly` | pensyve-core/src/feedback.rs:63-84 | for all weights and every sample: the sample scores at least as high afterwards if and only if its old score plus the gains of the weights, weighed by its signals, reach the sum of weights and gains times its old score; with weights that sum to 1, if and only if the weighed gains reach their sum times it |
| `WeightLearning.RelevantScoresHigher` | pensyve-core/src/feedback.rs:63-84 | where no floor acts on a relevant sample, this is a comparison of its signals alone: with weights that sum to 1, that their squares reach their sum times its old score |
| `WeightLearning.FloorTakesBack` | pensyve-core/src/feedback.rs:63-84 | a state after one sample, and a relevant sample that meets the condition without floors and still scores lower |
| `WeightLearning.RelevantCanScoreLower` | pensyve-core/src/feedback.rs:63-84 | weights and a relevant sample for which the score drops |
| `ModalSearch.SearchAll` | pensyve-core/src/multimodal.rs:49-74 | merging the best of every matching space, a stable sort by score and a cut give exactly the best of everything, ties by space and identifier; it never fails |
| `ModalSearch.TopOfTops` | pensyve-core/src/multimodal.rs:63-72 | the best of two lists are the best of anything that agrees with each on its best |
| `ModalSearch.TiesInOrder` | pensyve-core/src/multimodal.rs:71 | the stable sort by score alone yields the full order |
| `ModalSearch.TopIsBest` | pensyve-core/src/multimodal.rs:71-73 | nothing left out is better than anything returned |
| `ModalSearch.TopInOrder` | pensyve-core/src/multimodal.rs:71-73 | the merged results stand by descending score, then by space, then by identifier |
| `ModalSearch.Search` | pensyve-core/src/vector.rs:126-163 | fails exactly on a dimension mismatch, finds nothing for a zero query, and otherwise returns entries of the index, at most the limit, in order of score and identifier, with nothing left out that comes before anything returned |
| `ModalSearch.BestIsUnique` | pensyve-core/src/vector.rs:149-160 | there is only one such result, whatever the order in which the hash map iterates |
| `SignalCapture.MemoryCaptureCore.BufferSignal` | integrations/shared/memory_capture_core.py:159-163 | a signal is appended unless capture is off |
| `SignalCapture.MemoryCaptureCore.Classify` | integrations/shared/memory_capture_core.py:236-243 | the candidates of the buffer, in order |
| `SignalCapture.MemoryCaptureCore.Flush` | integrations/shared/memory_capture_core.py:314-336 | over all flushes of a session, what is handed out to store is the stream of tier-one candidates in order, cut off at the session cap; the review list follows the slice semantics of a negative bound |
| `SignalCapture.DueGrows` | integrations/shared/memory_capture_core.py:329-332 | cutting flush by flush at what the cap still allows is cutting the whole stream at the cap |
| `SignalCapture.SplitExactly` | integrations/shared/memory_capture_core.py:320-327 | every candidate goes to exactly one of the two lists, to the first if and only if its tier is 1, and both keep the order |
| `SignalCapture.CaptureHandler.OnEvent` | integrations/autogen/pensyve_capture.py:91-173 | every event is buffered, or flushed with the buffer when an automatic flush is due; nothing is delivered and nothing held is lost or reordered |
| `SignalCapture.CaptureHandler.MaybeAutoFlush` | integrations/autogen/pensyve_capture.py:244-252 | when an automatic flush is due, exactly the tier-one items that the cap still allows join the held ones; otherwise only the count changes |
| `SignalCapture.CaptureHandler.Flush` | integrations/autogen/pensyve_capture.py:191-229 | everything held comes out once, before what is new, and the order of arrival is kept |
| `SignalCapture.CaptureHandler.FlushSync` | integrations/autogen/pensyve_capture.py:231-242 | exactly the new tier-one items that the cap still allows are delivered and what is held stays held; the order is kept if and only if the held and the new items are repetitions of one word |
| `SignalCapture.CommutingWords` | integrations/autogen/pensyve_capture.py:231-242 | two sequences of items read the same either way round if and only if they are repetitions of one word |
| `SignalCapture.OneWordWhenDisjoint` | integrations/autogen/pensyve_capture.py:231-242 | when no held item equals a new one, this is that nothing is held or nothing is new |
| `SignalCapture.NothingFresh` | integrations/shared/memory_capture_core.py:329-332 | nothing is new if and only if the session cap is used up or the buffer holds no tier-one signal |
| `SignalCapture.LateDelivery` | integrations/autogen/pensyve_capture.py:231-252 | a session of three tier-one events in which the synchronous flush delivers the last one before the first two |
| `SignalCapture.MemoryCaptureCore.ClearPendingReview` | integrations/shared/memory_capture_core.py:346-348 | the review list is empty afterwards and nothing else changes |
| `SignalCapture.DeliveredIsDue` | integrations/autogen/pensyve_capture.py:191-229 | nothing beyond the session cap is ever handed out, and an orderly session delivers exactly the first tier-one candidates of everything heard |

## Left out

- Rounding: `f32` and `f64` are reals, so ties caused by rounding, NaN and infinities are not modelled.
- Integer width: `u64` counters, clock entries and the `usize` byte sum do not wrap in the model; the round-robin counter of the embedder does.
- The order of heap entries of equal score: any of them may be popped first, so the beam theorems hold for every such order.
- The clock is read once per call of `invalidate_edge`, not once per edge.
- The division by a half-life of zero inside the confidence formula: the formula is a parameter.
- `get_edge_history`, `build_from_storage`, node and edge counts of the graph: reads without branching.
- Inner loops stand as methods of their own (`VisitNeighbors`, `Gather`, `SelectBeam`, `SkipTrivia`, `FillGroup`, `FillBuckets`, `BucketObservations`, `Resampled` and the sections of the export); the order of their steps is that of the source.
- LazyEmbedder.CallsFinish: states progress of each step, not fairness of the scheduler.
- Mutex poisoning, panics and relaxed memory order: steps are atomic and sequentially consistent.
- The already loaded and the mock embedder: only the lazy one has the locking protocol.
- Model loading, inference, file hashing, tokenisation and rerankers.
- Storage backends: a trusted contract gives pages of at most `limit` rows in key order after the cursor, with a next cursor only on a full page and none only at the end; SQL, migrations and retention are not part of this model.
- A source that changes while it is exported: the source is idle, as the module's own documentation asks.
- BulkExport.ExportOne: a published file is the log of what was written to it; bytes, digests, the write-ahead log left behind and the reusability flag of a record are not modelled.
- SessionGroups.FillBuckets: a fresh key for a memory without an episode never collides, where the source relies on random identifiers not colliding.
- SessionObservations.AttachObservations: which observations the storage lists is a parameter; those of episodes without a group are dropped, as in the source.
- RankFusion.ReciprocalRankFusion: scores stay real, so ties made by the cast to `f32` are not modelled.
- `adaptive_k`, `filter_candidates_by_types`, recall at k, the Brier score, mean reciprocal rank, accuracy at 1: one-line formulas.
- The normal approximation of the signed-rank test, effect sizes and the sample-size formula: transcendental approximations.
- Convergence of the Bradley-Terry iteration to a maximum of the likelihood: the theorems hold for every number of rounds, not in a limit.
- The backfill loop and the phases of an embedding migration: their transitions live in the storage backends.
- Pattern matching, redaction, entity extraction and duplicate detection of the capture core; that `get_pending_review` hands out the live list.
- Persisting captured memories: storing an item may fail without changing what is returned.
- Activation values: `base_level_activation` is a sum of powers of ages.
- Clients, framework adapters, the gateway, the command line and configuration.
