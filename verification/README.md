# A verified model of a node's core data structures

This project models, in Dafny, the parts of a Bitcoin-derived full node (C++ sources under `src/`) whose
correctness rests on invariants rather than on single functions. Each module follows one source file.

## Components

**Cluster linearization** (`src/cluster_linearize.h`). A cluster is a dependency graph of transactions with fees and
sizes; a linearization is a topologically valid order of it, judged by its feerate diagram. `FeeFrac`, `Sums`,
`DepGraph` and `DepGraphObject` hold feerates, weights over sets and sequences, and the graph. `Chunking` and `Diagram`
show that chunking is the concave envelope of the prefix sums and tie "at least as good" to real-valued diagrams.
`LinearizationChunking` and `Merge` cover chunk bookkeeping and merging, `GroupPass`, `PassGuarantees`,
`PostLinearizeSpec` and `PostLinearize` the two passes of postlinearization from the abstract insertion of groups down to
the linked entries and the array, `AncestorFinder`, `SearchTheory`, `Search`, `SearchLoop`, `SearchFinder` the candidate
finders with every pruning rule, and `Linearize` the whole.

**Coins caches** (`src/coins.cpp`, `src/coins.h`). `CoinsTheory` states when the DIRTY and FRESH flags of a layer are
truthful and what each operation does to the visible coins, `CoinsList` is the intrusive list of flagged entries, and
`CoinsCache` is the stack of caches over a store, refined to a plain map over whole runs.

**Check queue** (`src/checkqueue.h`). `CheckQueue` is the lock-and-condition-variable protocol as a state machine over its
critical sections, with safety over all interleavings, absence of deadlock and termination.

**Headers sync** (`src/headerssync.cpp`, `src/headerssync.h`). `HeadersChain` and `HeadersSync` model the two-phase
download with one-bit commitments.

**Address manager** (`src/addrman.cpp`). `AddrManTables` and `AddrManSteps` hold the tables, their consistency and the
elementary changes, `AddrMan` the operations, `AddrManCheck` the built-in consistency check, and `AddrManRun` whole runs.

**Cuckoo cache** (`src/cuckoocache.h`), **block index** (`src/chain.cpp`, `src/chain.h`), **big integers and compact
targets** (`src/arith_uint256.cpp`, `src/arith_uint256.h`), **Base58** (`src/base58.cpp`) and **Bech32**
(`src/bech32.cpp`; BIP 173 and BIP 350) are in `CuckooCache`; `Chain`; `Powers`, `ArithUint` and `Compact`; `Radix` and
`Base58`; `Bech32Poly`, `Bech32`, `Bech32Strings` and `Bech32Vectors`. `Options` is shared.

Two properties turned out to be false of the code as it stands, and are stated with their exact condition.
`CoinsViewCache::AddCoin` without permission to overwrite does overwrite, unnoticed, a coin of the base that is not
cached (`CoinsTheory.UnnoticedOverwrite`); the flags stay truthful exactly if overwriting was allowed or the coin was not
visible (`CoinsTheory.AddKeeps`). A cuckoo cache set up for one of the seven largest 32-bit sizes has no collection
flags; it is usable exactly if its size plus seven fits 32 bits (`CuckooCaches.Cache.constructor`).

## Model

| member | source | states |
|---|---|---|
| FeeFracs.SteeperTrans | src/util/feefrac.h:112-131 | the cross-multiplied feerate order composes: a feerate at least as steep as m, which is at least as steep as l, is at least as steep as l, strictly if either step is |
| DepGraphs.SumRate | src/cluster_linearize.h:246-251 | the accumulation loop gives the sum of fees and of sizes over the set, independent of iteration order |
| DepGraphs.AppendTopo | src/cluster_linearize.h:301-311 | the list keeps its old part and gains a topologically valid linearization of exactly the selected transactions |
| DepGraphs.GetReducedParents | src/cluster_linearize.h:208-219 | the result is an antichain of proper ancestors whose ancestors are all proper ancestors of the transaction |
| DepGraphs.GetReducedChildren | src/cluster_linearize.h:229-240 | the same for descendants |
| DepGraphs.ReducedParentsMinimal | src/cluster_linearize.h:200-219 | in an acyclic graph the reduced parents are contained in every set that generates the same ancestors |
| DepGraphObjects.DepGraph.constructor | src/cluster_linearize.h:68-72 | an empty, valid graph |
| DepGraphObjects.DepGraph.AddTransaction | src/cluster_linearize.h:133-146 | the first free position is taken, unconnected, and no other transaction changes |
| DepGraphObjects.DepGraph.RemoveTransactions | src/cluster_linearize.h:157-171 | what remains keeps its feerates and exactly its remaining ancestors and descendants |
| DepGraphObjects.DepGraph.AddDependencies | src/cluster_linearize.h:177-198 | the graph stays valid and its ancestor and descendant sets grow by exactly the ancestors the child gains |
| DepGraphObjects.ExtendedIsClosure | src/cluster_linearize.h:177-198 | the new ancestor relation is the least transitive one that contains the old one and the new edges, and the graph stays well-formed |
| DepGraphObjects.Remap | src/cluster_linearize.h:89-111 | rebuilding from reduced parents under any injective renaming of an acyclic graph gives the same feerates and the same ancestor relation |
| DepGraphObjects.DepGraph.Remapped | src/cluster_linearize.h:89-111 | the constructor yields that graph |
| DepGraphObjects.FindConnectedComponent | src/cluster_linearize.h:265-280 | the result is the least set separated within todo that contains the first transaction of todo |
| Chunking.ChunksChunked | src/cluster_linearize.h:374-389 | the chunks concatenate to the linearization, their feerates never rise, and within each no prefix beats the whole |
| Chunking.ChunkingUnique | src/cluster_linearize.h:374-389 | a linearization has only one such chunking |
| Chunking.ChunkedMonotone | src/cluster_linearize.h:374-389 | chunk feerates do not increase over any distance |
| Chunking.ChunksEnvelope | src/cluster_linearize.h:374-389 | for every slope the heaviest prefix of the linearization consists of the chunks steeper than the slope: the chunking is the concave envelope of the prefix sums |
| Chunking.FirstChunkBest | src/cluster_linearize.h:374-389 | no prefix has a higher feerate than the first chunk |
| Diagrams.ChunkLinearization | src/cluster_linearize.h:374-389 | the loop over a stack of feerates returns the feerates of that chunking |
| Diagrams.RatesTotal | src/cluster_linearize.h:374-389 | chunking conserves total fee and total size |
| Diagrams.DiagramDominance | src/cluster_linearize.h:1011-1012 | for linearizations of one set, having heaviest prefixes at least as heavy at every slope is equivalent to a feerate diagram that is nowhere lower, as real-valued piecewise linear functions |
| Diagrams.OptimalIsBest | src/cluster_linearize.h:1013-1014 | a linearization whose heaviest prefixes bound every topologically valid set is at least as good as every valid linearization |
| Diagrams.AsGoodAsOptimal | src/cluster_linearize.h:1013-1014 | a linearization at least as good as an optimal one is optimal |
| LinearizationChunkings.LinearizationChunking.constructor | src/cluster_linearize.h:440-448 | the object holds the chunks of the linearization |
| LinearizationChunkings.LinearizationChunking.BuildChunks | src/cluster_linearize.h:411-436 | the chunks of the remaining transactions are rebuilt and the done prefix is dropped |
| LinearizationChunkings.LinearizationChunking.MarkDone | src/cluster_linearize.h:461-481 | the object then holds the chunks of the linearization without the removed transactions, whether or not they were the first chunk |
| LinearizationChunkings.LinearizationChunking.IntersectPrefixes | src/cluster_linearize.h:492-516 | the result is the shortest intersection with chunk prefixes whose feerate is not below the subset's, with its exact feerate |
| LinearizationChunkings.MoveToFront | src/cluster_linearize.h:483-491 | moving a movable set to the front, in any order, does not make a linearization worse |
| LinearizationChunkings.IntersectionMovable | src/cluster_linearize.h:483-491 | if the subset is no worse than the first chunk, that intersection is movable |
| LinearizationChunkings.FirstChunkPartMovable | src/cluster_linearize.h:483-491 | so is a part of the first chunk that is no worse than the chunk |
| Merging.MergeLinearizations | src/cluster_linearize.h:1297-1337 | merging two valid linearizations of a cluster gives a valid one whose diagram is nowhere below either |
| Merging.ChoiceMovable | src/cluster_linearize.h:1318-1327 | the set taken each round is closed and movable in what remains of both |
| Merging.ChooseSet | src/cluster_linearize.h:1315-1327 | the code picks such a set whichever input has the better first chunk |
| PostLinearization.PostLinearize | src/cluster_linearize.h:1096-1295 | in place: the array becomes the result of the two passes, a valid linearization at least as good as before, with connected chunks, optimal on graphs of either tree shape |
| PostLinearization.RunPass | src/cluster_linearize.h:1206-1294 | one pass over the linked entries rewrites the array to what inserting its transactions one by one gives |
| PostLinearization.InsertTransaction | src/cluster_linearize.h:1213-1271 | appending one transaction to the circular list of groups and running its merge/swap cycle represents the insertion on sequences of groups, in both directions |
| PostLinearization.CycleStep | src/cluster_linearize.h:1233-1270 | when the cycle goes on there is a previous group, and the dependency test decides between merging and swapping as the insertion does |
| PostLinearization.WriteBack | src/cluster_linearize.h:1273-1293 | following the links from the last group writes the groups out in order, reversed in even passes |
| GroupPasses.PassGuarantees | src/cluster_linearize.h:1205-1294 | a pass keeps a linearization valid and makes its diagram nowhere worse, and its groups are exactly the chunks of the result |
| PassTheorems.PassConnected | src/cluster_linearize.h:1103-1103 | after a pass every chunk is connected |
| PassTheorems.PassOptimalOnTrees | src/cluster_linearize.h:1104-1105 | a pass is optimal if the descendants of every transaction form a chain |
| PassTheorems.OneChildChain | src/cluster_linearize.h:1104-1105 | they do if every transaction has at most one reduced child |
| PassTheorems.TreeBound | src/cluster_linearize.h:1104-1105 | on such graphs no topologically valid set outweighs the heavy groups |
| PostLinearizeSpec.PostLinearizeGuarantees | src/cluster_linearize.h:1102-1105 | both passes together: valid, nowhere worse, connected chunks, and optimal when all transactions have at most one child or all have at most one parent |
| PostLinearizeSpec.PassMovesBack | src/cluster_linearize.h:1106-1110 | a pass that meets a leaf first is at least as good as one that would have met it later |
| PostLinearizeSpec.MovedLeafGuarantee | src/cluster_linearize.h:1106-1110 | moving a leaf to the end, optionally raising its fee, and postlinearizing gives a diagram nowhere below the original one |
| AncestorFinders.AncestorCandidateFinder.constructor | src/cluster_linearize.h:543-567 | every ancestor-set feerate is exact |
| AncestorFinders.AncestorCandidateFinder.MarkDone | src/cluster_linearize.h:575-586 | they stay exact when transactions are removed |
| AncestorFinders.AncestorCandidateFinder.FindCandidateSet | src/cluster_linearize.h:605-618 | the result is the remaining ancestor set of some transaction, with its exact feerate, and none of the others is better |
| SearchFinders.SearchCandidateFinder.constructor | src/cluster_linearize.h:669-692 | the finder holds the graph re-indexed by decreasing feerate |
| SearchFinders.SearchCandidateFinder.FindCandidateSet | src/cluster_linearize.h:698-986 | the result is a topologically valid set no worse than the one given; if fewer splits than allowed were made no topologically valid set has a higher feerate; and with n transactions left fewer than 2^n splits are ever made, so a budget of 2^n always gives a best set |
| SearchFinders.SearchCandidateFinder.MarkDone | src/cluster_linearize.h:988-998 | exactly the given transactions are removed |
| SearchFinders.SortPositions | src/cluster_linearize.h:674-684 | the positions in decreasing feerate order, each once |
| SearchFinders.SortGraph | src/cluster_linearize.h:669-692 | the re-indexed graph is the original one under inverse mappings |
| SearchFinders.BestMoved | src/cluster_linearize.h:982-985 | a best set of the re-indexed graph, mapped back, is a best set of the original |
| SearchLoops.Search | src/cluster_linearize.h:717-986 | the same claims on the re-indexed graph, for every order in which items are taken from either end and swapped |
| SearchLoops.StartQueue | src/cluster_linearize.h:762-777 | the first queue holds one item for each connected component, and the starting set is valid |
| SearchLoops.ChooseSplit | src/cluster_linearize.h:904-928 | the chosen transaction minimises the size of the remaining search space, the first among equals |
| SearchLoops.CountsOrder | src/cluster_linearize.h:914-918 | ordering (max, min) pairs lexicographically is ordering 2^max + 2^min |
| SearchLoops.SplitItem | src/cluster_linearize.h:872-944 | whatever best set the item led to, one of the two halves still leads to it, or the item was rightly dropped; and the halves together allow fewer further splits than the item did |
| SearchLoops.ComponentSplits | src/cluster_linearize.h:762-777 | the items of the connected components together allow no more splits than one item with all transactions would |
| SearchLoops.SwapInvariant | src/cluster_linearize.h:958-962 | swapping the first two items keeps the invariant and the queue within its capacity |
| Searching.AddItem | src/cluster_linearize.h:797-866 | an added item loses no best set, keeps every item's bound truthful, and the queue never outgrows its capacity |
| Searching.TrimImprovers | src/cluster_linearize.h:782-788 | exactly the transactions steeper than best remain |
| Searching.BuildPotential | src/cluster_linearize.h:800-813 | the potential is the included set with undecided improvers added while each raises the feerate |
| Searching.JumpAhead | src/cluster_linearize.h:815-833 | exactly the transactions of the potential whose remaining ancestors it contains are included, and the result is closed |
| Searching.UpdateBest | src/cluster_linearize.h:838-847 | best never gets worse, and the improvers stay those steeper than best |
| SearchTheory.BestCandidateExists | src/cluster_linearize.h:698-716 | there is a topologically valid set of highest feerate |
| SearchTheory.PotentialBound | src/cluster_linearize.h:733-740 | no set between the included transactions and those plus the undecided ones beats both the potential and best |
| SearchTheory.JumpAheadSafe | src/cluster_linearize.h:815-825 | a closed part of the potential belongs to every best set compatible with the item |
| SearchTheory.SplitReaches | src/cluster_linearize.h:896-907 | a best set either avoids the split transaction with its descendants or contains it with its remaining ancestors |
| SearchTheory.PrunedIncluded | src/cluster_linearize.h:884-890 | an item dropped because no improver is left in it, or its potential is not better, leads to nothing better than best |
| SearchTheory.PrunedEmpty | src/cluster_linearize.h:891-894 | so does an item with nothing included whose steepest transaction is no better |
| SearchTheory.ComponentReaches | src/cluster_linearize.h:762-777 | a best set lies within one connected component, or its part there is a best set too |
| Linearization.Linearize | src/cluster_linearize.h:1000-1094 | the result is a valid linearization, at least as good as the old one, and optimal among all valid ones whenever the flag says so; the flag is set for every budget of at least ceil(n^2/64) + n * ceil(n/4) + 2^(n+1), and never when the start uses up the budget |
| Linearization.Round | src/cluster_linearize.h:1045-1091 | one round outputs a set, keeps the output at least as good as the old linearization, keeps optimality while the search finished, and with enough budget for what is left still has enough afterwards |
| Linearization.ChooseBest | src/cluster_linearize.h:1046-1079 | the set output is valid, can be moved to the front of the old linearization, and is a best one if the flag stays set, which it does when the budget is enough |
| Linearization.EnoughStep | src/cluster_linearize.h:1058-1069 | a budget enough for n transactions pays for a search among them within half of it, and is then still enough for any fewer |
| Linearization.OptimalStep | src/cluster_linearize.h:1019-1094 | outputting a best set first keeps the possibility of an optimal whole |
| Linearization.BestAbsorbs | src/cluster_linearize.h:1019-1094 | at any slope, adding a best set to a closed set makes it no lighter, unless the closed set weighs nothing |
| Linearization.BestMovable | src/cluster_linearize.h:1071-1079 | a best set can be moved to the front of any linearization |
| Linearization.IntersectedChoice | src/cluster_linearize.h:1071-1079 | the intersection with the old chunks is a valid set that can be moved to the front |
| CoinsCaches.Run | src/coins.cpp:48-291 | any run of fetches, additions, spends, uncachings, flushes and syncs on the top of any stack of caches answers and ends as the same run on a plain map of unspent coins |
| CoinsCaches.CoinsViewCache.OverStore | src/coins.cpp:37-42 | an empty cache shows the unspent coins of the store |
| CoinsCaches.CoinsViewCache.Over | src/coins.cpp:37-42 | an empty cache on a cache shows what that one shows |
| CoinsCaches.CoinsViewCache.FetchCoin | src/coins.cpp:48-64 | what is visible does not change; a found entry is cached, a visible coin as it is in the base, and nothing found means not visible |
| CoinsCaches.CoinsViewCache.GetCoin | src/coins.cpp:66-70 | the visible coin, or none |
| CoinsCaches.CoinsViewCache.HaveCoin | src/coins.cpp:166-169 | true exactly for visible coins |
| CoinsCaches.CoinsViewCache.AccessCoin | src/coins.cpp:157-164 | the visible coin, or a spent one |
| CoinsCaches.CoinsViewCache.HaveCoinInCache | src/coins.cpp:171-174 | true exactly for coins both visible and cached |
| CoinsCaches.CoinsViewCache.AddCoin | src/coins.cpp:72-112 | the coin becomes visible with exact flags and memory count; the exception is raised exactly when a cached unspent coin would be overwritten unasked; afterwards the flags are truthful exactly if overwriting was allowed or there was nothing to overwrite |
| CoinsCaches.CoinsViewCache.SpendCoin | src/coins.cpp:132-153 | exactly that coin disappears from view, and is handed out if it was visible; its entry is dropped if it was FRESH and otherwise DIRTY and spent; not found leaves the entries alone |
| CoinsCaches.CoinsViewCache.Uncache | src/coins.cpp:277-291 | an entry without flags is forgotten, any other is kept, and nothing visible changes |
| CoinsCaches.CoinsViewCache.WriteEntry | src/coins.cpp:186-249 | taking over a truthful child entry raises no exception, shows the child's version and keeps the own flags truthful |
| CoinsCaches.CoinsViewCache.BatchWrite | src/coins.cpp:186-251 | walking the flagged list, the base ends up showing what the child showed, with the child's best block |
| CoinsCaches.CoinsViewCache.NextAndMaybeErase | src/coins.h:351-365 | the cursor visits every flagged entry once, cleaning or erasing the one it leaves, with the memory count adjusted |
| CoinsCaches.CoinsViewCache.Flush | src/coins.cpp:253-262 | the base shows what this view showed and takes its best block; the cache is empty and the view unchanged |
| CoinsCaches.CoinsViewCache.Sync | src/coins.cpp:264-275 | the same with the unspent coins kept, unflagged; the check for leftover flagged entries never fails |
| CoinsCaches.CoinsViewCache.SetBestBlock | src/coins.cpp:182-184 | the best block is stored and nothing else changes |
| CoinsCaches.CoinsViewCache.SanityCheck | src/coins.cpp:331-362 | every assertion of the check holds in a valid cache: flag states, memory count, and the list walked both ways |
| CoinsLists.AddFlags | src/coins.h:199-211 | flags accumulate; an entry that had none joins the end of the circular list |
| CoinsLists.SetClean | src/coins.h:247-254 | the entry loses its flags and leaves the list, which stays a circular list |
| CoinsLists.CoinsCachePair.Sentinel | src/coins.h:273-280 | a new list is the sentinel linked to itself |
| CoinsTheory.FetchKeeps | src/coins.cpp:48-64 | caching a coin of the base keeps the flags truthful and the view unchanged |
| CoinsTheory.UncacheKeeps | src/coins.cpp:277-291 | so does forgetting an unflagged entry |
| CoinsTheory.AddKeeps | src/coins.cpp:72-112 | an added coin becomes visible, and the flags stay truthful if and only if overwriting was allowed or the coin was not visible |
| CoinsTheory.UnnoticedOverwrite | src/coins.cpp:82-100 | a coin of the base that is not cached can be overwritten unasked without an exception, and the FRESH flag then lies |
| CoinsTheory.SpendKeeps | src/coins.cpp:132-153 | spending removes exactly one visible coin and keeps the flags truthful, whether the entry is dropped or marked |
| CoinsTheory.UnspendableLaws | src/script/script.h:643-646 | a script that starts with OP_RETURN is unspendable, so is one over the size limit, extending keeps it so, and the null coin is not of that kind |
| CoinsTheory.WriteKeeps | src/coins.cpp:186-249 | writing a truthful child entry into a truthful parent does what overlaying it on the visible map does, without misapplied FRESH |
| CoinsTheory.WrittenAll | src/coins.cpp:186-251 | after all flagged entries are written the parent shows what the child showed |
| CoinsTheory.SyncKeeps | src/coins.cpp:264-275 | the unflagged remainder is truthful over the new parent and shows the same coins |
| CheckQueues.RunCorrect | src/checkqueue.h:72-189 | in every state of every interleaving the counter of unfinished checks is exact, and the last value returned by Complete is nullopt if and only if all checks passed to Add for it returned nullopt, and otherwise the result of one of them; which checks those are is read off the steps alone |
| CheckQueues.RunInv | src/checkqueue.h:72-189 | the invariant holds along every run |
| CheckQueues.StepInv | src/checkqueue.h:72-189 | every critical section of every thread, including spurious wake-ups, keeps it |
| CheckQueues.InitialInv | src/checkqueue.h:144-155 | a new queue satisfies it |
| CheckQueues.ReturnsSession | src/checkqueue.h:98-106 | when Complete returns, the queue is empty, no check is in flight, and the value is correct for exactly the checks in the Add steps since it returned before |
| CheckQueues.RunRecorded | src/checkqueue.h:171-189 | along every run the checks on record are those the steps alone give: the ones in Add steps since Complete was last called, and those the last call was for |
| CheckQueues.StepRecorded | src/checkqueue.h:72-189 | every step keeps that |
| CheckQueues.NoneLost | src/checkqueue.h:171-189 | at any time these checks are exactly those queued, those in the hands of a thread and those finished |
| CheckQueues.CleanUpResults | src/checkqueue.h:84-93 | the first failing batch result is recorded, and a stale one never is |
| CheckQueues.NoDeadlock | src/checkqueue.h:84-112 | while the master is in Complete some thread can take a step that is not a spurious wake-up: no notification of the master is lost |
| CheckQueues.CostFalls | src/checkqueue.h:72-137 | each such step lowers a natural-number measure |
| CheckQueues.StuckReturned | src/checkqueue.h:72-137 | where no such step is left, Complete has returned |
| CheckQueues.CompleteReturns | src/checkqueue.h:166-169 | however threads are scheduled, only finitely many such steps precede its return |
| HeadersChains.CompressRoundTrip | src/headerssync.h:42-68 | decompressing restores a header exactly when given its predecessor's hash, and only then |
| HeadersChains.CommitmentAt | src/headerssync.cpp:216-227 | the commitment to a header sits where counting the committed heights before it says |
| HeadersChains.ReachedSnoc | src/headerssync.cpp:264-269 | the work threshold, once passed by a prefix, stays passed |
| HeadersChains.MatchesSnoc | src/headerssync.cpp:271-291 | accepting a header whose bit agrees, or after the work is reached, keeps the redownloaded chain in agreement with the commitments |
| HeadersSyncs.HeadersSyncState.constructor | src/headerssync.cpp:27-66 | a new state is valid, in its first phase, with nothing received |
| HeadersSyncs.HeadersSyncState.Finalize | src/headerssync.cpp:71-83 | the memory is freed, and the object accepts nothing any more |
| HeadersSyncs.HeadersSyncState.ProcessNextHeaders | src/headerssync.cpp:88-157 | headers are handed out only after a first-phase chain with enough work was committed to, in order, each once, linked, with permitted difficulty and agreeing with the commitments, and exactly as many as leave a full buffer behind them, or all once the redownloaded work is reached; acceptance, the request for more headers and the state that follows are characterised exactly in both phases |
| HeadersSyncs.HeadersSyncState.ValidateAndStoreHeadersCommitments | src/headerssync.cpp:159-196 | it succeeds exactly if the headers connect and each can be counted, and the second phase starts exactly when the work is reached |
| HeadersSyncs.HeadersSyncState.ValidateAndProcessSingleHeader | src/headerssync.cpp:198-234 | it succeeds exactly for a permitted difficulty and a commitment within the limit, and then extends the committed chain |
| HeadersSyncs.HeadersSyncState.ProcessRedownloaded | src/headerssync.cpp:118-153 | exactly the storable beginning of the message is accepted, exactly the headers beyond the buffer are released, nothing is on failure, and more is requested exactly after a full message while the work is not reached |
| HeadersSyncs.HeadersSyncState.ValidateAndStoreRedownloadedHeader | src/headerssync.cpp:236-299 | it succeeds exactly if the header connects, has permitted difficulty and agrees with its commitment, and then is buffered |
| HeadersSyncs.HeadersSyncState.CheckCommitment | src/headerssync.cpp:264-291 | the popped commitment is the one made to that height |
| HeadersSyncs.HeadersSyncState.PopHeadersReadyForAcceptance | src/headerssync.cpp:301-315 | what is returned continues what was released, and the buffer keeps its 741 headers unless all work is there |
| HeadersSyncs.FrontHeader | src/headerssync.cpp:301-315 | the front of the buffer decompresses to the next header to release |
| AddrManRuns.Run | src/addrman.cpp:550-1166 | from empty tables, the consistency check returns 0 after every operation of every sequence of additions, good connections, attempts, connections, service updates, collision resolutions and collision selections |
| AddrManRuns.Step | src/addrman.cpp:550-1001 | every operation keeps the tables consistent, reuses no id, keeps an id's address, and keeps filled tried slots filled |
| AddrManRuns.SelfCheck | src/addrman.cpp:1048-1061 | the check passes on every valid manager |
| AddrManChecks.CheckAddrman | src/addrman.cpp:1063-1166 | the scan with its set, map and counters returns 0 if and only if the tables satisfy a declarative statement of consistency and the key is not null |
| AddrManChecks.ConsistentChecked | src/addrman.cpp:1063-1166 | the invariant of the operations implies that statement |
| AddrManChecks.ConsistentInArray | src/addrman.cpp:1115-1145 | consistent tables fit the bucket arrays |
| AddrManChecks.CheckEntries | src/addrman.cpp:1077-1108 | the scan of the entries succeeds exactly if each is sound, and then has collected the tried ids, the reference counts and the per-network counts |
| AddrManChecks.CheckTried | src/addrman.cpp:1115-1130 | erasing ids while scanning the tried table ends empty exactly if each tried entry sits once, at its hashed slot |
| AddrManChecks.CheckNew | src/addrman.cpp:1132-1145 | counting references down while scanning the new table ends empty exactly if every count is right |
| AddrManChecks.CheckCounters | src/addrman.cpp:1154-1163 | the recounted per-network counters agree exactly if the stored ones are right |
| AddrMans.AddrManImpl.constructor | src/addrman.cpp:109-125 | empty, consistent tables |
| AddrMans.AddrManImpl.FindExact | src/addrman.cpp:401-414 | an address is found exactly if it is indexed, and the entry found is for that address |
| AddrMans.AddrManImpl.Create | src/addrman.cpp:416-430 | a new entry with a fresh id, in the index, the random order and the counters |
| AddrMans.AddrManImpl.SwapRandom | src/addrman.cpp:432-454 | two positions of the random order are exchanged, with the entries' positions |
| AddrMans.AddrManImpl.Delete | src/addrman.cpp:456-471 | an entry without references leaves every structure |
| AddrMans.AddrManImpl.ClearNew | src/addrman.cpp:473-489 | the slot is emptied, its entry loses one reference and is deleted if that was the last; all else stays |
| AddrMans.AddrManImpl.RemoveFromNew | src/addrman.cpp:495-509 | walking the buckets from the entry's own one removes all its references, so the assertion on the count holds |
| AddrMans.AddrManImpl.MakeTried | src/addrman.cpp:491-548 | the entry takes its tried slot, and one that was there is back in the new table at the slot of its own source |
| AddrMans.AddrManImpl.Evict | src/addrman.cpp:515-541 | the evicted entry is in the new table with one reference |
| AddrMans.AddrManImpl.PlaceNew | src/addrman.cpp:599-623 | the slot is taken exactly if it is free, or its entry is terrible or has other references while the newcomer has none; a newcomer without a slot is deleted |
| AddrMans.AddrManImpl.UpdateKnown | src/addrman.cpp:565-593 | time and services are refreshed as specified, and going on is decided exactly |
| AddrMans.AddrManImpl.CreateNew | src/addrman.cpp:594-597 | a new entry with the services and source heard of, and the time less the penalty but not negative |
| AddrMans.AddrManImpl.FindOrCreate | src/addrman.cpp:557-597 | exactly the entry of that address is refreshed or made, and it is to be placed exactly if it is new or wanted again |
| AddrMans.TerribleLaws | src/addrman.cpp:69-92 | an entry tried in the last minute is never terrible; otherwise one not heard of for 30 days or dated more than ten minutes ahead is, and so is one with three failures and no success ever, or ten failures and no success for a week; in time, fewer failures or a recent success keep it from being so; more failures never cure it |
| AddrMans.RefreshLaws | src/addrman.cpp:565-575 | refreshing never loses a service, never moves the time back, takes over the penalised time exactly when it is newer by an hour or a day, and changes nothing else |
| AddrMans.AddrManImpl.AddSingle | src/addrman.cpp:550-624 | an address is added exactly if it is routable, new or wanted again, and its slot can be taken; otherwise the new table is unchanged; the entry has the services, source and penalised time it was heard with, and the records of other addresses stay |
| AddrMans.AddrManImpl.Good_ | src/addrman.cpp:626-679 | the address moves to tried exactly if it is known, not tried yet and does not have to be tested against an occupant; statistics, the evicted entry and the recorded collision are as specified |
| AddrMans.AddrManImpl.Attempt_ | src/addrman.cpp:693-711 | exactly the entry of that address changes, and a failure counts once between two successes |
| AddrMans.AddrManImpl.Connected_ | src/addrman.cpp:877-894 | exactly the time of that entry is updated, if it is older than 20 minutes |
| AddrMans.AddrManImpl.SetServices_ | src/addrman.cpp:896-910 | exactly the services of that entry are replaced |
| AddrMans.AddrManImpl.ResolveCollisions_ | src/addrman.cpp:912-973 | no address connected to in the last four hours loses its tried slot, and no record is added; a record that stays called for nothing before and calls for nothing afterwards; a dropped one is settled: its address is unknown or invalid, or the occupant of its slot was connected to in the last four hours; every occupant is the old one, or an address whose record called for replacement |
| AddrMans.AddrManImpl.ResolveOne | src/addrman.cpp:916-968 | a record is kept, dropped or acted on exactly as the times say, only the slot concerned is replaced, and a dropped record is settled |
| AddrMans.AddrManImpl.ReplaceWith | src/addrman.cpp:941-951 | the newcomer takes the slot, with a success recorded now |
| AddrMans.ResolutionLater | src/addrman.cpp:912-973 | while records are being resolved, what is decided about one is what the state before all of them called for, or it is dropped |
| AddrMans.AddrManImpl.SelectTriedCollision_ | src/addrman.cpp:975-1001 | the address returned occupies the slot that the chosen record is about; a stale record is dropped |
| AddrMans.CollisionsKept | src/addrman.cpp:912-1001 | recorded collisions keep concerning occupied slots through every operation |
| AddrManSteps.TouchKeeps | src/addrman.cpp:626-711 | changing statistics keeps consistency |
| AddrManSteps.CreateKeeps | src/addrman.cpp:416-430 | so does creating an entry, which then lacks only a reference |
| AddrManSteps.DeleteKeeps | src/addrman.cpp:456-471 | so does deleting an entry without references |
| AddrManSteps.ReferenceKeeps | src/addrman.cpp:610-613 | so does filling a free slot of the right bucket |
| AddrManSteps.UnreferenceKeeps | src/addrman.cpp:478-483 | so does emptying a slot |
| AddrManSteps.DemoteKeeps | src/addrman.cpp:522-526 | so does taking an entry out of tried |
| AddrManSteps.PromoteKeeps | src/addrman.cpp:544-547 | so does putting an entry without references into its free tried slot |
| CuckooCaches.Cache.Insert | src/cuckoocache.h:397-445 | the table, the flags and the dropped element are exactly those of the recursive displacement after the check of the epoch; everything found before is still found, and everything live still live, except the dropped element; the inserted one is live unless it is the dropped one; with a free place it goes there and nothing else moves |
| CuckooCaches.Cache.Displace | src/cuckoocache.h:412-444 | the loop of exchanges is the recursive displacement, within the budget of the epoch |
| CuckooCaches.DisplacedKeeps | src/cuckoocache.h:412-444 | through any number of exchanges the table and the hand hold the same elements, each found or in hand, each live one live or in hand |
| CuckooCaches.DisplacedRoom | src/cuckoocache.h:412-424 | with a collectable place the element goes there, stays live, and nothing else moves |
| CuckooCaches.Cache.Contains | src/cuckoocache.h:474-484 | found exactly if one of its eight places holds it, in particular if any uncollectable slot does; asked to erase, exactly that slot becomes collectable |
| CuckooCaches.Cache.constructor | src/cuckoocache.h:336-349 | the cache is usable exactly if its size plus seven fits 32 bits: for the seven largest sizes the flag array wraps to nothing |
| CuckooCaches.Cache.EpochCheck | src/cuckoocache.h:286-318 | the flags and the counter become exactly what the counter, the count of recent live entries and the epoch size call for; the number of live entries of an epoch stays within its budget, and nothing becomes uncollectable |
| CuckooCaches.Cache.CountRecent | src/cuckoocache.h:292-297 | the scan counts exactly the live entries of the epoch |
| CuckooCaches.Cache.Age | src/cuckoocache.h:298-308 | entries of the previous epoch become collectable and the current epoch becomes the previous one |
| CuckooCaches.FastRangeBelow | src/cuckoocache.h:240-250 | every hash is mapped into the table |
| CuckooCaches.ReplacedPresent | src/cuckoocache.h:397-445 | putting an element into one of its places hides at most the element that was there |
| CuckooCaches.BitPackedFlags.constructor | src/cuckoocache.h:63-70 | all flags set; there are enough exactly if the size plus seven fits 32 bits |
| CuckooCaches.BitPackedFlags.BitSet | src/cuckoocache.h:93-96 | exactly that flag is set |
| CuckooCaches.BitPackedFlags.BitUnset | src/cuckoocache.h:104-107 | exactly that flag is cleared |
| Chains.GetAncestor | src/chain.cpp:94-119 | following skip pointers gives the ancestor that walking back one block at a time gives, or null outside the heights |
| Chains.SkipBelow | src/chain.cpp:81-92 | a skip pointer leads to a lower height |
| Chains.AncestorOfAncestor | src/chain.cpp:94-119 | the ancestor of an ancestor is the ancestor |
| Chains.InLine | src/chain.cpp:94-119 | a block is on another's line exactly if it is its ancestor at that height |
| Chains.BuildSkip | src/chain.cpp:126-130 | the pointer set is the ancestor at the skip height, and the tree stays sound |
| Chains.LastCommonAncestor | src/chain.cpp:166-181 | the result is a common ancestor, at least as high as every other, and exists for blocks with one genesis |
| Chains.Chain.SetTip | src/chain.cpp:22-30 | the chain becomes exactly the ancestors of the tip, although rewriting stops at the first block already in place |
| Chains.Chain.FindFork | src/chain.cpp:61-70 | the highest block of the chain on the other block's line |
| Chains.LocatorEntries | src/chain.cpp:32-49 | ancestors in decreasing height from the block to the genesis block, at the prescribed distances |
| Chains.LocatorShort | src/chain.cpp:32-49 | below height 2^n a locator has at most n + 12 entries |
| ArithUints.Add | src/arith_uint256.h:128-138 | digit-wise addition with carry is addition modulo 2^(32n), for every width |
| ArithUints.Not | src/arith_uint256.h:62-68 | a number and its complement sum to 2^(32n) - 1 |
| ArithUints.Increment | src/arith_uint256.h:166-173 | addition of one modulo 2^(32n) |
| ArithUints.Negate | src/arith_uint256.h:70-77 | the additive inverse modulo 2^(32n) |
| ArithUints.Subtract | src/arith_uint256.h:140-144 | subtraction modulo 2^(32n) |
| ArithUints.CompareTo | src/arith_uint256.cpp:102-111 | the sign is that of comparing the numbers |
| ArithUints.MultiplySmall | src/arith_uint256.cpp:48-57 | multiplication by a digit modulo 2^(32n) |
| ArithUints.Multiply | src/arith_uint256.cpp:60-73 | schoolbook multiplication is multiplication modulo 2^(32n), and no 64-bit intermediate overflows |
| ArithUints.Bits | src/arith_uint256.cpp:156-168 | the position of the highest set bit |
| ArithUints.ShiftLeft | src/arith_uint256.cpp:14-28 | multiplication by 2^s modulo 2^(32n), for every s |
| ArithUints.ShiftRight | src/arith_uint256.cpp:31-45 | floor division by 2^s, for every s |
| ArithUints.Divide | src/arith_uint256.cpp:76-99 | bit-wise long division is floor division, and fails exactly for a zero divisor |
| Compacts.CompactRoundTrip | src/arith_uint256.cpp:175-216 | encoding any number with either sign, decoding that and encoding again gives the same form, without overflow |
| Compacts.SignedStable | src/arith_uint256.cpp:175-216 | the decoded number is the encoded one cut to its leading bytes, zero only for zero, and encodes, with the decoded sign, to the same form |
| Compacts.CompactLargest | src/arith_uint256.cpp:195-216 | the form of a number stands for the largest number not above it that any compact form stands for |
| Compacts.SetCompact | src/arith_uint256.cpp:175-193 | the value is what the form stands for modulo 2^256, with exact sign and overflow flags |
| Compacts.OverflowExact | src/arith_uint256.cpp:188-191 | the three-way size test is equivalent to a value of at least 2^256 |
| Compacts.GetCompact | src/arith_uint256.cpp:195-216 | the form holds the leading bytes and the byte length, moved out of the sign bit |
| Compacts.GetBlockProof | src/chain.cpp:132-145 | the complement-divide-increment formula equals floor(2^256 / (target + 1)), and 0 for negative, zero or overflowing targets |
| Base58s.EncodeBase58 | src/base58.cpp:89-127 | the base conversion in a fixed buffer gives a one for each leading zero byte and the minimal base 58 digits of the rest |
| Base58s.DecodeBase58 | src/base58.cpp:40-87 | the result, or the failure, is that of the declarative decoding: one word of base 58 characters with spaces around, within the limit |
| Base58s.DecodeEncoded | src/base58.cpp:40-127 | an encoded byte string decodes to itself exactly if the limit allows its length |
| Base58s.EncodeDecoded | src/base58.cpp:40-127 | what a string decodes to encodes to its word without the spaces: the decoding is injective up to spaces |
| Base58s.Accumulate | src/base58.cpp:63-69 | one multiply-and-add over the buffer keeps it the digits of the number, with no carry lost |
| Radix.EnoughDigits | src/base58.cpp:53-55 | n digits in base b fit n * p / q + 1 digits in base c whenever b^q <= c^p |
| Radix.BytesToBase58 | src/base58.cpp:98-100 | 256^100 <= 58^138, so the encoder's buffer is large enough |
| Radix.Base58ToBytes | src/base58.cpp:53-55 | 58^1000 <= 256^733, so the decoder's buffer is large enough |
| Base58s.EncodeBase58Check | src/base58.cpp:137-144 | the encoding of the bytes with the first four bytes of their hash |
| Base58s.DecodeBase58Check | src/base58.cpp:146-161 | the bytes, exactly if they decode within the limit and their hash agrees |
| Base58s.CheckRoundTrip | src/base58.cpp:137-161 | decoding undoes encoding exactly if the limit, clamped to an int, leaves room for the checksum, and fails otherwise |
| Base58s.CheckDecodedOnly | src/base58.cpp:146-161 | nothing else is decoded |
| Bech32s.PolyMod | src/bech32.cpp:130-216 | the loop on packed 30-bit words computes the residue of the polynomial with a leading one modulo the generator |
| Bech32Poly.StepLinear | src/bech32.cpp:186-212 | a step is linear over GF(2) |
| Bech32Poly.StepBijective | src/bech32.cpp:186-212 | for every symbol a step is a bijection on residues, with an explicit inverse |
| Bech32Poly.ResidueLinear | src/bech32.cpp:130-216 | the residue of a sum of words is the sum of their residues |
| Bech32Poly.OneErrorDetected | src/bech32.cpp:130-216 | words of any length that differ in one symbol have different residues |
| Bech32Poly.ChecksumUnique | src/bech32.cpp:342-353 | exactly one choice of the last six symbols reaches a given residue |
| Bech32s.SubstitutionDetected | src/bech32.cpp:327-339 | changing one symbol of a valid word never gives a valid word of the same encoding |
| Bech32s.ChecksumOnly | src/bech32.cpp:327-353 | a word is valid exactly if its last six symbols are the checksum |
| Bech32s.CreateChecksum | src/bech32.cpp:342-353 | the six symbols make the word valid |
| Bech32s.VerifyChecksum | src/bech32.cpp:327-339 | the encoding returned is the one, if any, for which the word is valid |
| Bech32s.PreparePolynomialCoefficients | src/bech32.cpp:311-324 | high bits, a zero, low bits, then the values |
| Bech32Strings.CheckCharacters | src/bech32.cpp:287-309 | no error exactly if all characters are printable and letters are of one case |
| Bech32Strings.RevOfChar | src/bech32.cpp:22-36 | the reverse table gives back the value of every character of the set |
| Bech32Strings.CharOfRev | src/bech32.cpp:22-36 | a character of either case that has a value in the table is, in lower case, that value's character of the set |
| Bech32Strings.ValuePlace | src/bech32.cpp:22-36 | every value stands in the table where the code of its character says |
| Bech32Strings.Encode | src/bech32.cpp:358-371 | the prefix, the separator and the characters of the values and the checksum |
| Bech32Strings.Decode | src/bech32.cpp:374-400 | a payload is returned if and only if the string, up to case, is its encoding and fits the limit; so at most one is |
| Bech32Strings.DecodeEncoded | src/bech32.cpp:358-400 | an encoded payload decodes to itself, for every printable lower-case prefix within the limit |
| Bech32Strings.EncodesOnce | src/bech32.cpp:374-400 | a string encodes at most one payload |
| Bech32Vectors.Bip173 | src/test/bech32_tests.cpp:15-34 | A12UEL5L encodes the empty payload with prefix a in Bech32 |
| Bech32Vectors.Bip350 | src/test/bech32_tests.cpp:36-55 | a1lqfn3a encodes the same in Bech32m |

## Left out

- Fees and sizes: integers are unbounded, so the 64-bit fee, 32-bit size and 96-bit product ranges of `src/util/feefrac.h`, and the fallback multiplication, are not modelled.
- `CompareChunks`, `DepGraph` serialization and `IsConnected`, which would only add easy members.
- SearchFinders.SearchCandidateFinder.FindCandidateSet: the seeded random generator is a free choice at each swap, so the distribution of the search order is not modelled.
- DepGraphObjects.DepGraph.AddTransaction: the caller must leave a free position, as the source assumes.
- CoinsCaches.CoinsViewCache.BatchWrite: the base writes entry by entry, so moving coins out of the child instead of copying them, failed writes of a database, and its batching are not modelled.
- `GetBestBlock`, `EmplaceCoinInternalDANGER`, `AddCoins`, `GetValueIn`, the pool allocator and `ReallocateCache` of the coins cache.
- The stop request, the destructor and the worker threads' start of the check queue; the notification in `Add` is taken together with the critical section before it.
- `NextHeadersRequestLocator`, and how the limit on commitments follows from the clock; the limit is a parameter.
- AddrMans.AddrManImpl.Good_: the clock reads a positive time, and so it does for attempts and collision resolution.
- AddrMans.AddrManImpl.AddSingle: the outcome of the stochastic test is a parameter, and hashes to buckets and positions are uninterpreted functions.
- AddrMans.AddrManImpl.MakeTried: counters are updated in a different order between the same two states.
- AddrManChecks.CheckAddrman: error codes other than 0 are grouped by the table they are found in.
- `Select_`, `GetAddr_`, `GetEntries_`, `FindAddressEntry_` and serialization of the address manager.
- CuckooCaches.Cache.constructor: the depth limit, a rounded floating-point logarithm, is a parameter; atomic memory orders and `setup_bytes` are not modelled.
- `FindEarliestAtLeast`, `GetBlockProofEquivalentTime`, and the null argument of `LocatorEntries`, which returns nothing.
- ArithUints.Divide: operators return new values, so assignment to one of their own operands in place is not captured; the same holds for the other operators.
- `getdouble`, `GetHex` and conversions of big integers.
- Base58s.EncodeBase58Check: the hash is an uninterpreted function.
- Bech32Strings.Encode: characters of the prefix are seven bits wide, since wider ones do not give five-bit symbols.
- `LocateErrors` of Bech32, which makes no general promise.
