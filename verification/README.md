# A model of in-memory consensus, sync and scheduling

These Dafny modules model the in-memory logic of the node's `ca/` and `common/` layers and prove what
that logic keeps over all inputs, all visiting orders, all interleavings and all runs.

Each area has one module. Where the program changes state step by step, the module has a class or a
method with a loop, and its contract ties the new state to a specification function of the old state.
The lemmas are about those functions. Where the program runs a protocol, a `State`, an event type,
`Step` and `Run` describe it, and the main lemmas hold for every run.

| module | what it covers |
|---|---|
| `Orders` | lexicographic order of strings, sorting, `set_intersection` and `set_difference` on sorted ranges, the ascending walk over an ordered set |
| `DependencyGroups`, `Dispatcher`, `Packager` | grouping of contract transactions by shared addresses, its eight-way split, the packager's separation of isolated transactions |
| `Ledger`, `Checker`, `DoubleSpendReport` | transactions and blocks, the conflict test, the block-level double-spend report |
| `TransactionPool`, `BroadcastPool`, `OrphanCascade` | the pools the conflict test guards, and the recursive save of waiting blocks |
| `BuildHeight` | the height of the next block |
| `SumHash`, `HashVote`, `RangeCoalescing`, `SyncScheduler` | sum hashes, the vote on block hashes, ranges of heights to sync, the kind of each sync round |
| `Rendezvous` | collecting replies to a request under concurrent calls |
| `Checkpoints`, `FailureVotes` | 1000-height checkpoints, failure votes and the rebuilt block |
| `DelegationCache` | the dirty-flag cache of delegated amounts |

Conventions. An unordered map is visited in an order that is a parameter. Time, peer replies, the
outcome of a network call and the verdict of block verification are parameters. A fractional threshold is
an integer inequality (0.75 n becomes 4 x >= 3 n) and a truncated one is integer division. The digest
function is a parameter; where a lemma needs it, it has no collision and one length on the strings that are
hashed, and a lemma shows that such a digest exists for any lists. Where a lemma reads input keys back,
outputs, addresses and currencies hold no `_`, the separator of a key. Concurrent code is modelled at lock
granularity: one step per critical section.

Where the program does not have a property one would expect of it, the module says exactly when it has it.

* The greedy grouping is disjoint for every visiting order if and only if no two transactions of one
  component are more than two sharing links apart.
* The double-spend report decides "a key is spent twice" if and only if the block has no unstake,
  undelegate or unlock transaction; the guard in the source reads as if it only skipped keys already
  present, but `&&` binds tighter than `||`.
* The conflict test and the report use different keys for contract inputs. On a conflict-free pool without
  exempt types the report is empty if and only if no transaction repeats a key and no output that a contract
  spends in one transaction has a report key of another.
* The broadcast pool stays conflict-free if and only if every admitted block conflicted with at most one
  pooled block, because only the first conflicting block is evicted.
* The running intersection of the hash vote is the set of peers that hold every requested block if and only
  if some peer does or it ends empty; otherwise it was started afresh.
* A new-sync round starts at or below every outstanding request, throughout a run, if and only if no request
  arrived while the remembered start was zero and a much lower one was outstanding. Its window holds them all
  if and only if each is within 100 of the window's centre. No request is dropped unsynced throughout a run
  if and only if no round succeeds while an outstanding height is farther from its centre.
* A responder counts twice only if it is registered again after it answered: over every interleaving each
  counts at most once, and can count no second time, if and only if that never happens.
* Each recorded message is dispatched exactly once for every visiting order if and only if no recorded hash
  with a message, nor one it shares an address with, is more than two sharing links from another of its
  component. When every recorded hash has a message, that is the condition for disjoint groups.
* A checkpoint commit advances the top by 1000 if and only if the stored top could be read at least once in
  the call, or there was none. The stored checkpoints stay exactly 1000, 2000, up to the top if and only if
  no call commits without either reading while the top is above 1000.
* The greatest utxo height and the height returned are exact if and only if they fit in 31 bits.
* A conflicting pooled block is evicted for a broadcast block that is not admitted if and only if that block
  is then dropped, made to wait, or refused for a twin of its height and time.
* Failure votes count names, not peers: the two agree if and only if no report repeats a name.
* A change of delegations that is not marked dirty is seen if and only if the entry was dirty or below the
  minimum, or the total did not change.

## Model

| member | source | states |
|---|---|---|
| DependencyGroups.HasDuplicate | ca/dispatchtx.cpp:122-130 | true exactly when the two address lists have an element in common |
| DependencyGroups.CommonKeys | ca/dispatchtx.cpp:49-56 | the inner pass collects a key and exactly the other keys that share an address with it |
| DependencyGroups.GroupByDependency | ca/dispatchtx.cpp:46-74 | the grouping loop with its break computes the greedy fold over the visiting order |
| DependencyGroups.GreedyCoversAndConnects | ca/dispatchtx.cpp:46-74 | for every visiting order, sharers are together in some group and no group leaves a connected component |
| DependencyGroups.GreedyKeepsSharersTogether | ca/packager_dispatch.cpp:21-54 | every visited transaction is in a group with everything it shares an address with |
| DependencyGroups.GreedyStaysInComponents | ca/packager_dispatch.cpp:21-54 | each group holds one member's whole neighbourhood and stays inside one component |
| DependencyGroups.AlwaysDisjointIffShortCuts | ca/dispatchtx.cpp:57-72 | the groups are disjoint for all visiting orders if and only if components have diameter at most two |
| DependencyGroups.LongPathOverlaps | ca/dispatchtx.cpp:57-72 | where that fails, a visiting order with two overlapping groups exists, because merging stops at the first group |
| DependencyGroups.ChainOverlaps | ca/dispatchtx.cpp:57-72 | on a chain of four transactions some visiting order gives two overlapping groups |
| DependencyGroups.NeverOverlapsIff | ca/dispatchtx.cpp:57-72 | a transaction is in one group only for all visiting orders if and only if neither it nor one it shares an address with is more than two links from another of its component |
| DependencyGroups.LongPathNearOverlaps | ca/dispatchtx.cpp:57-72 | where that fails, a visiting order that leaves the transaction in two groups |
| DependencyGroups.ShortCutsGiveComponents | ca/dispatchtx.cpp:46-74 | under the same condition every group is a whole connected component |
| DependencyGroups.TransitiveSharingGivesClasses | ca/packager_dispatch.cpp:21-54 | with transitive sharing the groups are disjoint and are the equivalence classes |
| Dispatcher.DependencyManager.AddContractInfo | ca/dispatchtx.cpp:26-32 | a later record of a hash replaces the earlier one |
| Dispatcher.DependencyManager.AddMessageRequest | ca/dispatchtx.cpp:34-38 | a later message of a hash replaces the earlier one |
| Dispatcher.DependencyManager.ClearCaches | ca/dispatchtx.cpp:280-284 | both caches are emptied |
| Dispatcher.DependencyManager.GetDependentData | ca/dispatchtx.cpp:40-89 | the vectors are the messages of the greedy groups, without empty ones |
| Dispatcher.SharersInOneVector | ca/dispatchtx.cpp:75-89 | cached transactions that share an address are dispatched in one vector |
| Dispatcher.VectorsStayConnected | ca/dispatchtx.cpp:75-89 | a vector only holds messages of one connected component |
| Dispatcher.DependencyManager.GroupData | ca/dispatchtx.cpp:91-120 | the loops compute the split at the cuts |
| Dispatcher.SplitPreservesMessages | ca/dispatchtx.cpp:91-120 | the split keeps the concatenation of all messages, and gives eight parts for more than eight groups and the input otherwise |
| Dispatcher.PartsAre | ca/dispatchtx.cpp:91-120 | above eight groups the first part takes an eighth of them and the remainder, each other part the next eighth |
| Dispatcher.SplitKeepsGroupsWhole | ca/dispatchtx.cpp:101-117 | a group is a contiguous block of one part |
| Dispatcher.SharersInOnePart | ca/dispatchtx.cpp:40-120 | from the caches to the parts, sharers end in the same part |
| Dispatcher.PartsHoldDispatched | ca/dispatchtx.cpp:75-120 | after grouping and splitting, the messages are those of the dispatched hashes in order |
| Dispatcher.EachOnceIff | ca/dispatchtx.cpp:57-89 | for one visiting order each message is dispatched exactly once if and only if overlapping groups share only hashes without a message |
| Dispatcher.AlwaysEachOnceIffShortCuts | ca/dispatchtx.cpp:46-89 | each message is dispatched exactly once for all visiting orders if and only if no recorded hash with a message, nor one it shares an address with, is more than two links from another of its component |
| Packager.PackDispatch.Add | ca/packager_dispatch.cpp:6-13 | the first record of a hash stays, the two maps keep the same keys, and the time is the last call's |
| Packager.PackDispatch.GetDependentData | ca/packager_dispatch.cpp:15-74 | one-element groups are added to the caller's one map and replace entries, the others to the map of their number and leave entries alone |
| Packager.OverlayOnEmpty | ca/packager_dispatch.cpp:57-72 | on empty maps the results are the separated groups themselves |
| Packager.OverlayHolds | ca/packager_dispatch.cpp:57-72 | in a group of the caller what it already holds stays, and the other hashes are added |
| Packager.SingletonIffIsolated | ca/packager_dispatch.cpp:57-72 | a group has one element exactly when that transaction shares with no other |
| Packager.PackagerPartition | ca/packager_dispatch.cpp:15-74 | for every visiting order the non-dependent map holds exactly the isolated transactions and the dependent groups exactly the others |
| Checker.CollectKeys | ca/checker.cpp:98-115 | the three nested loops list the input keys in order |
| Checker.TxKeyAt | ca/checker.cpp:98-115 | the keys of a transaction are exactly those of the outputs its inputs spend |
| Checker.SameReportKeyIff | ca/checker.cpp:156 | keys of the report are equal exactly for the same output, address and currency |
| Checker.SameConflictKeyIff | ca/checker.cpp:106-113 | keys of the conflict test are equal exactly for the same output spent by contracts, or the same output, address and currency spent by key holders |
| Checker.ConflictIffSpendTheSame | ca/checker.cpp:96-141 | transactions conflict exactly when both spend the same output of the same address in the same currency, or both spend the same output through contracts |
| Checker.SharedIffIntersecting | ca/checker.cpp:136-140 | sorting and intersecting two key vectors decides whether they have a common key |
| Checker.CheckConflict | ca/checker.cpp:96-141 | two transactions conflict exactly when they spend a common key, and so exactly when they spend the same output as above |
| Checker.ConflictSymmetric | ca/checker.cpp:96-141 | the test does not depend on the order of its arguments |
| Checker.CheckConflictWithPool | ca/checker.cpp:4-15 | true exactly when some pooled transaction conflicts |
| Checker.CheckBlockConflict | ca/checker.cpp:63-94 | two blocks conflict exactly when two of their ordinary transactions do; the first of the first block that does is returned |
| Checker.BlocksConflictIffSpendTheSame | ca/checker.cpp:63-94 | the same for blocks: some ordinary transaction of one spends what an ordinary one of the other spends |
| DoubleSpendReport.BuildPool | ca/checker.cpp:145-165 | the map holds, for each key, its counted spenders in the order of the walk |
| DoubleSpendReport.CountedAre | ca/checker.cpp:145-165 | the counted spenders of a key are its uses, in order, by none of undelegate and unlock, and by unstake only when no other transaction used the key before |
| DoubleSpendReport.CheckConflict | ca/checker.cpp:143-175 | each key with several spenders keeps one of least time, for any order the sort leaves among equal times, and reports the others |
| DoubleSpendReport.ReportEmptyIffQuiet | ca/checker.cpp:166-174 | the report is empty exactly when no key has two counted spenders |
| DoubleSpendReport.ReportedIsContested | ca/checker.cpp:166-174 | a reported transaction is a counted spender of a contested key |
| DoubleSpendReport.ReportExact | ca/checker.cpp:143-175 | without unstake, undelegate and unlock, the report is empty exactly when no key is spent twice |
| DoubleSpendReport.RemovalSeparates | ca/checker.cpp:143-175 | of two spenders of a key, neither unstake, undelegate or unlock, at least one is reported, whatever else the block holds |
| DoubleSpendReport.ExactIffNoExemptType | ca/checker.cpp:157-160 | for given types the report is exact on all blocks if and only if none is unstake, undelegate or unlock |
| TransactionPool.TransactionCache.AddCache | ca/transaction_cache.cpp:194-229 | pools a transaction exactly when it conflicts with nothing in its own pool; both pools afterwards, return codes, and when the builder is woken |
| TransactionPool.TransactionCache.RemoveContractsCacheRequest | ca/transaction_cache.cpp:1265-1276 | keeps exactly the entries whose hash is not given, in order |
| TransactionPool.KeepAdds | ca/transaction_cache.cpp:1265-1276 | removal keeps the order and looks at each part of the pool by itself |
| TransactionPool.KeepOne | ca/transaction_cache.cpp:1265-1276 | an entry is removed exactly when its hash is given |
| TransactionPool.TransactionCache.ClearTransactions | ca/transaction_cache.cpp:361-389 | the ordinary pool is emptied, the contract pool stays |
| TransactionPool.TransactionCache.ClearContracts | ca/transaction_cache.cpp:426 | the contract pool is emptied, the ordinary pool stays |
| TransactionPool.RunStaysConflictFree | ca/transaction_cache.cpp:194-229 | after any sequence of additions, removals and clears each pool is pairwise conflict-free |
| TransactionPool.KeysAgree | ca/checker.cpp:104-113 | without contract inputs the conflict test and the report use the same keys |
| TransactionPool.NoDoubleUseIffSeparate | ca/checker.cpp:145-165 | no key is spent twice in a block exactly when no transaction repeats a key and no two share one |
| TransactionPool.BuiltBlockReport | ca/transaction_cache.cpp:369-375 | a block built from a pool without contract inputs and repeated keys has an empty report |
| TransactionPool.PoolReportEmptyIff | ca/checker.cpp:104-113 | on a conflict-free pool without exempt types the report is empty if and only if no transaction repeats a key and no output that a contract spends in one has a report key of another |
| TransactionPool.SharesIffEscapes | ca/checker.cpp:106-112 | between two transactions without a conflict, sharing a report key means that a contract's input escapes the conflict test |
| TransactionPool.SharesIffSameOutput | ca/checker.cpp:149-163 | two transactions share a report key exactly when they spend the same output of the same address and currency, through whatever inputs |
| TransactionPool.ContractInputEscapesConflictTest | ca/checker.cpp:106-112 | a contract input and a key holder's input of the same output pass the conflict test together and are reported in the block |
| TransactionPool.EscapePoolIsReached | ca/transaction_cache.cpp:194-229 | two additions to empty pools give that pool |
| BroadcastPool.BlockHelper.AddBroadcastBlock | ca/block_helper.cpp:1929-2046 | the new pool and the record of seen hashes after an arrival, for every branch, and exactly when the block is made to wait |
| BroadcastPool.BeatenLeavesPool | ca/block_helper.cpp:1934-1964 | a known or double-spent block, and one that conflicts with a pooled block not later than it, leave the pool as it is |
| BroadcastPool.ArrivalExact | ca/block_helper.cpp:1951-2046 | any other block costs the pool exactly the earliest block it conflicts with, and is in the pool afterwards exactly when the top is known, contracts are in order, its previous block is stored, it lies at most 1000 above the top, and no remaining block has its height and time |
| BroadcastPool.WaitsIff | ca/block_helper.cpp:1951-2046 | a block is made to wait exactly when it is new, beaten by none, and only its previous block is missing |
| BroadcastPool.SeenAfterArrival | ca/block_helper.cpp:1934-1949 | a first arrival files status and time, a later one only a success |
| BroadcastPool.BlockHelper.Arbitrate | ca/block_helper.cpp:1951-1978 | gives way to the first conflicting pooled block when that is not later, and evicts it otherwise |
| BroadcastPool.BlockHelper.EndOfRound | ca/block_helper.cpp:1341-1366 | the pool is emptied, seen hashes are forgotten after 60 s and double-spent ones after 30 s |
| BroadcastPool.SetInsertOrdered | ca/block_helper.h:27-35 | inserting keeps the pool ordered by height and time |
| BroadcastPool.RunKeepsInv | ca/block_helper.cpp:1929-2046 | in every reachable state, of two conflicting pooled blocks the earlier in the order arrived later |
| BroadcastPool.SurvivorsAreLater | ca/block_helper.cpp:1951-1978 | a block that is not discarded is earlier than every conflicting block left in the pool |
| BroadcastPool.AdmissionConflictFreeIff | ca/block_helper.cpp:1951-1978 | an admission keeps a conflict-free pool conflict-free exactly when the block conflicted with at most one pooled block |
| BroadcastPool.AlwaysConflictFreeIff | ca/block_helper.cpp:1929-2046 | the pool is conflict-free throughout a run if and only if every admitted block conflicted with at most one pooled block |
| BroadcastPool.ContestedRun | ca/block_helper.cpp:1951-1978 | three arrivals after which the pool holds two conflicting blocks |
| BroadcastPool.ContestedExists | ca/block_helper.cpp:1951-1978 | blocks for that run, from any two outputs and three names |
| BroadcastPool.LosesOnlyIff | ca/block_helper.cpp:1951-2046 | exactly when a pooled block is evicted for an arrival that is not admitted |
| OrphanCascade.BlockHelper.AddPendingBlock | ca/block_helper.cpp:1891-1917 | files the block unless a thousand heights wait, and asks for the parent within three heights of the top |
| OrphanCascade.BlockHelper.SaveBlock | ca/block_helper.cpp:582-685 | the store after the save with its cascade, and the return code |
| OrphanCascade.CodeZeroIff | ca/block_helper.cpp:582-685 | when a block is saved or found |
| OrphanCascade.CodesMean | ca/block_helper.cpp:582-685 | when each other code is returned |
| OrphanCascade.BlockHelper.PostSaveProcess | ca/block_helper.cpp:992-1008 | retries exactly the blocks filed under the saved hash at the next height |
| OrphanCascade.SaveExtends | ca/block_helper.cpp:582-685 | a cascade adds only accepted blocks that are linked to new ones, logs each once, leaves out no accepted child, and keeps the store parent-closed |
| OrphanCascade.CascadeIsExact | ca/block_helper.cpp:992-1008 | the blocks saved are exactly the accepted pending blocks reached by previous-hash links at consecutive heights, each once |
| OrphanCascade.SaveIsExact | ca/block_helper.cpp:582-1008 | a new, accepted block at most one above the top with its parent stored commits exactly the ends of the chains of waiting blocks from it, and the top becomes the greatest height; any other changes nothing |
| BuildHeight.MaxUtxoHeight | ca/transaction_cache.cpp:244-252 | the signed number the loop keeps, and that it is the maximum while heights fit in 31 bits |
| BuildHeight.MaxIntExactIff | ca/transaction_cache.cpp:244-252 | the number kept is the greatest height if and only if that fits in 31 bits |
| BuildHeight.MaxIntOverflows | ca/transaction_cache.cpp:244-252 | the height 2^31 is kept as a negative number and compared as a huge one |
| BuildHeight.ConversionsWrap | ca/transaction_cache.cpp:244-252 | the conversions keep a number up to a multiple of the width and bring it into range |
| BuildHeight.CollectQualified | ca/transaction_cache.cpp:254-265 | an address is in the map exactly when a qualified node reports it, with the height of the last such node |
| BuildHeight.AddAll | ca/transaction_cache.cpp:267-276 | addresses present keep their height, and every other reported one gets the height of its first report |
| BuildHeight.CountedMeans | ca/transaction_cache.cpp:254-281 | counted are the qualified addresses with their last qualified report and, exactly when too few qualify and the utxo height is low, every other address with its first |
| BuildHeight.CountHeights | ca/transaction_cache.cpp:284-295 | how many nodes reach the utxo height, and how many report each height |
| BuildHeight.Accumulate | ca/transaction_cache.cpp:297-303 | the reverse walk gives at each reported height the number of nodes at or above it |
| BuildHeight.QuorumIsReported | ca/transaction_cache.cpp:305-343 | if three quarters reach the utxo height, some reported height at or above it has the same support |
| BuildHeight.GreatestQuorum | ca/transaction_cache.cpp:331-343 | the descending walk returns the greatest reported height with a quorum |
| BuildHeight.GetBuildBlockHeight | ca/transaction_cache.cpp:242-344 | when each code is returned, that -3 never is, and that the chosen height has a quorum, is at least the utxo height, and is the top or the greatest such height; what is returned is its conversion to 32 bits |
| BuildHeight.ChoiceMeans | ca/transaction_cache.cpp:267-343 | the choice in numbers of nodes: too few qualified, fewer than three quarters at the utxo height, or a reported height that three quarters reach and, unless it is the top, no greater one does |
| BuildHeight.ReturnedExactIff | ca/transaction_cache.cpp:318-342 | the conversion leaves the chosen height alone if and only if it fits in 31 bits |
| BuildHeight.HugeHeightIsMisreturned | ca/transaction_cache.cpp:331-342 | with one node at height 2^31 a negative number is returned |
| SumHash.CalculateSumHeightHash | ca/sync_block.cpp:65-70 | sorts the vector in place and hashes the concatenation |
| SumHash.TextIsAscending | ca/sync_block.cpp:65-70 | the hashed text is the hashes in ascending order, one after the other |
| SumHash.SumHeightsHash | ca/sync_block.cpp:72-84 | the sum of the per-height sums, over copies |
| SumHash.SumForgetsOrder | ca/sync_block.cpp:65-70 | arrival order does not matter, whatever the digest |
| SumHash.SumIffSameContent | ca/sync_block.cpp:65-70 | two vectors have equal sums exactly when they hold the same hashes with multiplicities or the digest collides on their two concatenations |
| SumHash.SumHeightsIffSameContents | ca/sync_block.cpp:72-84 | without a collision among the strings hashed for them, two height maps have equal sums exactly when they hold the same bag of per-height bags |
| SumHash.HeightListsAreAll | ca/sync_block.cpp:72-84 | what is summed is one vector per height of the map, the i-th being that of the i-th height |
| SumHash.SumHeightsIffSameCounts | ca/sync_block.cpp:72-84 | without a collision, two height maps have equal sums if and only if each bag of hashes is held at equally many heights of the one and the other |
| SumHash.SameContentsSameSum | ca/sync_block.cpp:72-84 | the same bag of per-height bags has the same sum, whatever the digest |
| SumHash.SomeHashIsGood | ca/sync_block.cpp:65-84 | for any two sequences of lists there is a digest without a collision among the strings hashed for them |
| SumHash.HeightsAreNotBound | ca/sync_block.cpp:72-84 | the sum does not depend on the heights themselves |
| SumHash.LocalDifference | ca/sync_block.cpp:1743-1765 | when the sums differ, the difference of the sorted vectors is exactly the local-only hashes |
| Orders.MergeLoopsExact | ca/sync_block.cpp:1765 | on sorted ranges the merge loops compute multiset intersection and difference |
| Orders.SortCanonical | ca/sync_block.cpp:65-70 | sorting forgets the order of arrival and nothing else |
| Orders.LeqIff | ca/sync_block.cpp:65-70 | the order of strings: an initial part comes before, and otherwise the first difference decides |
| Rendezvous.GlobalDataManager.CreateWait | common/global_data.cpp:22-35 | an id already present keeps its entry |
| Rendezvous.GlobalDataManager.Find | common/global_data.cpp:39-48 | a call goes on exactly when its id is known, with the entry filed under it |
| Rendezvous.GlobalDataManager.InsertRes | common/global_data.cpp:49-53 | the responder is registered with the entry found before |
| Rendezvous.GlobalDataManager.PushData | common/global_data.cpp:68-83 | a reply counts exactly while its sender is registered and uses the registration up; when waiters are woken |
| Rendezvous.GlobalDataManager.CopyData | common/global_data.cpp:98-112 | the copy of the collected replies and whether they are enough |
| Rendezvous.GlobalDataManager.EraseId | common/global_data.cpp:117-124 | the id is forgotten, the entry stays |
| Rendezvous.RunKeepsInv | common/global_data.cpp:22-127 | over every interleaving, replies counted and registrations open never exceed registrations made |
| Rendezvous.ResultsAreAccounted | common/global_data.cpp:86-127 | no sender of a returned reply counts more often than it was registered, and the result is true exactly when the replies reach the number asked for |
| Rendezvous.OpenIffRegistered | common/global_data.cpp:49-83 | over every interleaving a responder is registered with an entry exactly when a step registered it and it has delivered nothing to the entry since |
| Rendezvous.CollectedIff | common/global_data.cpp:68-83 | over every interleaving a reply is collected, after those before it and also beyond the number asked for, exactly when its sender is registered so; nothing else changes what is collected |
| Rendezvous.ResultIsWhole | common/global_data.cpp:98-112 | each result holds everything its entry had collected at some moment of the run |
| Rendezvous.AlwaysOnceIffNeverAgain | common/global_data.cpp:37-84 | over every interleaving, no responder of an entry counts or may come to count twice if and only if none is registered with it after it answered |
| Rendezvous.TrueMeansEnoughResponders | common/global_data.cpp:86-127 | while no responder is registered after it answered, a true result means that many distinct registered responders answered |
| Rendezvous.RegisteredOnceIsNeverAgain | common/global_data.cpp:49-53 | registering each responder once in the whole run is enough for that |
| Rendezvous.ReRegistrationCountsTwice | common/global_data.cpp:22-127 | a run in which one peer is registered again after it answered, and a wait for two returns true on its two replies |
| Rendezvous.KnownIffOpen | common/global_data.cpp:22-127 | over every interleaving, and however often ids repeat, an id is found exactly when it was created and no wait on it ended since |
| Rendezvous.FoundEntry | common/global_data.cpp:22-48 | a known id leads to the entry of the step that created it while it was unknown, with the number asked for then |
| Rendezvous.NoCallAfterTheEnd | common/global_data.cpp:117-124 | after a wait on an id ended no call finds it, whatever happens, until the same id is created again |
| HashVote.TallyReplies | ca/sync_block.cpp:1914-1962 | the nested maps hold for each reported block exactly the peers that claim it |
| HashVote.AddOwnVotes | ca/sync_block.cpp:1964-1992 | the node votes for exactly the blocks it holds at reported heights |
| HashVote.GetSyncBlockHashVerification | ca/sync_block.cpp:1910-2115 | requested, in order and once each, are exactly the blocks that a quorum of peers claims and the node does not hold; rolled back are only stale stored blocks, and of every stale block itself or a twin of its height and time; exactly when each error code is returned |
| HashVote.RolledBackNeverRequested | ca/sync_block.cpp:1995-2101 | a rolled-back block is stored, below the quorum and past 15 s under its own name, and is not requested |
| HashVote.EveryStaleBlockIsJudged | ca/sync_block.cpp:2056-2096 | with distinct prefixes each stored block at a reported height is rolled back exactly by its own votes and age |
| HashVote.RequestedIff | ca/sync_block.cpp:1995-2043 | a block is requested exactly when the node stores none of its height and prefix and the peers that name it are at least one and the truncated 51% of the replies and the node |
| HashVote.RolledBackOnlyIf | ca/sync_block.cpp:2044-2101 | what is rolled back is stored, older than 15 s, and named by fewer than that share |
| HashVote.RolledBackIf | ca/sync_block.cpp:2044-2101 | with distinct prefixes each such block of a reported height, or a twin of its height and time, is rolled back |
| HashVote.NodesExactIff | ca/sync_block.cpp:2027-2043 | the running intersection is the set of peers that hold all requested blocks if and only if some peer does or it ends empty; otherwise it was started afresh |
| HashVote.NodesHoldEverything | ca/sync_block.cpp:2027-2112 | if some peer holds all requested blocks, the peers returned are exactly those that do |
| HashVote.StartingAfreshMisleads | ca/sync_block.cpp:2027-2043 | two replies for which the verdict requests three blocks from one peer that does not hold the second |
| RangeCoalescing.Coalesce | ca/sync_block.cpp:1330-1356 | the ranges are ordered, apart from each other, cover exactly the heights, and are the maximal runs |
| RangeCoalescing.RangesAreMaximalRuns | ca/sync_block.cpp:1330-1356 | ranges that are apart and cover the heights can only be the maximal runs |
| SyncScheduler.SyncBlock.SetFastSync | ca/sync_block.cpp:761-765 | the flags after a fast-sync request |
| SyncScheduler.SyncBlock.SetNewSyncHeight | ca/sync_block.cpp:767-778 | the flags after a new-sync request |
| SyncScheduler.SyncBlock.RunOnce | ca/sync_block.cpp:249-380 | which kind of round runs from which start, and the flags after it |
| SyncScheduler.KindOfRound | ca/sync_block.cpp:249-331 | in every run, when a round is a fast sync and when it starts from zero |
| SyncScheduler.FastFlagsMean | ca/sync_block.cpp:249-303 | in every run the flag says that a fast sync was asked for since the last round, and the counter how many ran since the last round in place of one or for a request |
| SyncScheduler.FastStart | ca/sync_block.cpp:264-285 | a fast sync starts at the failing height, or just above the top when that lies beyond it |
| SyncScheduler.UnrequestedWindow | ca/sync_block.cpp:335-351 | with nothing requested a new sync asks for exactly the positive heights within 100 of the failing height, or of the node's own when there is none |
| SyncScheduler.FailingHeightMeans | ca/sync_block.cpp:294-380 | in every run the failing height is the one last asked for, unless a new sync that did not end with a positive status came since |
| SyncScheduler.RememberedStartIsLeast | ca/sync_block.cpp:353-378 | in runs without height zero the remembered start is the least of the requests and of the bases of the rounds run for them since the last success |
| SyncScheduler.NoSixFastRounds | ca/sync_block.cpp:249-302 | in every run, of six consecutive rounds at least one is no fast sync |
| SyncScheduler.AtMostThreeZeroFailures | ca/sync_block.cpp:307-331 | in every run, at most three from-zero failures lie between two successful new syncs |
| SyncScheduler.NextRoundStartsLowIff | ca/sync_block.cpp:335-363 | the next round starts at or below all outstanding heights, whatever it finds, if and only if the remembered start is low |
| SyncScheduler.AlwaysStartsLowIffNoLapse | ca/sync_block.cpp:767-778 | rounds start at or below all outstanding requests throughout a run if and only if no request replaced a remembered start of zero above a lower outstanding one |
| SyncScheduler.PositiveRunsStartLow | ca/sync_block.cpp:355-363 | without height zero every round starts at or below what is outstanding |
| SyncScheduler.HeightZeroForgets | ca/sync_block.cpp:767-778 | a request for height zero lets a later one leave height 50 out |
| SyncScheduler.WindowHoldsIff | ca/sync_block.cpp:339-363 | the window of the next round holds all outstanding heights if and only if each is within 100 of its centre |
| SyncScheduler.LosesIff | ca/sync_block.cpp:365-378 | a round drops requests its window did not hold if and only if it succeeds while one is more than 100 from its centre |
| SyncScheduler.AlwaysKeptIff | ca/sync_block.cpp:335-378 | throughout a run each request for a positive height waits until a success has synced it if and only if no round succeeds while an outstanding height is more than 100 from its centre |
| SyncScheduler.HighRequestIsLost | ca/sync_block.cpp:335-378 | requests for 50 and 1000 after which a round up to 150 drops both, the second unsynced |
| Checkpoints.Tally | ca/check_blocks.cpp:166-198 | successful replies and votes per hash |
| Checkpoints.MaxElement | ca/check_blocks.cpp:207-211 | the first hash in key order with the most votes |
| Checkpoints.Consensus | ca/check_blocks.cpp:200-220 | the replies settle on the node's own hash exactly when nine tenths of the successful ones report it |
| Checkpoints.CheckBlocks.Init | ca/check_blocks.cpp:22-33 | an unreadable top counts as none |
| Checkpoints.CheckBlocks.ToCheck | ca/check_blocks.cpp:77-266 | the store and the code after a call |
| Checkpoints.CommitIsBacked | ca/check_blocks.cpp:166-251 | a new checkpoint lies 100 below the local top, carries the node's own hash, and 72% of the replies report it |
| Checkpoints.CommitsIff | ca/check_blocks.cpp:77-251 | a call commits in a pass if and only if the local top is known and 1100 above the checkpoint read, four fifths of the replies succeed, nine tenths of those report the node's own hash, the writes succeed over the same checkpoint, and every pass before was voted on without that |
| Checkpoints.StopMeans | ca/check_blocks.cpp:100-251 | how a pass ends the call without a commit |
| Checkpoints.EveryHashIsBacked | ca/check_blocks.cpp:166-251 | in every run each stored hash was backed in the call that wrote it |
| Checkpoints.AdvancesIffNotBlind | ca/check_blocks.cpp:225-251 | a commit raises the top by 1000 if and only if the top could be read once or there was none |
| Checkpoints.RunAdvancesIff | ca/check_blocks.cpp:225-251 | every commit of a run raises the top by 1000 if and only if none is blind |
| Checkpoints.StepExactIff | ca/check_blocks.cpp:225-251 | a call keeps the checkpoints exactly 1000, 2000, up to the top if and only if it does not commit blindly above 1000 |
| Checkpoints.CheckpointsExact | ca/check_blocks.cpp:225-251 | the checkpoints are exactly 1000, 2000, up to the top throughout a run if and only if no call commits blindly above 1000 |
| Checkpoints.BlindCommitRegresses | ca/check_blocks.cpp:26-30 | with both readings failed the top falls back to 1000 below a stored checkpoint |
| Checkpoints.FallBackIsReached | ca/check_blocks.cpp:22-33 | three calls from the empty store after which the top is 1000 and 2000 is still stored |
| FailureVotes.BlockStorage.AddVerifyNodes | ca/block_stroage.cpp:453-467 | a new entry with its registrations; an existing one stays |
| FailureVotes.BlockStorage.AddLevel1Nodes | ca/block_stroage.cpp:487-499 | the second phase empties the list and adds registrations |
| FailureVotes.BlockStorage.CheckData | ca/block_stroage.cpp:401-450 | when each code is returned, and that a registration is used up even by a rejected report |
| FailureVotes.BlockStorage.AddBlockStatus | ca/block_stroage.cpp:501-523 | the list after a report, and when a rebuild is submitted |
| FailureVotes.CountedIff | ca/block_stroage.cpp:401-523 | a report is counted exactly when it reports a failure, its sender is registered for the phase, the list has room and five seconds have not passed; the registration is used in any case |
| FailureVotes.CodesMean | ca/block_stroage.cpp:401-450 | when each code is returned |
| FailureVotes.OneTaskAtThreshold | ca/block_stroage.cpp:513-522 | in every run one task is submitted once the list holds what the verify phase counts, or three quarters of the second phase |
| FailureVotes.BlockStorage.CheckExpiredDelete | ca/block_stroage.cpp:469-485 | exactly the entries older than 15 s are removed |
| FailureVotes.AliveIff | ca/block_stroage.cpp:469-485 | which entries stay |
| FailureVotes.RunKeepsInv | ca/block_stroage.cpp:401-523 | in every run each registration counts at most one report, a list names distinct peers, and at most one task is submitted per list, exactly at the threshold |
| FailureVotes.BlockStorage.NewBuildBlock | ca/block_stroage.cpp:526-604 | kept, in order, are exactly the ordinary, timely transactions that the reports name nowhere or in fewer places than the threshold of the phase; none when an ordinary contract transaction is met; and the blank entry a lookup leaves |
| FailureVotes.SurvivorsAreSubsequence | ca/block_stroage.cpp:574-604 | the rebuilt transactions are the subsequence at exactly the positions that are ordinary, timely and not rejected |
| FailureVotes.VotesAreNames | ca/block_stroage.cpp:551-565 | the votes counted are the places at which the reports name the transaction |
| FailureVotes.RebuiltHolds | ca/block_stroage.cpp:574-604 | a transaction is in the rebuilt block exactly when it is in the old one, ordinary, timely, and named nowhere or in fewer places than three quarters of what the phase counts |
| FailureVotes.PeersKeepOut | ca/block_stroage.cpp:526-604 | in every run a transaction reported by enough distinct peers is not in the rebuilt block, and without repeated names it is in it unless that many report it |
| FailureVotes.VotesArePeersIff | ca/block_stroage.cpp:551-565 | votes are at least the distinct peers that cast them, and equal exactly when no report repeats the name |
| FailureVotes.RejectedByPeers | ca/block_stroage.cpp:551-594 | in every run a transaction reported by enough distinct peers is rejected, and without repeated names only such a one |
| FailureVotes.OneReportCanReject | ca/block_stroage.cpp:551-594 | a report that names a transaction often enough rejects it, whatever the other reports say |
| FailureVotes.OnePeerDecides | ca/block_stroage.cpp:453-594 | a run with one registered peer whose single report rejects a transaction |
| DelegationCache.BonusAddrCache.GetAmount | ca/bonus_addr_cache.cpp:11-97 | the answer, the code and the entry after a call, for every branch |
| DelegationCache.ScanPairs | ca/bonus_addr_cache.cpp:47-91 | the nested scan, with the errors that end it |
| DelegationCache.PaidIsFirst | ca/bonus_addr_cache.cpp:75-85 | a utxo counts with the first of its outputs that pays the target |
| DelegationCache.PaidByAllAdds | ca/bonus_addr_cache.cpp:75-85 | a transaction counts with all its utxos |
| DelegationCache.TotalAdds | ca/bonus_addr_cache.cpp:47-91 | the total is additive over any division of the transactions, in 64-bit arithmetic |
| DelegationCache.TotalOfOne | ca/bonus_addr_cache.cpp:75-91 | one transaction counts with what its utxos pay |
| DelegationCache.HashesAdd | ca/bonus_addr_cache.cpp:49-60 | the pairs are scanned one after the other, each from its first transaction to its last |
| DelegationCache.FailureMeans | ca/bonus_addr_cache.cpp:31-96 | a failing call names the unreadable or empty listing, or what the scan met first |
| DelegationCache.FailureKeeps | ca/bonus_addr_cache.cpp:16-96 | a failing call leaves amount and mark and answers the cached amount |
| DelegationCache.BonusAddrCache.GetTime | ca/bonus_addr_cache.cpp:99-111 | the remembered time, or zero |
| DelegationCache.BonusAddrCache.IsDirty | ca/bonus_addr_cache.cpp:113-118 | sets the mark, making the entry when there is none |
| DelegationCache.SuccessfulScan | ca/bonus_addr_cache.cpp:47-91 | a scan without error sums exactly the listed transactions and remembers the first to reach the minimum |
| DelegationCache.RescanIsExact | ca/bonus_addr_cache.cpp:31-96 | a successful scan makes any entry coherent and answers with the fold over the store, also while a mark is awaited |
| DelegationCache.AskIsExact | ca/bonus_addr_cache.cpp:11-97 | from a coherent entry a successful answer is the fold over the store, and the entry stays coherent even after an error |
| DelegationCache.RunKeepsInv | ca/bonus_addr_cache.cpp:11-118 | in every run each cached entry not awaiting its mark is coherent, in whatever order changes, marks and answers come |
| DelegationCache.AnswersAreExact | ca/bonus_addr_cache.cpp:11-97 | in every run, for an address not awaiting its mark, a successful answer is the fold, and the time is that of the first transaction in scan order that reaches the minimum |
| DelegationCache.UnmarkedChangeSeenIff | ca/bonus_addr_cache.cpp:16-30 | an unmarked change is seen exactly when the entry was dirty or below the minimum or the total is unchanged |
| DelegationCache.UnmarkedChangeGoesUnseen | ca/bonus_addr_cache.cpp:16-30 | a run in which a withdrawn delegation is still answered |

## Left out

- Networking, serialization, signatures, address derivation and logging: an input carries its address, and a message is its parsed fields.
- The key-value store, block verification, contract execution and the random selection of nodes: a store is a map, verification a verdict, and a selection an input.
- Integer widths: heights, times and counters are unbounded, except the 64-bit sum of `DelegationCache` and the 32-bit heights of `BuildHeight`; subtracting an age limit from a time is exact.
- Floating-point thresholds are exact rational ones.
- Menus, RPC handlers, benchmarks, timers and thread start-up: input, output and plumbing.
- The dependency broadcast of `ca/dispatchtx.cpp` and its stored foreign dependencies: network traffic around the grouping.
- The conflict overloads that compare with a set of blocks (`ca/checker.cpp:17-61`): loops over the pairwise test.
- Checker.CheckBlockConflict: does not model the digest of the conflicting transaction, only which transaction it is.
- TransactionPool.TransactionCache.ClearContracts: does not model the dirty-contract map and the contract information cleared beside the pool.
- The contract branch of `PostSaveProcess` (`ca/block_helper.cpp:1009-1047`): its guard is always true, so the loop ends at the first transaction and the branch never runs.
- Status messages sent when a broadcast block wins or loses against a pooled one (`ca/block_helper.cpp:1959-1972`): they do not change the pool.
- Rollback and its quorum inside the save path, `MissingBlock` and `failedTransactionCache`: the first is an external event here, the order of the others is no order.
- OrphanCascade.BlockHelper.SaveBlock: does not model the sync requests and the double-spend bookkeeping beside a save, and takes a missing parent as the one reason for -6.
- OrphanCascade.BlockHelper.AddPendingBlock: does not model a failing read of the top, and records the request for the parent as a result only.
- BroadcastPool.BlockHelper.AddBroadcastBlock: does not model the filing of a pending block, which `OrphanCascade` does.
- BuildHeight.GetBuildBlockHeight: an unreadable top is the parameter value zero.
- SumHash.LocalDifference: does not model the rollback of the difference.
- Rendezvous.RunKeepsInv: does not model real time; a timeout and a spurious wake-up are the same step.
- HashVote.GetSyncBlockHashVerification: does not model a store that changes during the call, nor the sending of requests before it; a block that cannot be read is one the store does not have.
- RangeCoalescing.Coalesce: does not model the ranges near the chain top that are added afterwards.
- SyncScheduler.SyncBlock.RunOnce: does not model requests that arrive during a round, nor the number of peers asked; rounds that end before any sync because a height cannot be read are no rounds.
- Checkpoints.CheckBlocks.ToCheck: does not model the sync after a disagreement; its effect is the own hash of the next pass.
- FailureVotes.BlockStorage.NewBuildBlock: does not model the header and the broadcast of the rebuilt block.
- FailureVotes.RunKeepsInv: does not model the entries of blocks kept for signing, only the announcement that makes an entry without registrations.
- DelegationCache.AnswersAreExact: does not model a store that changes within a call; the minimum is a positive constant.
