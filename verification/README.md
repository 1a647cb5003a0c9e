# Verified model of the shard, queue, ledger and governance logic

A Dafny model of eleven files of this repository: shard placement and rebalancing, the dispute queue,
the task queue, bit sharding, block validation and rollback, the shard pools, the shard orchestrator,
the distribution plan, and the governance quorum. Each operation is written in the form of the original
(methods over objects where it updates objects, loops where it loops, functions where it computes) and
proved equal to a specification on values; the properties below are proved about that specification, for
all inputs, all states or all runs.

`dafny verify dfyconfig.toml` checks the project.

## How the modules fit together

| part | on values | on objects |
|---|---|---|
| Placement | `FirstFit`, `StableSort` | `ShardManager` over `Nodes` |
| Rebalancing | `Rebalancing` | `ShardManager` |
| Disputes | `DisputePass` (one pass), `DisputeRuns` (many passes with arrivals) | `DisputeResolver` |
| Tasks | `TaskQueue` | `TaskCoordinator` |
| Bit sharding | `BitSharder` | |
| Blocks | `BlockValidator`, `Json`, `JsonText`, `LedgerRuns` | `RollbackHandler` |
| Shard pools | `ShardPools` | `ShardAllocator` |
| Orchestrator | `OrchestratorRuns` | `ShardOrchestrator` |
| Distribution plan | `PredictionEngine` | |
| Governance | `Quorum` | `GovernanceManager` |

`Sequences`, `Arithmetic`, `Particles` and `Wrappers` hold what several modules share.

## Assumptions

- Every operation is atomic: nothing runs between the reading of a file and its writing back. Files are
  in-memory state, and logging does nothing.
- Node and shard objects in one list are distinct objects. Where a result is keyed by id, the statements
  that need distinct ids say so; the others hold with repeated ids too.
- Sizes, capacities and utilizations are unbounded integers. Sizes may be negative except where a lemma
  asks for non-negative ones. The quorum percentage is exact: `0.67 n` is read as `67 n / 100`.
- The hash function is arbitrary. Where collisions matter, the lemma asks only that it tells apart the
  particular pre-images compared, and chain lemmas ask for digests of 64 characters.
- Signature validity is an arbitrary predicate on public key, action hash and signature. The two
  signature checks have one each, because they verify over different bytes and with different padding.
- The shard predictor and the resource allocator are arbitrary within a contract: the predictor returns
  available shards, each at most once; the allocator answers only submitted tasks, with listed nodes.
- Everything the code takes from outside is a parameter: clocks, random draws, token validation, the
  outcome of each dispute handler and notification, encryption, and the model's scores.

## Where the code and its promise part

- `rebalanceShards` never updates `availableCapacity`, so rebalancing makes no claim about capacity.
- A dispute whose notification fails after its resolution was logged stays in the queue and is logged
  again by the pass that removes it. `LogIsRemovedExactly` gives the exact condition under which the log
  is the list of removed disputes, and `LoggedTwice` an input where it is not.
- `addTask` accepts a task whose id is queued already, but a round grants an id once: `RoundOfFirsts`
  says that it goes as if only the first task of each id were queued.
- Node ids that are the empty string count as "not allocated" in `allocateTasks`. `EachGrantIsATask`
  gives the exact condition under which every unit of capacity taken is for an id of its own, and
  `TwoGrantsOneTask` an input where it fails.
- Shard ids are built from the clock and an index, so two batches created within one millisecond share
  ids. `AssignedShardsKeepTheirNodes` gives the exact condition under which assigned shards keep their
  nodes, and `SameMillisecond` an input where one does not.
- `monitorAndRebalance` resubmits the affected shard only while it is unassigned, so it never moves an
  assigned shard although it is called rebalancing.
- The signature check counts signatures, not signers. `CountIsSignersExactlyWithoutRepeats` says when
  the two agree, and `OneSignerListedTwice` shows one node reaching a quorum of two.
- The batch check hashes the text of the action hash and uses the default padding, the manager decodes
  the hash and uses another padding, so approval by the stricter batch quorum is not approval by the
  manager. `BatchImpliesMajority` is the exact statement, `BatchApprovesAlone` an input where they
  disagree, and `NoNodesRegistered` says that they always do on an empty registry.
- The majority rule does not make two approvals share a node when the number of nodes is even;
  `MajoritiesMeetExactlyWhenOdd` is the exact statement.
- The block pre-image has no separators, so the index must be known for it to determine a block;
  `IndexIsNotSeparated` gives two blocks with one pre-image, and `SamePreImage` says exactly what is lost.
- The comment on `rollbackBlock` says that it also restores the block's state; the code only removes
  the last block, and so does the model.
- `blockValidator.js` imports its schema and transaction checks from a file that does not export them,
  so as committed the call throws and every block is refused; the model takes both checks as parameters.

## Model

| member | source | states |
|---|---|---|
| StableSort.SortIsTheStableSort | HQNode/Orchestration/taskCoordinator.js:52 | A list is the result of the sort if and only if it is sorted by the given order and the elements that rank the same appear in it exactly as in the input |
| ShardManager.SortedOrderIsStable | HQNode/Orchestration/shardManager.js:51 | Nodes are tried by capacity ascending, and nodes of equal capacity in list order |
| ShardManager.AssignShardsToNodes | HQNode/Orchestration/shardManager.js:46-66 | For every list of distinct nodes and every list of shards there is an order of all positions of the list, ascending by capacity before the call and by position where capacities are equal, and there are places in it that are first-fit at every turn, such that every node has lost exactly the sizes placed on it and the map has, for exactly the ids placed, the node of the last placement; utilizations do not change; with distinct ids the map itself accounts for the capacity taken |
| ShardManager.AssignmentConserves | HQNode/Orchestration/shardManager.js:48-62 | With distinct ids the returned map itself accounts for every unit of capacity taken on every node |
| ShardManager.LastPlacementWins | HQNode/Orchestration/shardManager.js:54-61 | Whatever ids repeat, an id is in the map exactly when some shard with it was placed, and it is mapped to the node of the last one placed |
| FirstFit.FirstFitIsUnique | HQNode/Orchestration/shardManager.js:54-61 | A list of places is the computed one if and only if at each shard's turn its node had room (start capacity less what it took before) and no earlier node had, and a shard has no place only if no node had room then |
| FirstFit.Conservation | HQNode/Orchestration/shardManager.js:51-62 | On every node free capacity plus assigned size is the start capacity, and a capacity that starts non-negative never ends negative |
| FirstFit.Maximality | HQNode/Orchestration/shardManager.js:51-62 | With non-negative sizes every shard is strictly larger than the final free space of every node before its own, and a shard without a place is larger than that of every node |
| FirstFit.PairBound | HQNode/Orchestration/shardManager.js:46-66 | With any start capacities, a node in use and any node tried before it have together load greater than the start capacity of the earlier one |
| FirstFit.PackingBound | HQNode/Orchestration/shardManager.js:46-66 | With any start capacities and k >= 2 nodes used, twice the placed size is at least the start capacity of the first used node, plus those of all used nodes but the last, plus k |
| FirstFit.EqualPackingBound | HQNode/Orchestration/shardManager.js:46-66 | With equal start capacities C and k >= 2 nodes used, twice the placed size is at least k(C+1) |
| FirstFit.MoreThanHalfFull | HQNode/Orchestration/shardManager.js:46-66 | With equal non-negative start capacities C and k >= 2 nodes used, the placed size exceeds floor(k/2) C |
| FirstFit.FewerThanTwiceAnyPacking | HQNode/Orchestration/shardManager.js:46-66 | With equal capacities, fewer than twice as many nodes are used as by any other placement of the same shards within capacity |
| ShardManager.RebalanceShards | HQNode/Orchestration/shardManager.js:93-121 | With the configured threshold, or 75 when it is missing or zero, the nodes above it at entry are drained in list order; in each drain every shard of the node for which some other node is below the threshold and has capacity goes to the first such node, is logged, and takes its size from one utilization to the other, every other shard keeps its home, and the states reached are those of the objects; capacities and ids do not change |
| Rebalancing.SelectionsAscend | HQNode/Orchestration/shardManager.js:97-105 | Overloaded nodes, excess shards and targets are taken in the order of the two lists |
| Rebalancing.TargetIsLeast | HQNode/Orchestration/shardManager.js:105-108 | The target chosen for a shard is the first listed node, other than the drained one, that is below the threshold when the draining starts and has capacity for the shard; none is chosen only if there is no such node |
| Rebalancing.DrainEffect | HQNode/Orchestration/shardManager.js:103-118 | Draining a node moves exactly its shards that some target has room for, each to its target, logs these moves in order, and changes the utilization of no node but itself and the targets |
| Rebalancing.RebalanceIsRebalancing | HQNode/Orchestration/shardManager.js:93-121 | The whole run is a list of drains, one for each node above the threshold at entry, each in terms of eligible nodes only: who moves where, what is logged, and what flows between the utilizations |
| Rebalancing.MovesAtMostOnce | HQNode/Orchestration/shardManager.js:93-121 | Over the whole run no shard moves twice; each move takes the shard from the overloaded node it was on at entry to a node that is not itself still waiting to be drained, and it stays there; shards that do not move keep their homes |
| Rebalancing.RebalanceKeepsBooks | HQNode/Orchestration/shardManager.js:103-118 | Total utilization, and for every node the difference between utilization and the sizes of resident shards, are the same after the run, and shards on listed nodes stay on listed nodes |
| DisputeResolver.Resolver.QueueDispute | CorporateHQNode/Arbitration/corporateDisputeResolver.js:54-69 | The dispute is appended to the stored queue, and a missing or unreadable queue becomes the queue of this dispute alone |
| DisputeResolver.Resolver.ProcessDisputeQueue | CorporateHQNode/Arbitration/corporateDisputeResolver.js:74-111 | For every queue, repeated disputes included, and any outcomes of the attempts, the queue saved and the resolutions logged are exactly the entries that the pass law leaves and logs, in order; a missing queue is saved as an empty one; without a policy the call fails and nothing changes |
| DisputeResolver.Resolver.WalkQueue | CorporateHQNode/Arbitration/corporateDisputeResolver.js:79-103 | The loop that splices the list it is walking, with indexOf by identity, ends with the entries that the pass law leaves |
| DisputePass.FatesAreTheLaw | CorporateHQNode/Arbitration/corporateDisputeResolver.js:79-103 | The fates of a pass are characterized: an entry is passed over if and only if the one before it is removed, and every other entry meets the outcome of the attempt whose number is the count of attempted entries before it |
| DisputePass.PassConserves | CorporateHQNode/Arbitration/corporateDisputeResolver.js:79-106 | Removed and remaining entries together are the queue as a multiset, and every remaining entry is found at a position that grows with its old one |
| DisputeRuns.RunConserves | CorporateHQNode/Arbitration/corporateDisputeResolver.js:54-111 | Over any number of passes with any outcomes and arrivals, what was queued is removed or still queued, each entry once |
| DisputeRuns.LogIsRemovedExactly | CorporateHQNode/Arbitration/corporateDisputeResolver.js:79-130 | Over any run the log is exactly the list of removed disputes, in order, if no attempt of its passes fails to notify, and longer than that list otherwise |
| DisputeRuns.LoggedTwice | CorporateHQNode/Arbitration/corporateDisputeResolver.js:79-103 | A dispute whose notification fails in the first pass and succeeds in the second is logged twice and removed once |
| DisputeRuns.RunKeepsArrivalOrder | CorporateHQNode/Arbitration/corporateDisputeResolver.js:54-111 | Whatever relation orders the arrivals orders the queue after every pass: disputes never overtake each other |
| DisputeRuns.PassHalves | CorporateHQNode/Arbitration/corporateDisputeResolver.js:79-103 | A pass whose attempts all succeed keeps exactly the entries at odd positions |
| DisputeRuns.ResolvedInPass | CorporateHQNode/Arbitration/corporateDisputeResolver.js:74-111 | When all attempts succeed, the dispute at index i is passed over in the first t passes and removed in pass t + 1, where t is the exponent of 2 in i + 1, whatever is queued in between |
| DisputeRuns.DrainsIn | CorporateHQNode/Arbitration/corporateDisputeResolver.js:74-111 | When all attempts succeed and nothing arrives, n disputes are floor(n / 2^p) after p passes, and none are left exactly when p reaches the number of passes needed |
| DisputeRuns.PassesForIsLog | CorporateHQNode/Arbitration/corporateDisputeResolver.js:74-111 | For n > 0 the number of passes needed is floor(log2 n) + 1 |
| DisputeRuns.NoStarvation | CorporateHQNode/Arbitration/corporateDisputeResolver.js:74-111 | With any outcomes and arrivals the dispute at index i, followed through the places it moves to, is attempted within i + 1 passes |
| TaskCoordinator.Coordinator.AddTask | HQNode/Orchestration/taskCoordinator.js:41-45 | The task is added and the queue is prioritized in the same sense; whatever additions and removals made the queue, it afterwards is the queue of that run followed by this addition |
| TaskCoordinator.Coordinator.PrioritizeTasks | HQNode/Orchestration/taskCoordinator.js:50-54 | The queue afterwards has the same tasks with higher priorities first, equal priorities by type in reading order, and tasks equal in both as they came |
| TaskCoordinator.Coordinator.RemoveTask | HQNode/Orchestration/taskCoordinator.js:120-123 | The queue becomes that of the run followed by this removal: exactly the tasks with the id are gone |
| TaskCoordinator.Coordinator.ExecuteTask | HQNode/Orchestration/taskCoordinator.js:85-99 | Success or failure is logged, and exactly the tasks with this id leave the queue |
| TaskCoordinator.Coordinator.AllocateTasks | HQNode/Orchestration/taskCoordinator.js:61-77 | For all distinct nodes the map returned and the capacities afterwards are those of the specified round, and utilizations do not change |
| TaskQueue.AddInserts | HQNode/Orchestration/taskCoordinator.js:41-54 | Appending to a sorted queue and sorting again inserts the task just before the first task that it strictly outranks |
| TaskQueue.TiesAgree | HQNode/Orchestration/taskCoordinator.js:52 | Two tasks tie if and only if priority and type are equal |
| TaskQueue.TextLeReads | HQNode/Orchestration/taskCoordinator.js:52 | One type sorts no later than another if and only if it begins the other or has the smaller character where they first differ |
| TaskQueue.SortedIsPrioritized | HQNode/Orchestration/taskCoordinator.js:52 | A queue is sorted by the comparator if and only if higher priorities come first and equal priorities are by type in reading order |
| TaskQueue.QueueIsSortedLive | HQNode/Orchestration/taskCoordinator.js:41-123 | After every run of additions and removals the queue is the stable sort of the tasks added and not removed since |
| TaskQueue.QueueStaysOrdered | HQNode/Orchestration/taskCoordinator.js:41-123 | After every run higher priorities come first, equal priorities are by type in reading order, tasks equal in both are in order of arrival, and no task is lost or repeated |
| TaskQueue.FirstsAreExact | HQNode/Orchestration/taskCoordinator.js:64-73 | The tasks that a round can grant are those that no task with the same id comes before: each id once, in queue order |
| TaskQueue.RoundOfFirsts | HQNode/Orchestration/taskCoordinator.js:64-73 | At every point of a round the map, the capacities and the grants are those of the queue with only these tasks |
| TaskQueue.RoundPairs | HQNode/Orchestration/taskCoordinator.js:61-77 | With non-empty node ids and any queue, of the tasks that are the first with their id exactly the first min(nodes with positive capacity, number of such tasks) are assigned, the j-th to the j-th such node in list order, and one unit of capacity is taken from exactly these nodes |
| TaskQueue.NoWaitingTaskOutranks | HQNode/Orchestration/taskCoordinator.js:61-77 | In a sorted queue the first task of every assigned id stands before, and has priority no lower than, every task whose id is not assigned |
| TaskQueue.OffersConserve | HQNode/Orchestration/taskCoordinator.js:64-73 | At every point of a round capacity plus grants is constant, each node loses at most one unit, nodes not yet visited none, and no capacity goes below zero |
| TaskQueue.RoundsConserve | HQNode/Orchestration/taskCoordinator.js:61-77 | Over any sequence of rounds, each with the queue of its moment, total capacity plus grants is constant and capacities stay non-negative |
| TaskQueue.EachGrantIsATask | HQNode/Orchestration/taskCoordinator.js:64-73 | For any queue, every grant is an id of its own if and only if no node with the empty id is granted a task while a later node still has free capacity |
| TaskQueue.TwoGrantsOneTask | HQNode/Orchestration/taskCoordinator.js:66-71 | A node with the empty id and one after it are both charged for one and the same queue entry |
| BitSharder.AtomAt | Core/Sharding/bitSharder.js:117-124 | Atom 8i + j carries bit j of byte i, the particle j mod 3 (proton, neutron, electron), its own frequency draw and the token |
| BitSharder.BitsAreBinaryDigits | Core/Sharding/bitSharder.js:119 | The bits of a byte weighted 128, 64, ..., 1 add up to the byte: bit 0 is the most significant |
| BitSharder.ShardingInverts | Core/Sharding/bitSharder.js:116-124 | For n bytes there are 8n atoms, every bit is 0 or 1, packing the bits by eight gives back the bytes, and the frequencies are the draws in order |
| BitSharder.PackUnpack | Core/Sharding/bitSharder.js:117-124 | Packing after expanding is the identity on every byte list |
| BitSharder.UnpackPack | Core/Sharding/bitSharder.js:117-124 | Expanding after packing is the identity on every list of bits whose length is a multiple of eight |
| BitSharder.GroupByParticle | Core/Sharding/bitSharder.js:152-161 | The grouping loop has a ledger for exactly the particles that occur, each holding the frequencies of its particle in order |
| BitSharder.LedgerLengths | Core/Sharding/bitSharder.js:152-161 | For n bytes the ledgers have 3n proton, 3n neutron and 2n electron entries |
| BitSharder.LedgersInvert | Core/Sharding/bitSharder.js:117-161 | Interleaving the three ledgers by bit index gives back every frequency in its place |
| BitSharder.LedgersSurject | Core/Sharding/bitSharder.js:117-161 | Every three lists of these lengths are the ledgers of some draws, namely of their interleaving |
| Json.StringifyReadsBack | HQNode/Validation/blockValidator.js:84-86 | The JSON text of a list of objects with any keys, in any order, and any JSON values determines the list, and where it ends, whatever text follows |
| Json.ValueReadsBack | HQNode/Validation/blockValidator.js:84-86 | The JSON text of any value determines the value and where it ends, when what follows a number cannot continue it |
| JsonText.StringifyIsText | HQNode/Validation/blockValidator.js:84-86 | What is written is the text of sections 4, 5 and 7 of RFC 8259: entries joined by commas in brackets, members as quoted key, colon and value in braces |
| JsonText.EscapedIsRead | HQNode/Validation/blockValidator.js:84-86 | A reader of JSON strings by section 7 of RFC 8259 gets every escaped character back |
| BlockValidator.PreImageExample | HQNode/Validation/blockValidator.js:84-86 | The order of the five fields in the pre-image, on a block without transactions |
| BlockValidator.SamePreImage | HQNode/Validation/blockValidator.js:83-88 | Two blocks whose previous hashes hold no bracket have the same pre-image if and only if transactions, nonce, and the joined text of index, previous hash and timestamp agree |
| BlockValidator.PreImageInjective | HQNode/Validation/blockValidator.js:83-88 | For equal index and previous hashes of equal length, pre-images agree if and only if all hashed fields agree |
| BlockValidator.IndexIsNotSeparated | HQNode/Validation/blockValidator.js:84-86 | Two blocks with different indexes, 64-character previous hashes and one pre-image |
| BlockValidator.NoBlockCanBeExchanged | HQNode/Validation/blockValidator.js:33-88 | In an accepted chain another block with the same index is accepted in a block's place if and only if it is the same block, even with a recomputed hash before the last position, unless the hash function confuses the two pre-images |
| BlockValidator.ChainIsDeterminedByItsHead | HQNode/Validation/blockValidator.js:33-88 | Two accepted chains with the same indexes end in the same hash if and only if they are the same chain from the same start, unless the hash function confuses two of their pre-images |
| RollbackHandler.Handler.CreateBackupSnapshot | HQNode/Arbitration/rollbackHandler.js:46-60 | The ledger stays as it is and its copy is stored under the snapshot id; without a ledger the call fails and no snapshot changes |
| RollbackHandler.Handler.RestoreFromSnapshot | HQNode/Arbitration/rollbackHandler.js:66-80 | The ledger becomes the snapshot and the snapshots stay; without such a snapshot the call fails and nothing changes |
| RollbackHandler.Handler.RollbackTransaction | HQNode/Arbitration/rollbackHandler.js:87-101 | Exactly the transactions whose first "id" key has this value leave the ledger, in order, and blocks and snapshots stay; without a ledger the call fails and nothing changes |
| RollbackHandler.Handler.RollbackBlock | HQNode/Arbitration/rollbackHandler.js:108-126 | The blocks before are those left followed by the one returned, and transactions and snapshots stay; without a ledger or a block the call fails and nothing changes |
| LedgerRuns.RollbacksInClosedForm | HQNode/Arbitration/rollbackHandler.js:87-126 | Any list of rollbacks, failing ones included, leaves the transactions whose id was not rolled back, in order, and all but as many last blocks as there were block rollbacks |
| LedgerRuns.RollbacksAmongSnapshots | HQNode/Arbitration/rollbackHandler.js:46-126 | Snapshots taken anywhere among rollbacks do not change what these leave of the ledger |
| LedgerRuns.RollbacksCommute | HQNode/Arbitration/rollbackHandler.js:87-126 | Two lists with the same set of transaction ids and the same number of block rollbacks leave the same ledger |
| LedgerRuns.KindsCommute | HQNode/Arbitration/rollbackHandler.js:87-126 | A transaction rollback and a block rollback commute, and a repeated transaction rollback changes nothing |
| LedgerRuns.RollbacksKeepChain | HQNode/Arbitration/rollbackHandler.js:87-126 | Rollbacks of an accepted chain leave a prefix of it, which is accepted |
| LedgerRuns.RestoreReturnsSnapshot | HQNode/Arbitration/rollbackHandler.js:46-80 | After any operations in between, other snapshots and restores included, restoring succeeds and gives back the ledger of the snapshot, as long as it was not taken again |
| LedgerRuns.SnapshotChangesNoLedger | HQNode/Arbitration/rollbackHandler.js:46-126 | A snapshot taken anywhere in a run of all operations has no effect on the ledger at its end, unless that snapshot is restored later |
| LedgerRuns.RunsKeepChains | HQNode/Arbitration/rollbackHandler.js:46-126 | Over every run of snapshots, restores and rollbacks the ledger and all snapshots stay accepted chains |
| ShardAllocator.Allocator.AllocateShards | Core/Sharding/shardAllocator.js:42-91 | For any token, pools and permitted choice: the call fails exactly for an invalid token or an empty pool, and then nothing changes; otherwise the chosen shard objects are returned and appended, each tagged with the node, its time and the token, the others stay available in order, and no other shard changes |
| ShardAllocator.Allocator.RevokeShardAllocation | Core/Sharding/shardAllocator.js:98-134 | The call fails exactly when no shard is allocated to the node, and then nothing changes; otherwise exactly the node's shard objects are returned and made available without tags, the others stay allocated in order, and no other shard changes |
| ShardPools.AllocateIsExact | Core/Sharding/shardAllocator.js:64-78 | The node's list gains exactly the chosen shards, tagged and in order of choice, the available pool loses exactly them, and the lists of other nodes do not change |
| ShardPools.UnchosenInOrder | Core/Sharding/shardAllocator.js:72-74 | What stays available is exactly the positions not chosen, in order |
| ShardPools.RevokeIsExact | Core/Sharding/shardAllocator.js:103-123 | After revoking the node holds nothing, and the lists of all other nodes are unchanged and in order |
| ShardPools.RevokeUndoesAllocate | Core/Sharding/shardAllocator.js:64-123 | Where tags follow the pools, allocating to a node that held nothing and revoking again gives back the allocated list exactly, and the available pool with the chosen shards moved to its end |
| ShardPools.RunKeepsSound | Core/Sharding/shardAllocator.js:42-134 | Over every run from such a state each shard is in exactly one pool, none appears or disappears, and ownership tags are on exactly the allocated ones |
| ShardOrchestrator.EnhancedShardOrchestrator.CreateAndLogShards | NIKI/Scripts/shardOrchestrator.js:63-84 | The shards returned are new, distinct objects holding the encrypted segments in order, unassigned and without node, and they are appended to the shards present, which stay distinct |
| ShardOrchestrator.EnhancedShardOrchestrator.DistributeShards | NIKI/Scripts/shardOrchestrator.js:90-123 | All shards afterwards, and whether the call throws, are those of the specified placement of the allocator's answer for the unassigned shards of the list |
| ShardOrchestrator.EnhancedShardOrchestrator.MonitorAndRebalance | NIKI/Scripts/shardOrchestrator.js:128-158 | All shards afterwards, and whether the call throws, are those of the specified run; unless it throws, the anomalies are gone through in order, each confirmed one that names a shard making the next request for the first such shard if it waits and carrying out the answer, any other doing nothing |
| ShardOrchestrator.ShardsHoldTheData | NIKI/Scripts/shardOrchestrator.js:63-73 | With an encryption that can be undone, decrypting and joining the created shards gives back the data |
| OrchestratorRuns.SegmentsRejoin | NIKI/Scripts/shardOrchestrator.js:186-189 | Joining all segments gives back the data for every length and every positive number of parts |
| OrchestratorRuns.ElementAt | NIKI/Scripts/shardOrchestrator.js:186-189 | With segments of size ceil(n / parts), offset r of segment q is element q size + r, for every element, and no segment is longer than size |
| OrchestratorRuns.ApplyPlaces | NIKI/Scripts/shardOrchestrator.js:105-122 | With distinct ids and no exception every shard is on the node of the last result that gives it one, with status assigned, and a shard that no result gives a node is unchanged |
| OrchestratorRuns.ThrowsExactly | NIKI/Scripts/shardOrchestrator.js:105-109 | Placement throws if and only if some result with a node names no shard |
| OrchestratorRuns.ThrowKeepsEarlier | NIKI/Scripts/shardOrchestrator.js:105-122 | When it throws, exactly the results before the first that names no shard have been carried out |
| OrchestratorRuns.SubmittedIsExact | NIKI/Scripts/shardOrchestrator.js:93-103 | Exactly the waiting shards of a list are submitted, by id and in list order |
| OrchestratorRuns.AssignedShardsKeepTheirNodes | NIKI/Scripts/shardOrchestrator.js:90-123 | Assigned shards keep their nodes under every answer of the allocator if and only if no submitted id is first found on an assigned shard that some listed node differs from |
| OrchestratorRuns.SameMillisecond | NIKI/Scripts/shardOrchestrator.js:66 | Two shards with one id: placing the second moves the first |
| OrchestratorRuns.RunKeepsAssignments | NIKI/Scripts/shardOrchestrator.js:63-158 | Over every run of creating, distributing and rebalancing from a state with distinct ids, a shard is assigned exactly when it has a node, ids stay distinct, and a shard once assigned keeps its node and data for the rest of the run |
| OrchestratorRuns.RebalanceKeepsNodes | NIKI/Scripts/shardOrchestrator.js:128-158 | Rebalancing keeps ids, data, and the nodes of assigned shards, and assigned still means having a node |
| OrchestratorRuns.RebalanceIsExact | NIKI/Scripts/shardOrchestrator.js:128-158 | With distinct ids rebalancing never throws, changes only waiting shards that a confirmed anomaly names, and places every one of them if the allocator always finds a node |
| OrchestratorRuns.RebalanceIsMonitoring | NIKI/Scripts/shardOrchestrator.js:128-158 | A rebalancing that does not throw goes through the anomalies in order, and every confirmed one that names a shard makes one request and carries out its answer |
| PredictionEngine.RowAt | NIKI/Scripts/predictionEngine.js:83-108 | With m nodes there are n m rows of eleven columns, and row i m + j is, column by column with its default, priority, size and particle weight of task i, the five metrics of node j and the three of the system |
| PredictionEngine.GreaterIsExtendedOrder | NIKI/Scripts/predictionEngine.js:126 | Scores compare as extended reals, and NaN compares with nothing |
| PredictionEngine.SelectNode | NIKI/Scripts/predictionEngine.js:121-130 | The inner loop selects the first node whose score no other exceeds, and none exactly when no score is above -Infinity, NaN and missing scores included, and gives the score at that index |
| PredictionEngine.SelectableIsExact | NIKI/Scripts/predictionEngine.js:120-139 | The tasks that get an entry are exactly those with some score above -Infinity, in order |
| PredictionEngine.ConstructDistributionPlan | NIKI/Scripts/predictionEngine.js:117-143 | The plan has one entry for each such task in order, with its id and particle, the first best node and that score |
| PredictionEngine.PlanIsOptimal | NIKI/Scripts/predictionEngine.js:117-143 | With a node and finite scores every task has its entry, and the plan's total score is at least that of every assignment of tasks to nodes |
| Quorum.CalculateQuorumIsLeast | GOVMintHQNode/Utilities/governanceUtils.js:93-95 | A number of nodes reaches the quorum if and only if it is at least the percentage of all nodes |
| Quorum.ValidIsAccepted | GOVMintHQNode/Governance/nodeManagerWithGovernance.js:51-82 | A signature is valid if and only if some node has its id, no earlier node has it, that node has a non-empty key, and that key verifies it; in the batch check an empty key is not excluded |
| Quorum.ApprovedMeansHalf | GOVMintHQNode/Governance/nodeManagerWithGovernance.js:66-96 | The early-exit check approves if and only if there is a node and at least half as many accepted signatures as nodes |
| Quorum.ApprovedInBatchMeansTwoThirds | GOVMintHQNode/Utilities/governanceUtils.js:55-80 | The batch check approves if and only if the accepted signatures are at least 67% of the number of nodes |
| Quorum.BatchImpliesMajority | GOVMintHQNode/Utilities/governanceUtils.js:51-80 | With a registered node and a verifier of its own for each check, every list that the batch check approves is approved by the early-exit check if and only if every signature valid in the batch is valid for the manager |
| Quorum.BatchApprovesAlone | GOVMintHQNode/Governance/nodeManagerWithGovernance.js:77-82 | A signature over the text of the hash is approved by the batch check and refused by the manager |
| Quorum.NoNodesRegistered | GOVMintHQNode/Utilities/governanceUtils.js:55-80 | With no node registered the batch check approves every list and the manager none |
| GovernanceManager.Manager.ValidateSignatures | GOVMintHQNode/Governance/nodeManagerWithGovernance.js:63-100 | The early-exit loop returns true if and only if the registry is not empty and twice the number of listed signatures that the key of their own node, the first with the id, is not empty and verifies is at least the number of nodes |
| Quorum.CountIsSignersExactlyWithoutRepeats | GOVMintHQNode/Governance/nodeManagerWithGovernance.js:68-92 | The count is never below the number of distinct signers, and equals it if and only if no node has two accepted signatures in the list |
| Quorum.OneSignerListedTwice | GOVMintHQNode/Governance/nodeManagerWithGovernance.js:68-92 | One of three nodes listed twice is approved |
| Quorum.ApprovalsShareNodes | GOVMintHQNode/Governance/nodeManagerWithGovernance.js:63-100 | Two majority approvals without repeated signers share at least 2 ceil(n/2) - n nodes |
| Quorum.MajoritiesMeetExactlyWhenOdd | GOVMintHQNode/Governance/nodeManagerWithGovernance.js:66 | Every two majorities of the registry have a node in common if and only if the number of nodes is odd |
| Quorum.QuorumsMeetExactly | GOVMintHQNode/Governance/nodeManagerWithGovernance.js:66 | For any quorum up to n, every two sets that reach it meet if and only if twice the quorum exceeds n |
| Quorum.BatchApprovalsShareAThird | GOVMintHQNode/Utilities/governanceUtils.js:51-80 | Two approvals of the batch check under the 67% rule without repeated signers share more than a third of the nodes |
| GovernanceManager.Manager.RegisterGovernanceNode | GOVMintHQNode/Governance/nodeManagerWithGovernance.js:108-122 | A new id is appended with its key; an id that some node has fails and nothing changes |
| GovernanceManager.Manager.RemoveGovernanceNode | GOVMintHQNode/Governance/nodeManagerWithGovernance.js:129-145 | The first node with the id is taken out and the others keep their order; an id that no node has fails and nothing changes |
| Quorum.RegistryOverRuns | GOVMintHQNode/Governance/nodeManagerWithGovernance.js:108-145 | Over every run from the empty registry, failing calls included, no id is listed twice, and an id is listed exactly when the last operation on it was a registration |
| Quorum.KeysOverRuns | GOVMintHQNode/Governance/nodeManagerWithGovernance.js:108-145 | Over every run a node is listed with a key exactly when that key was given by the registration still in force |
| Quorum.RemoveUndoesRegister | GOVMintHQNode/Governance/nodeManagerWithGovernance.js:108-145 | Registering a new node and removing it again leaves the registry as it was |

## Left out

- Floating-point rounding, of `0.67` and of fractional sizes, capacities and scores: placement and quorums use integers, scores are compared exactly.
- FirstFit.FewerThanTwiceAnyPacking: compares node counts for equal capacities only; with unequal ones the other packing could use a few large nodes.
- Quorum.IsValidInBatch: `crypto.verify` throws on a malformed key, in both checks; a verifier here only accepts or refuses.
- PredictionEngine.PlanIsOptimal: asks for finite scores; with NaN or infinite ones IsPlan still says which entries the plan has, but a total is not defined.
- ShardPools.RunKeepsSound: relies on the predictor's contract; a predictor that returns foreign or repeated shards is not modelled.
- ShardOrchestrator.EnhancedShardOrchestrator.DistributeShards: `allocateResources` is not exported by the module that it is required from, so it is a parameter under the contract above.
- ShardOrchestrator.EnhancedShardOrchestrator.CreateAndLogShards: shard ids keep the two numbers that their text is made of, not the text.
- BlockValidator.PreImage: index, timestamp and nonce are the texts of finite numbers, and transactions are what a JSON file can hold; NaN, Infinity, `undefined` and `toJSON` methods are not modelled.
- Json.StringifyReadsBack: lone surrogates, which `JSON.stringify` escapes, are outside `char` here.
- LedgerRuns.RestoreReturnsSnapshot: snapshot ids are used as keys, so ids with path separators that name one file twice are not modelled.
- TaskCoordinator.Coordinator.ExecuteTask: the placeholder delay and the log file's own failures are left out; a caught log failure does not change the queue.
- Ids that are names of `Object.prototype` members, which the assignment and allocation objects would find already present.
- Tasks without a numeric priority or a type, which lodash orders specially, and the code-unit order of characters beyond the basic plane: priorities are integers, and types are compared character by character.
- Missing or malformed pools, nodes and blocks in the metadata files, beyond the missing dispute queue and the missing ledger.
- A failed write of the dispute log or of the ledger event: the code logs it and goes on, or throws after the state was written.
- Dispute handlers that queue further disputes while a pass is running: their entries would be overwritten when the pass saves its queue.
- `replicateShards`: random sampling with no promise beyond the number of nodes.
- `Core/Reconstruction/atomFusion.js`: it decodes bits one byte per bit, so it is not the inverse of sharding; the inverses in `BitSharder` are the model's own.
- Encryption, key exchange, hashing and signatures themselves: cryptographic code appears only as the parameters named above.
- Node addresses, access-token validation and the prediction call in `shardDataIntoBits`: calls into other modules around the expansion that is modelled.
- `predictOptimalDistribution`, `rebalanceNodes` and `realTimeFeedbackLoop`: the neural network and a loop around it.
- `validateShards`, `resolveDispute`, `handleEscalatedDispute`, `startTaskCoordinator`: single calls to parts already modelled, or to code that is not part of this model.
- `simulateConsensus` and the arbitration engines: random votes or one branch, which add only easy facts.
- Subscription, address, peer-list, health and monitoring modules: simple list updates and threshold tests.
