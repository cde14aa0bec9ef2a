# Verified model of DeviceJS core and its vendored DeviceDB

DeviceJS keeps its data in a distributed database, DeviceDB, and routes messages between
nodes by a link-state protocol. This project models the parts in which correctness is not
visible from one function, and proves what they are for. `dafny verify dfyconfig.toml` checks
everything.

| area | modules | main results |
|---|---|---|
| causal replicated store | `Clocks`, `Siblings`, `SiblingAlgebra`, `SiblingSets`, `Stores`, `Replication`, `StoreRuns` | the merge is a semilattice on antichains; over every run dots are unique, happened-before is a partial order, replicas that received the same writes are equal, and no write is lost; what the store does is steps of those runs |
| quorum reads and writes | `ReadMergers`, `Repairs`, `Agents`, `QuorumRuns` | a successful read reflects every batch that had returned with success; when read repair converges at a node, exactly |
| update monitor | `Monitors`, `MonitorRuns` | under any interleaving each listener receives exactly its updates, in order, once; what an empty store loses, exactly |
| token ring | `TokenRings`, `Partitioners`, `Ceilings`, `Ownership` | every node ends within floor and floor plus remainder; when the rounded up bound is certain, exactly; what an owner list contains |
| cluster state machine | `ClusterStates`, `ClusterCommands`, `ClusterEffects`, `LocalViews`, `ClusterControllers`, `ClusterRuns` | what every command changes, field by field; for any command log the maps agree, the ring is balanced, caches equal their recomputation, and the deltas a node was returned replay to its local state |
| link-state router | `LinkStates`, `Routes` | a digest, diff and merge exchange equals merging whole tables; routes start shortest paths to exactly the reachable nodes |
| selection language | `Selections`, `SelectionParsing`, `SelectionGrammar`, `SelectionReading`, `SelectionForms`, `SelectionTexts`, `SelectionEquivalence`, `SelectionParsers` | what the parser accepts against the grammar, exactly; which printed trees read back, exactly; the normal form is stable, keeps the meaning and decides equality up to associativity and commutativity |
| topic trie | `TopicMaps` | the trie search equals matching every live subscription by itself |

## How it is arranged

- What the source updates in place is a class here: `SiblingSet`, `Store`, `Monitor`,
  `ReadMerger`, `ClusterState`, `ClusterController`, `LinkStateTable`, `TopicMap`,
  `SelectionTokenizer`, `SelectionParser`. Source loops are loops. Each method is tied to a
  specification on values (`Siblings.Sync`, `Monitors.Flush`, `ClusterCommands.Next`,
  `LinkStates.Merged`, `Selections.Parse`, ...), and the laws are proved about those. What the
  specification of a main operation means is also stated without its own definitions, by fields,
  counters, bytes and character codes.
- Protocols are state machines over those specifications: `Replication`, `MonitorRuns`,
  `ClusterRuns` and `LinkStates` define steps and runs, and prove invariants by induction over
  the run. `QuorumRuns` places one batch and one read of the agent into a replication run, and
  `StoreRuns` shows that what `Store` does are steps of `MonitorRuns` and `Replication`.
- Iteration over a Go map or a JavaScript object has no fixed order, so loops pick an arbitrary
  remaining element and contracts hold for every order.
- Network answers, the clock, the outcome of the storage driver and the contents of the
  resource index are parameters.

## Where the code does not keep what is said of it

- The comment at `cluster/partitioner.go:316` gives the rounded up share as an upper bound.
  `Partitioners.CeilingIsNotKept` shows five tokens among three nodes that end as 3, 1, 1. The
  bound is certain for given numbers of tokens and live nodes if and only if the remainder is
  at most one (`Ceilings.CeilingExactly`), and it is kept whenever it held before.
- The comment at `cluster/partitioner.go:209` lets every decommissioned node release its tokens. With
  more members than partitions one that comes after the first of them keeps its own:
  `ClusterRuns.UnseatedKeepsToken`, with the exact condition in `FreedExactly`.
- A read does not repair every replica that answered with less. Two different values under one
  clock stay different (`ReadMergers.ClashIsNotRepaired`), and a node that lost its own history
  gives its value a new dot instead of taking the merged set (`Repairs.ForgottenIsNotRepaired`).
  `Repairs.ReadRepairConverges` says exactly when a node ends with the merged set.
  The same value under one clock with two times makes the merge depend on the side:
  `Siblings.TimestampTieShows`, with the exact condition in `SyncCommutesExactly`.
- A monitor started over an empty store can lose the first row: `MonitorRuns.VersionOneCanOvertake`,
  with the exact condition in `FirstRowOfAnEmptyStore`; the other rows still arrive
  (`OvertakenListenersGetTheRest`).
- A node named with the empty string disappears from joined contexts:
  `SiblingAlgebra.EmptyNameIsForgottenByJoin`; it is the only such name (`JoinAgreesExactly`).
- A value that needs an escape is printed without one. A printed tree reads back as itself if and
  only if none of its values needs one: `SelectionReading.ReadsBackExactly`.
- The grammar in the head of `selection.js` and its pattern for literals allow control characters
  as they stand, which decoding a literal as a JSON string (section 7 of RFC 8259) rejects. A text
  that the grammar derives parses, to the derived tree, if and only if no literal in it holds one
  (`SelectionGrammar.GrammarIsParsed`); `RawTabIsRejected` shows a derivable text that fails.
- The parser accepts texts outside that grammar: exactly those without such characters that end
  with `and`, `or` or `not` and become derivable when an operand is appended
  (`SelectionGrammar.ParsesExactly`, `ParserKeepsToGrammarExactly`). `DanglingNot` shows one, and
  one that is still rejected.

## Model

| member | source | states |
|---|---|---|
| `Clocks.DVV.Replicas` | deps/devicedb/src/devicedb/data/dvv.go:67-84 | every node the clock mentions, its dot included, exactly once |
| `Clocks.DVV.Equals` | deps/devicedb/src/devicedb/data/dvv.go:104-124 | the entry by entry comparison holds exactly when the two clocks are the same |
| `Siblings.CompareIsAnOrder` | deps/devicedb/src/devicedb/data/sibling.go:70-86 | antisymmetric and transitive; a tie means equal values, and for tombstones equal times as well |
| `Siblings.CompareMeaning` | deps/devicedb/src/devicedb/data/sibling.go:70-86 | a tombstone gives way to a value, an earlier tombstone to a later one, and bytes to greater ones, the first difference deciding and a proper prefix coming first |
| `Siblings.SyncMeaning` | deps/devicedb/src/devicedb/data/sibling_set.go:75-113 | a sibling is kept if and only if no context of the other side covers its dot and it does not give way to one with its clock there; on a tie the right one is kept |
| `Siblings.TieIsBroken` | deps/devicedb/src/devicedb/data/sibling_set.go:75-113 | of two siblings with one clock exactly one is kept: the one that does not give way |
| `Siblings.DiffMeaning` | deps/devicedb/src/devicedb/data/sibling_set.go:157-171 | the siblings of the other side whose dot no context here covers and whose clock is not here |
| `Siblings.MaximalMeaning` | deps/devicedb/src/devicedb/data/sibling_set.go:75-113 | the siblings that no other covers or is preferred to under the same clock |
| `Siblings.SyncIsMaximal` | deps/devicedb/src/devicedb/data/sibling_set.go:75-113 | merging two antichains gives exactly the maximal siblings of their union, again an antichain |
| `Siblings.SyncIsCommutative` | deps/devicedb/src/devicedb/data/sibling_set.go:75-113 | the merge does not depend on which side it is called on |
| `Siblings.SyncIsAssociative` | deps/devicedb/src/devicedb/data/sibling_set.go:75-113 | three antichains merge to the maximal siblings of all three, however grouped |
| `Siblings.SyncIsIdempotent` | deps/devicedb/src/devicedb/data/sibling_set.go:75-113 | merging an antichain with itself gives it back |
| `Siblings.SyncCommutesExactly` | deps/devicedb/src/devicedb/data/sibling_set.go:75-113 | without assuming that ties are equal: the merge commutes if and only if every tied pair with one clock is held on both sides |
| `Siblings.TimestampTieShows` | deps/devicedb/src/devicedb/data/sibling.go:70-86 | the same value under one clock with different times ties in the comparison, so the merge depends on the side |
| `SiblingAlgebra.JoinOne` | deps/devicedb/src/devicedb/data/sibling_set.go:189-201 | an attained upper bound of the counters of one node over the whole set |
| `SiblingAlgebra.JoinAgreesWithJoinOne` | deps/devicedb/src/devicedb/data/sibling_set.go:173-201 | for every non-empty node name the joined context holds the largest counter |
| `SiblingAlgebra.JoinAgreesExactly` | deps/devicedb/src/devicedb/data/sibling_set.go:173-201 | the joined context holds the largest counter of a node for every set if and only if the name is not empty |
| `SiblingAlgebra.EmptyNameIsForgottenByJoin` | deps/devicedb/src/devicedb/data/sibling_set.go:173-187 | a node named with the empty string has a counter that the joined context leaves out |
| `SiblingAlgebra.MergeSyncMeaning` | deps/devicedb/src/devicedb/data/sibling_set.go:115-155 | told by dots and counters: only at a node that lost history does the merge differ; then every local sibling that the other side supersedes is there under a new dot above the counters of the node on that side, with its value, time and context, and nothing but such copies is new |
| `SiblingAlgebra.CopySurvives` | deps/devicedb/src/devicedb/data/sibling_set.go:115-155 | a sibling that was given a new dot survives the merge and is not one of the other side |
| `SiblingAlgebra.MergeSyncKeepsForgottenWrites` | deps/devicedb/src/devicedb/data/sibling_set.go:115-155 | when the node forgot its history, every local sibling that meets the overwrite condition survives under its own fresh dot, above the counters of both sides |
| `SiblingAlgebra.MintedSurvives` | deps/devicedb/src/devicedb/data/sibling_set.go:115-155 | when a dot is minted, one above both sides is in the merged set |
| `SiblingAlgebra.MergeSyncIsSyncExactly` | deps/devicedb/src/devicedb/data/sibling_set.go:115-155 | the merge is the plain one if and only if the node forgot nothing or nothing meets the overwrite condition |
| `SiblingSets.SiblingSet.Add` | deps/devicedb/src/devicedb/data/sibling_set.go:41-45 | the set in place gains exactly the sibling |
| `SiblingSets.SiblingSet.Delete` | deps/devicedb/src/devicedb/data/sibling_set.go:47-51 | the set in place loses exactly the sibling |
| `SiblingSets.SiblingSet.Sync` | deps/devicedb/src/devicedb/data/sibling_set.go:75-113 | the two nested passes compute the value-level merge whatever the iteration order; the operands are not changed |
| `SiblingSets.SiblingSet.DeleteIfLosing` | deps/devicedb/src/devicedb/data/sibling_set.go:81-92 | the left sibling goes exactly when it happened before, or ties in favour of, some sibling of the other side |
| `SiblingSets.SiblingSet.DeleteIfBelow` | deps/devicedb/src/devicedb/data/sibling_set.go:98-109 | the right sibling goes exactly when it loses against some sibling of the left side |
| `SiblingSets.SiblingSet.MergeSync` | deps/devicedb/src/devicedb/data/sibling_set.go:115-155 | the result is one of those the iteration orders allow: dots minted in the order in which overwrites are met, then a merge |
| `SiblingSets.SiblingSet.RemintForgotten` | deps/devicedb/src/devicedb/data/sibling_set.go:118-151 | new dots are minted only when the other side knows a larger counter of the node, once for every overwriting pair |
| `SiblingSets.SiblingSet.RemintOverwritten` | deps/devicedb/src/devicedb/data/sibling_set.go:124-148 | the running counter stays the base plus the number of dots minted, and the set is the reminted one |
| `SiblingSets.SiblingSet.Diff` | deps/devicedb/src/devicedb/data/sibling_set.go:157-171 | the siblings of the other set whose clock neither equals nor happened before one held here |
| `SiblingSets.SiblingSet.DeleteIfPresent` | deps/devicedb/src/devicedb/data/sibling_set.go:160-168 | one sibling is dropped exactly when it is covered here |
| `SiblingSets.SiblingSet.Join` | deps/devicedb/src/devicedb/data/sibling_set.go:173-187 | the pointwise largest counters over all siblings |
| `SiblingSets.SiblingSet.JoinOne` | deps/devicedb/src/devicedb/data/sibling_set.go:189-201 | the largest counter of one node |
| `SiblingSets.SiblingSet.Discard` | deps/devicedb/src/devicedb/data/sibling_set.go:203-213 | a new set of exactly the siblings whose dot the clock does not cover |
| `SiblingSets.SiblingSet.Event` | deps/devicedb/src/devicedb/data/sibling_set.go:215-229 | a clock with a dot above everything known here and in the context, over that context |
| `SiblingSets.SiblingSet.IsTombstoneSet` | deps/devicedb/src/devicedb/data/sibling_set.go:231-239 | no sibling has a value |
| `SiblingSets.SiblingSet.GetOldestTombstone` | deps/devicedb/src/devicedb/data/sibling_set.go:251-265 | none exactly when there is no tombstone, otherwise a tombstone with the smallest time |
| `Replication.StepKeepsInv` | deps/devicedb/src/devicedb/bucket/store.go:825-981 | every write, merge, read, combination and repair keeps: unique dots, growing contexts, sound copies, own dots known |
| `Replication.RunKeepsInv` | deps/devicedb/src/devicedb/bucket/store.go:825-981 | the invariant holds at every point of every run, and the set of replicas does not change |
| `Replication.CausalityOverRuns` | deps/devicedb/src/devicedb/data/sibling_set.go:75-229 | in every run each dot names one sibling, happened-before is a strict partial order on everything ever written and implies context inclusion, replicas hold antichains, and a replica knows the largest of its own counters |
| `Replication.StrongConvergence` | deps/devicedb/src/devicedb/bucket/store.go:858-962 | a replica holds exactly the maximal siblings of what it received, so two replicas that received the same writes hold the same set, at whatever times |
| `Replication.KnowledgeGrows` | deps/devicedb/src/devicedb/bucket/store.go:909-981 | along a run a replica never forgets a write it received or overwrote |
| `Replication.KnownIsReflected` | deps/devicedb/src/devicedb/data/sibling_set.go:75-113 | a write is known to a copy if and only if it is in the set or happened before a member of it |
| `Replication.WritesAreNeverLost` | deps/devicedb/src/devicedb/bucket/store.go:825-981 | once a write reached a replica, at every later time it is there or overwritten by one that is |
| `Replication.PatchIsEnough` | deps/devicedb/src/devicedb/clusterio/read_merger.go:95-110 | merging a patch computed against an older version gives what merging the whole merged set gives |
| `Replication.MergeIsSync` | deps/devicedb/src/devicedb/bucket/store.go:953 | in runs without lost history the node-aware merge of the store is the plain merge |
| `Replication.WrittenIsMaximal` | deps/devicedb/src/devicedb/bucket/store.go:858-890 | discarding what the new dot covers and adding the sibling leaves the maximal siblings of old set and new sibling |
| `Replication.WrittenMeaning` | deps/devicedb/src/devicedb/bucket/store.go:813-889 | after a write there is one new sibling: its dot is the next one of the node, its value the bytes of a put and none for a delete, its context that of the client or, without one, the largest counters held; a held sibling is gone exactly when this context covers its dot |
| `Replication.WriteStores` | deps/devicedb/src/devicedb/bucket/store.go:813-889 | the same for a write step of a run, which changes no other replica |
| `Replication.WriteDotIsNew` | deps/devicedb/src/devicedb/data/sibling_set.go:215-229 | in a run the new dot is above every counter of the node anywhere |
| `Replication.WriteCoversRead` | deps/devicedb/src/devicedb/bucket/store.go:868-876 | in a run the new context holds exactly the largest counters of what the client had read, or of what the replica held when that was nothing |
| `Replication.CreatedByWrites` | deps/devicedb/src/devicedb/bucket/store.go:858-890 | in every run each sibling anywhere was created by one write at the node its dot names, with the value and time of that write |
| `Stores.SkippedMergeChangesNothing` | deps/devicedb/src/devicedb/bucket/store.go:953-961 | when no sibling of the merge is new, leaving the row unwritten loses nothing: the merged set is the one held, with lost history or without |
| `Stores.RowsOfMeaning` | deps/devicedb/src/devicedb/bucket/store.go:779-811 | one row for each changed key, each key once, under consecutive identifiers |
| `Stores.CalculateNextRowID` | deps/devicedb/src/devicedb/bucket/store.go:268-287 | one more than the largest stored identifier, 0 for an empty store |
| `Stores.Store.constructor` | deps/devicedb/src/devicedb/bucket/store.go:147-229 | the counter follows the stored rows, and the monitor starts at the largest identifier or at 0 for an empty store |
| `Stores.Store.UpdateInit` | deps/devicedb/src/devicedb/bucket/store.go:738-777 | the held set of every key, the empty one where there is no row, and an error when the rows cannot be read |
| `Stores.Store.Stamp` | deps/devicedb/src/devicedb/bucket/store.go:813-823 | a delete over tombstones keeps the time of an oldest one, everything else takes the current time |
| `Stores.Store.WriteKey` | deps/devicedb/src/devicedb/bucket/store.go:868-889 | the new set of one key holds what was held and not covered and one new sibling with the value of the operation, and is a possible result of a write step of the replicated model |
| `Stores.Store.WriteKeys` | deps/devicedb/src/devicedb/bucket/store.go:858-890 | exactly the keys that are not deletes of nothing get a new set |
| `Stores.Store.MergeKey` | deps/devicedb/src/devicedb/bucket/store.go:953-961 | the merged set of one key, to be stored when it gained something |
| `Stores.Store.KeepIfGained` | deps/devicedb/src/devicedb/bucket/store.go:955-961 | finds out whether the merge has a sibling that was not held |
| `Stores.Store.MergeKeys` | deps/devicedb/src/devicedb/bucket/store.go:940-962 | exactly the keys that gained a sibling are written |
| `Stores.Store.Reserve` | deps/devicedb/src/devicedb/bucket/store.go:794-811 | the counter moves by the number of changed keys and the rows take the range it passed |
| `Stores.NumberRows` | deps/devicedb/src/devicedb/bucket/store.go:799-808 | the loop numbers every key of the update once, without gaps |
| `Stores.Store.Put` | deps/devicedb/src/devicedb/bucket/store.go:892-893 | the stored rows are the new ones at changed keys and the old ones elsewhere |
| `Stores.Store.Commit` | deps/devicedb/src/devicedb/bucket/store.go:892-904 | all rows are stored and submitted to the monitor, or none is stored and the whole range is discarded there |
| `Stores.Store.Batch` | deps/devicedb/src/devicedb/bucket/store.go:825-907 | exactly the keys that are not deletes of nothing change; each of them holds, in storage and in the answer, what it held and the new context does not cover, and one new sibling under the next dot of the node with the bytes of the put, or a tombstone, and its time; when the rows cannot be read nothing changes at all, and when they cannot be written only identifiers are used up and discarded |
| `Stores.Store.Merge` | deps/devicedb/src/devicedb/bucket/store.go:909-981 | every key holds its merge when that gained a sibling and its old set otherwise; other keys stay; on an error of the driver storage stays |
| `Stores.Store.NotifyWatchers` | deps/devicedb/src/devicedb/bucket/store.go:1077-1085 | every row goes to the monitor in the order of its identifiers |
| `Stores.Store.DiscardIDRange` | deps/devicedb/src/devicedb/bucket/store.go:1087-1096 | the monitor is told of exactly the reserved range |
| `Monitors.InsertKeepsOrder` | deps/devicedb/src/devicedb/bucket/monitor.go:38-66 | a pushed row leaves the heap in pop order and one longer |
| `Monitors.IsListeningFor` | deps/devicedb/src/devicedb/bucket/monitor.go:69-90 | true exactly when the key is listed or starts with a listed prefix |
| `Monitors.Monitor.constructor` | deps/devicedb/src/devicedb/bucket/monitor.go:92-101 | starts at the given version with nothing waiting |
| `Monitors.Monitor.AddListener` | deps/devicedb/src/devicedb/bucket/monitor.go:103-124 | a new listener under an unused id, with nothing received |
| `Monitors.Monitor.RemoveListener` | deps/devicedb/src/devicedb/bucket/monitor.go:114-123 | exactly this listener goes |
| `Monitors.Monitor.Notify` | deps/devicedb/src/devicedb/bucket/monitor.go:126-184 | the row is pushed and everything that became deliverable is delivered; the next row, when nothing waits, goes to exactly the listeners that list its key or a prefix of it |
| `Monitors.Monitor.DiscardIDRange` | deps/devicedb/src/devicedb/bucket/monitor.go:135-142 | every identifier of the range is submitted as an update without a key |
| `Monitors.Monitor.SubmitUpdate` | deps/devicedb/src/devicedb/bucket/monitor.go:144-154 | an update that is too old is dropped, any other is pushed before flushing |
| `Monitors.Monitor.FlushUpdates` | deps/devicedb/src/devicedb/bucket/monitor.go:156-172 | pops while the head is the next version, as the step by step flush |
| `Monitors.Monitor.SendUpdate` | deps/devicedb/src/devicedb/bucket/monitor.go:174-184 | every matching listener receives the row once, the others nothing; discarded rows reach nobody |
| `MonitorRuns.RunKeepsInv` | deps/devicedb/src/devicedb/bucket/monitor.go:126-184 | any interleaving of reservations, settlements in any order and joining listeners keeps the delivery invariant |
| `MonitorRuns.FlushDelivers` | deps/devicedb/src/devicedb/bucket/monitor.go:156-172 | a flush stops just below the first missing version, having delivered everything before it |
| `MonitorRuns.MatchingIsExact` | deps/devicedb/src/devicedb/bucket/monitor.go:69-90 | the specified deliveries are exactly the wanted settled rows of the range, once each, by increasing version |
| `MonitorRuns.ListenersGetEverything` | deps/devicedb/src/devicedb/bucket/monitor.go:69-184 | in every run each listener has received, strictly increasing, exactly the rows that some step reserved and some step settled as stored, flushed since it joined, whose key is one of the keys or starts with one of the prefixes it was added with |
| `MonitorRuns.DiscardedReachNobody` | deps/devicedb/src/devicedb/bucket/monitor.go:135-172 | in every run, overtaken or not, an identifier that was settled as discarded reaches no listener |
| `MonitorRuns.NothingIsHeldBack` | deps/devicedb/src/devicedb/bucket/monitor.go:156-172 | everything below the lowest outstanding identifier has been flushed |
| `MonitorRuns.FirstRowOfAnEmptyStore` | deps/devicedb/src/devicedb/bucket/monitor.go:144-172 | started at 0 over an empty store, version 0 is delivered if and only if version 1 is never settled while version 0 is outstanding |
| `MonitorRuns.VersionOneCanOvertake` | deps/devicedb/src/devicedb/bucket/monitor.go:144-160 | a run of two batches, of which the second settles first, in which a listener that was there from the start and wants row 0 receives nothing |
| `MonitorRuns.OvertakenListenersGetTheRest` | deps/devicedb/src/devicedb/bucket/monitor.go:144-172 | when version 1 overtakes version 0, each listener still receives exactly its other rows, once each and in order |
| `StoreRuns.CommitIsRun` | deps/devicedb/src/devicedb/bucket/store.go:892-904 | what a commit does to the row counter and the monitor is what a run does that reserves the rows and settles each of them, stored or discarded |
| `StoreRuns.WriteIsStep` | deps/devicedb/src/devicedb/bucket/store.go:858-890 | a write that is not dropped, by a client with the context of a copy it read, is a write step of the replicated system |
| `StoreRuns.MergeIsStep` | deps/devicedb/src/devicedb/bucket/store.go:940-962 | what a merge leaves stored for a key, written or skipped, is a merge step of the replicated system |
| `StoreRuns.RepairIsStep` | deps/devicedb/src/devicedb/bucket/store.go:940-962 | so is the merge of a patch against a version the replica answered with |
| `StoreRuns.StoredIsDelivered` | deps/devicedb/src/devicedb/bucket/store.go:1077-1085 | when nothing waits at the monitor, a stored batch reaches every listener: exactly the rows that fit its keys or prefixes, in the order of their identifiers |
| `StoreRuns.DiscardedIsSilent` | deps/devicedb/src/devicedb/bucket/store.go:1087-1096 | a batch that was not stored reaches nobody and leaves nothing waiting |
| `ReadMergers.FoldIsMaximal` | deps/devicedb/src/devicedb/clusterio/read_merger.go:59-78 | the merged set is the maximal part of all answers |
| `ReadMergers.ArrivalOrderDoesNotMatter` | deps/devicedb/src/devicedb/clusterio/read_merger.go:59-78 | the same answers in another order or repeated give the same merged set |
| `ReadMergers.RepairConvergesExactly` | deps/devicedb/src/devicedb/clusterio/read_merger.go:95-110 | under the plain merge, the patch brings the version a replica answered to the merged set if and only if no two different siblings share a clock |
| `ReadMergers.EmptyDiffExactly` | deps/devicedb/src/devicedb/clusterio/read_merger.go:95-110 | a replica already equals the merged set if and only if its patch is empty and no clocks clash |
| `ReadMergers.ClashIsNotRepaired` | deps/devicedb/src/devicedb/clusterio/read_merger.go:95-110 | with two values under one clock a losing replica gets an empty patch and stays different |
| `ReadMergers.ReadMerger.constructor` | deps/devicedb/src/devicedb/clusterio/read_merger.go:42-57 | nothing inserted |
| `ReadMergers.ReadMerger.InsertKeyReplica` | deps/devicedb/src/devicedb/clusterio/read_merger.go:59-78 | records the version of the node, a missing one as the empty set, and merges it into the key |
| `ReadMergers.ReadMerger.Get` | deps/devicedb/src/devicedb/clusterio/read_merger.go:80-93 | the merge of everything inserted for the key, and nothing when that is empty |
| `ReadMergers.ReadMerger.Patch` | deps/devicedb/src/devicedb/clusterio/read_merger.go:95-110 | for each key the node answered for, what its version lacks of the merged set |
| `ReadMergers.ReadMerger.Nodes` | deps/devicedb/src/devicedb/clusterio/read_merger.go:113-125 | exactly the nodes that answered for some key |
| `Repairs.DropEmpty` | deps/devicedb/src/devicedb/clusterio/read_repairer.go:66-75 | the patch without its empty parts |
| `Repairs.BeginRepair` | deps/devicedb/src/devicedb/clusterio/read_repairer.go:52-99 | a merge is sent to exactly the answering nodes that lack something, with exactly the merged siblings whose dot their version does not cover and whose clock it does not have |
| `Repairs.MergePatch` | deps/devicedb/src/devicedb/clusterio/read_repairer.go:83-89 | the store of the repaired node holds, for every key, what the node-aware merge of the patch gives, and what it held when that gains nothing |
| `Repairs.NodeRepairConvergesExactly` | deps/devicedb/src/devicedb/bucket/store.go:953-961 | the node-aware merge of the patch gives the merged set if and only if no clocks clash and the node mints no new dots |
| `Repairs.ReadRepairConverges` | deps/devicedb/src/devicedb/clusterio/read_repairer.go:52-99 | after the repair a node that answered holds the merged set of the key if and only if its version does not clash with it and the node did not forget events of its own that overwrite what it holds |
| `Repairs.ForgottenIsNotRepaired` | deps/devicedb/src/devicedb/bucket/store.go:953 | a node that lost its history keeps its value under a new dot and never holds the merged set, although no clocks clash and the plain merge would give it |
| `Agents.QuorumIsMajority` | deps/devicedb/src/devicedb/clusterio/agent.go:588-590 | a quorum is reached exactly when it is more than half of the replicas, and is the smallest such number |
| `Agents.MergeNodes` | deps/devicedb/src/devicedb/clusterio/agent.go:241-316 | success exactly when a quorum accepts, with the count at that moment; otherwise the number of successes and the last specific error, or no quorum |
| `Agents.ResultErrorMeaning` | deps/devicedb/src/devicedb/clusterio/agent.go:241-316 | the error told is some node's specific answer when there is one, and the fallback when there is none |
| `Agents.MergeRest` | deps/devicedb/src/devicedb/clusterio/agent.go:193-204 | after the write the remaining replicas are asked for the rest of the quorum; success means that a quorum holds the write |
| `Agents.Batch` | deps/devicedb/src/devicedb/clusterio/agent.go:160-239 | for every pattern of answers: which node wrote, the local one first, that those before it refused, that success is reported exactly when more than half of the replicas hold the write, and whose error is told otherwise |
| `Agents.AskInTurn` | deps/devicedb/src/devicedb/clusterio/agent.go:207-238 | the remaining nodes are asked until one takes the batch, and the error kept is one of their specific answers |
| `Agents.AckedIsQuorum` | deps/devicedb/src/devicedb/clusterio/agent.go:241-316 | a batch that reports success returns when exactly a quorum, the writer among it, has acknowledged |
| `Agents.Merge` | deps/devicedb/src/devicedb/clusterio/agent.go:136-158 | success if and only if more than half of the replicas accepted, otherwise how many did and the last answer that names a missing bucket or site |
| `Agents.ShownIsMerge` | deps/devicedb/src/devicedb/clusterio/agent.go:359-384 | for each key the read shows every sibling that some counted answer gave and none given covers or is preferred to, and nothing when none was given |
| `Agents.InsertAnswer` | deps/devicedb/src/devicedb/clusterio/agent.go:371-373 | one answer adds its set to each key it was asked for |
| `Agents.CountReads` | deps/devicedb/src/devicedb/clusterio/agent.go:359-386 | the decision is taken at the answer that completes the quorum and later answers still reach the merger |
| `Agents.Get` | deps/devicedb/src/devicedb/clusterio/agent.go:318-399 | succeeds if and only if more than half of the replicas answered without error, and returns for each key the merge of the answers up to the one that made it so; otherwise the last answer that names a missing bucket or site; the merger for the repair holds all of them |
| `QuorumRuns.HolderKnows` | deps/devicedb/src/devicedb/clusterio/agent.go:160-239 | the writer and every node that had acknowledged by a time know the write at that time |
| `QuorumRuns.QuorumsIntersect` | deps/devicedb/src/devicedb/clusterio/agent.go:588-590 | two majorities of the same replicas share a node |
| `QuorumRuns.CommonNode` | deps/devicedb/src/devicedb/clusterio/agent.go:318-399 | some node both acknowledged the write and was counted by the read |
| `QuorumRuns.FoldReflects` | deps/devicedb/src/devicedb/clusterio/read_merger.go:59-78 | merging answers keeps every write that one of them reflects |
| `QuorumRuns.ReadSeesQuorum` | deps/devicedb/src/devicedb/clusterio/agent.go:160-399 | the same for any majority that holds the write and any majority read later |
| `QuorumRuns.ReadYourQuorum` | deps/devicedb/src/devicedb/clusterio/agent.go:160-399 | once a batch has returned with success, while other replicas may still be merging, every read that starts later and succeeds returns a set that holds the written sibling or one it happened before |
| `TokenRings.NeedMeansSurplus` | deps/devicedb/src/devicedb/cluster/partitioner.go:290-314 | while a node is below the share another one is above it, so the sweeps end |
| `TokenRings.SharesLeaveRemainder` | deps/devicedb/src/devicedb/cluster/partitioner.go:316 | when everyone has the share nobody has more than the share plus the remainder |
| `TokenRings.UnassignedMeansRoom` | deps/devicedb/src/devicedb/cluster/partitioner.go:222-249 | while a token is unassigned some live node has room below the rounded up share |
| `Partitioners.NodesAreSortedAndUnique` | deps/devicedb/src/devicedb/cluster/partitioner.go:166-178 | strictly ascending ids |
| `Partitioners.OwnerExists` | deps/devicedb/src/devicedb/cluster/partitioner.go:148-160 | the owner is one of the nodes |
| `Partitioners.CheckPreconditions` | deps/devicedb/src/devicedb/cluster/partitioner.go:120-164 | passes exactly when the nodes are sorted, non-zero and unique, the count matches and owners are known or 0 |
| `Partitioners.CountAvailableNodes` | deps/devicedb/src/devicedb/cluster/partitioner.go:96-108 | the number of nodes with capacity |
| `Partitioners.CountTokens` | deps/devicedb/src/devicedb/cluster/partitioner.go:110-118 | the number of tokens each node lists |
| `Partitioners.ReleaseNode` | deps/devicedb/src/devicedb/cluster/partitioner.go:209-220 | exactly the tokens of the decommissioned node become unassigned, counters follow |
| `Partitioners.ReleaseDecommissioned` | deps/devicedb/src/devicedb/cluster/partitioner.go:209-220 | exactly the tokens of nodes without capacity become unassigned |
| `Partitioners.FindRoom` | deps/devicedb/src/devicedb/cluster/partitioner.go:232-248 | the first node with room going round from the cursor, none only when nobody has room |
| `Partitioners.PlaceUnassigned` | deps/devicedb/src/devicedb/cluster/partitioner.go:222-249 | every unassigned token finds a live node below the rounded up share, the others keep their owner |
| `Partitioners.OwnerIndex` | deps/devicedb/src/devicedb/cluster/partitioner.go:269-277 | the position of the owner, 0 when it is unknown |
| `Partitioners.TakeToken` | deps/devicedb/src/devicedb/cluster/partitioner.go:268-288 | a token is taken exactly when its owner is above the share; counters stay exact |
| `Partitioners.SkipAmount` | deps/devicedb/src/devicedb/cluster/partitioner.go:259-266 | the gap with which the share of taken tokens goes round once |
| `Partitioners.TakeSpaced` | deps/devicedb/src/devicedb/cluster/partitioner.go:259-288 | the node ends at most at its share and gains something unless nothing can be taken; nobody falls below the share |
| `Partitioners.StealFrom` | deps/devicedb/src/devicedb/cluster/partitioner.go:301-313 | the donor ends at exactly the share and all it lost went to the taker |
| `Partitioners.TakeRest` | deps/devicedb/src/devicedb/cluster/partitioner.go:290-314 | the node reaches the share or nobody is above it |
| `Partitioners.FillNode` | deps/devicedb/src/devicedb/cluster/partitioner.go:253-317 | both passes bring one node to its share and push nobody below it |
| `Partitioners.FillNodes` | deps/devicedb/src/devicedb/cluster/partitioner.go:253-317 | every live node reaches its share; an already balanced ring is untouched |
| `Partitioners.AssignLive` | deps/devicedb/src/devicedb/cluster/partitioner.go:180-320 | every token on a live node, each within the share and the remainder; a spread ring is left as it is |
| `Partitioners.AssignTokens` | deps/devicedb/src/devicedb/cluster/partitioner.go:180-320 | error exactly on failed preconditions; only the first nodes take part, as many as there are tokens: without capacity among them all tokens are 0, and those of them without capacity keep none; with no more nodes than tokens every live node has at least floor and at most floor plus remainder, the rounded up bound holds when it held before or the remainder is at most one, and a balanced ring does not change |
| `Partitioners.UnassignedIsWithinCeiling` | deps/devicedb/src/devicedb/cluster/partitioner.go:222-249 | an unassigned ring starts within the rounded up share, so it ends within it |
| `Partitioners.SingleOwnerKeepsRemainder` | deps/devicedb/src/devicedb/cluster/partitioner.go:290-316 | from a single owner and a share of one, the result is within the rounded up share if and only if the remainder is at most one |
| `Partitioners.CeilingIsNotKept` | deps/devicedb/src/devicedb/cluster/partitioner.go:316 | five tokens of one node shared among three leave it three, above the rounded up two |
| `Ceilings.CeilingExactly` | deps/devicedb/src/devicedb/cluster/partitioner.go:200-317 | for given numbers of tokens and live nodes: every possible outcome is within the rounded up share if and only if the remainder is at most one |
| `Ceilings.LopsidedIsKept` | deps/devicedb/src/devicedb/cluster/partitioner.go:253-317 | a ring on which one node holds the whole remainder is returned unchanged, above the rounded up share |
| `Ownership.DistinctMeaning` | deps/devicedb/src/devicedb/cluster/partitioner.go:389-399 | the owners met while walking the ring from the partition, each once |
| `Ownership.DistinctInOrder` | deps/devicedb/src/devicedb/cluster/partitioner.go:389-399 | they are listed in the order in which the walk meets them |
| `Ownership.OwnerAt` | deps/devicedb/src/devicedb/cluster/partitioner.go:392-407 | replica i belongs to the i-th different owner, and after the last one the list repeats |
| `Ownership.NextOwner` | deps/devicedb/src/devicedb/cluster/partitioner.go:380-410 | walking the ring from the partition, the next owner is the first node met that is not listed yet; once all are listed the list starts over |
| `Ownership.OwnersMeaning` | deps/devicedb/src/devicedb/cluster/partitioner.go:380-410 | exactly as many owners as replicas, the first being all the different owners of the ring, or as many of them as fit |
| `Ownership.ComputeOwners` | deps/devicedb/src/devicedb/cluster/partitioner.go:380-410 | the loop computes that list, and the empty one for a partition outside the ring |
| `Ownership.Repeat` | deps/devicedb/src/devicedb/cluster/partitioner.go:401-407 | the final loop repeats the list in turn |
| `ClusterStates.WithNodeKeepsInv` | deps/devicedb/src/devicedb/cluster/state.go:202-219 | adding a member that was not removed keeps the maps in step |
| `ClusterStates.WithoutNodeKeepsInv` | deps/devicedb/src/devicedb/cluster/state.go:221-256 | removing a member frees its tokens and replicas on both sides |
| `ClusterStates.WithOwnerKeepsInv` | deps/devicedb/src/devicedb/cluster/state.go:259-283 | moving a token keeps ring and token lists in step |
| `ClusterStates.WithHolderKeepsInv` | deps/devicedb/src/devicedb/cluster/state.go:316-343 | moving a replica keeps holders and replica lists in step |
| `ClusterStates.FreshKeepsInv` | deps/devicedb/src/devicedb/cluster/state.go:345-363 | a new ring has no owners and no holders |
| `ClusterStates.WithoutSiteKeepsInv` | deps/devicedb/src/devicedb/cluster/state.go:156-168 | no relay is left at the removed site |
| `ClusterStates.ClusterState.AddSite` | deps/devicedb/src/devicedb/cluster/state.go:148-154 | one more site, nothing else |
| `ClusterStates.ClusterState.RemoveSite` | deps/devicedb/src/devicedb/cluster/state.go:156-168 | the site goes and its relays are left without one |
| `ClusterStates.ClusterState.AddRelay` | deps/devicedb/src/devicedb/cluster/state.go:170-176 | the relay starts without a site |
| `ClusterStates.ClusterState.RemoveRelay` | deps/devicedb/src/devicedb/cluster/state.go:178-184 | exactly the relay goes |
| `ClusterStates.ClusterState.MoveRelay` | deps/devicedb/src/devicedb/cluster/state.go:186-200 | the relay moves if it exists and the site exists or is empty |
| `ClusterStates.ClusterState.AddNode` | deps/devicedb/src/devicedb/cluster/state.go:202-219 | ignored for id 0 and for a member, otherwise the given configuration is added |
| `ClusterStates.ClusterState.RelinquishReplicas` | deps/devicedb/src/devicedb/cluster/state.go:227-233 | every replica of the node is left without a holder |
| `ClusterStates.ClusterState.RelinquishTokens` | deps/devicedb/src/devicedb/cluster/state.go:243-247 | every token of the node is left without an owner |
| `ClusterStates.ClusterState.RemoveNode` | deps/devicedb/src/devicedb/cluster/state.go:221-256 | all tokens and replicas are freed and the node is remembered as removed |
| `ClusterStates.ClusterState.AssignToken` | deps/devicedb/src/devicedb/cluster/state.go:259-283 | the error cases in their order; otherwise the old owner loses and the new one gains exactly this token |
| `ClusterStates.ClusterState.AssignPartitionReplica` | deps/devicedb/src/devicedb/cluster/state.go:316-343 | the error cases in their order; otherwise the old holder loses and the new one gains exactly this replica |
| `ClusterStates.ClusterState.Initialize` | deps/devicedb/src/devicedb/cluster/state.go:345-363 | rings of the configured sizes with 0 everywhere |
| `ClusterCommands.NextKeepsInv` | deps/devicedb/src/devicedb/cluster/controller.go:77-128 | every command, failing or not, keeps the forward and reverse maps equal, members and removed nodes disjoint, relays at existing sites |
| `ClusterCommands.NextKeepsBalance` | deps/devicedb/src/devicedb/cluster/controller.go:223-315 | every command keeps: no capacity and no token assigned, or all assigned and within floor and remainder |
| `ClusterCommands.ReplacementKeepsBalance` | deps/devicedb/src/devicedb/cluster/controller.go:286-315 | handing all tokens to a replacement needs no rebalancing |
| `ClusterCommands.LiveHasToken` | deps/devicedb/src/devicedb/cluster/controller.go:286-315 | with at most as many nodes as partitions every live member has a token, so a member with capacity is not taken for an empty replacement |
| `ClusterCommands.RenamedIsSpread` | deps/devicedb/src/devicedb/cluster/controller.go:797-816 | giving all tokens of one owner to an unused one keeps the spread |
| `ClusterEffects.NextHasEffect` | deps/devicedb/src/devicedb/cluster/controller.go:77-128 | every command, field by field: who is a member with which capacity, which tokens moved, who holds what, the settings, sites and relays, and the error; everything not named stays |
| `ClusterEffects.RebalancedIsShared` | deps/devicedb/src/devicedb/cluster/controller.go:818-842 | after a redistribution only tokens have moved; with no more members than partitions every member with capacity has the rounded down share and at most the remainder more, and the others none |
| `ClusterEffects.UpdateHasEffect` | deps/devicedb/src/devicedb/cluster/controller.go:223-247 | the member has the new capacity, members, other capacities and holders stay, and without capacity a member among the first, as many as there are partitions, keeps no token |
| `ClusterEffects.RemoveHasEffect` | deps/devicedb/src/devicedb/cluster/controller.go:286-315 | the member is gone for good, nobody holds its replicas, and a replacement has its tokens and its capacity |
| `LocalViews.TellsMeaning` | deps/devicedb/src/devicedb/cluster/controller.go:364-400 | the deltas of a command about members hold one gain for each token, ownership and replica the node has only afterwards and one loss for each it had only before; joining is told first and leaving last |
| `LocalViews.ReplayDiff` | deps/devicedb/src/devicedb/cluster/delta.go:33-47 | replaying the deltas of a diff on the old items gives the new ones |
| `LocalViews.DiffsTogether` | deps/devicedb/src/devicedb/cluster/controller.go:673-705 | token, ownership and replica diffs can follow each other |
| `LocalViews.OwnersOfRenamed` | deps/devicedb/src/devicedb/cluster/controller.go:797-816 | renaming an owner to an unused id renames it in every owner list |
| `LocalViews.OwnedAfterRemoval` | deps/devicedb/src/devicedb/cluster/controller.go:286-315 | a node owns the same replicas when another node is removed before any rebalancing |
| `LocalViews.ViewAfterRemoval` | deps/devicedb/src/devicedb/cluster/controller.go:286-315 | so the diff taken after the removal misses nothing |
| `LocalViews.OutsiderHasNothing` | deps/devicedb/src/devicedb/cluster/controller.go:249-284 | a node that is not a member has no tokens, ownership or replicas |
| `LocalViews.OwnerIsOnRing` | deps/devicedb/src/devicedb/cluster/controller.go:621-651 | every listed owner holds a token |
| `ClusterControllers.SortNodes` | deps/devicedb/src/devicedb/cluster/controller.go:819-825 | the members by ascending id, each once |
| `ClusterControllers.ClusterController.constructor` | deps/devicedb/src/devicedb/cluster/controller.go:44-55 | a new cluster with empty caches |
| `ClusterControllers.ClusterController.PartitionOwners` | deps/devicedb/src/devicedb/cluster/controller.go:653-667 | what a recomputation gives, cached or not |
| `ClusterControllers.ClusterController.LocalNodeOwnedPartitionReplicas` | deps/devicedb/src/devicedb/cluster/controller.go:621-651 | what a recomputation gives, cached or not |
| `ClusterControllers.ClusterController.ReplicasOf` | deps/devicedb/src/devicedb/cluster/controller.go:635-643 | the replicas of a partition at which the local node stands |
| `ClusterControllers.ClusterController.DiffAndNotify` | deps/devicedb/src/devicedb/cluster/controller.go:364-400 | each lost item and each gained item is reported once, losses first |
| `ClusterControllers.ClusterController.ChangesOf` | deps/devicedb/src/devicedb/cluster/controller.go:364-400 | one delta for each item of one snapshot that the other lacks |
| `ClusterControllers.ClusterController.LocalNodeTokenSnapshot` | deps/devicedb/src/devicedb/cluster/controller.go:844-858 | the tokens of the local node, none for an outsider |
| `ClusterControllers.ClusterController.LocalNodePartitionReplicaSnapshot` | deps/devicedb/src/devicedb/cluster/controller.go:344-362 | the replicas held by the local node |
| `ClusterControllers.ClusterController.LocalDiffTokensAndNotify` | deps/devicedb/src/devicedb/cluster/controller.go:860-882 | tells exactly the tokens lost and gained since the snapshot, and nothing to an outsider |
| `ClusterControllers.ClusterController.LocalDiffPartitionReplicasAndNotify` | deps/devicedb/src/devicedb/cluster/controller.go:364-400 | tells exactly the held replicas lost and gained since the snapshot |
| `ClusterControllers.ClusterController.LocalDiffOwnedPartitionReplicasAndNotify` | deps/devicedb/src/devicedb/cluster/controller.go:673-705 | reports the change of ownership against the snapshot and leaves correct caches |
| `ClusterControllers.ClusterController.ApplyAssignment` | deps/devicedb/src/devicedb/cluster/controller.go:835-837 | the ring is the chosen one on both sides of the maps |
| `ClusterControllers.ClusterController.ChooseTokens` | deps/devicedb/src/devicedb/cluster/controller.go:818-826 | the ring the strategy promises for the members |
| `ClusterControllers.ClusterController.AssignTokens` | deps/devicedb/src/devicedb/cluster/controller.go:818-842 | the cluster is rebalanced, caches agree and the deltas tell exactly what changed locally |
| `ClusterControllers.ClusterController.ReassignTokens` | deps/devicedb/src/devicedb/cluster/controller.go:797-816 | every token goes to the replacement and the deltas tell it |
| `ClusterControllers.ClusterController.MoveTokens` | deps/devicedb/src/devicedb/cluster/controller.go:808-811 | exactly the tokens of the old owner are renamed |
| `ClusterControllers.ClusterController.UpdateNodeConfig` | deps/devicedb/src/devicedb/cluster/controller.go:223-247 | a member has the new capacity afterwards; the tokens are redistributed only when it changed |
| `ClusterControllers.ClusterController.AddNode` | deps/devicedb/src/devicedb/cluster/controller.go:249-284 | a removed node is refused; a new member is added, announced to itself and given tokens when it has capacity |
| `ClusterControllers.ClusterController.RemoveNode` | deps/devicedb/src/devicedb/cluster/controller.go:286-315 | cancelled for an unsuitable replacement; otherwise hands over or redistributes, and announces the removal to the removed node |
| `ClusterControllers.ClusterController.RemoveInFavour` | deps/devicedb/src/devicedb/cluster/controller.go:294-301 | the replacement has what the removed node had |
| `ClusterControllers.ClusterController.RemoveAndRedistribute` | deps/devicedb/src/devicedb/cluster/controller.go:300-306 | the others share what the removed node had |
| `ClusterControllers.ClusterController.TakePartitionReplica` | deps/devicedb/src/devicedb/cluster/controller.go:317-342 | only the current owner may take a replica; the change is told |
| `ClusterControllers.ClusterController.SetReplicationFactor` | deps/devicedb/src/devicedb/cluster/controller.go:410-420 | ignored once set; the cluster starts when both settings are there |
| `ClusterControllers.ClusterController.SetPartitionCount` | deps/devicedb/src/devicedb/cluster/controller.go:422-432 | ignored once set; the cluster starts when both settings are there |
| `ClusterControllers.ClusterController.InitializeClusterIfReady` | deps/devicedb/src/devicedb/cluster/controller.go:787-795 | a fresh ring, distributed at once, with caches and deltas in step |
| `ClusterControllers.ClusterController.AddSite` | deps/devicedb/src/devicedb/cluster/controller.go:434-443 | a new site is added and announced, a known one changes nothing |
| `ClusterControllers.ClusterController.RemoveSite` | deps/devicedb/src/devicedb/cluster/controller.go:445-454 | a known site is removed and announced |
| `ClusterControllers.ClusterController.AddRelay` | deps/devicedb/src/devicedb/cluster/controller.go:456-465 | a new relay is added and announced, a known one keeps its site |
| `ClusterControllers.ClusterController.RemoveRelay` | deps/devicedb/src/devicedb/cluster/controller.go:467-476 | a known relay is removed and announced |
| `ClusterControllers.ClusterController.MoveRelay` | deps/devicedb/src/devicedb/cluster/controller.go:478-495 | the two errors in their order, otherwise the move is made and announced |
| `ClusterControllers.ClusterController.Step` | deps/devicedb/src/devicedb/cluster/controller.go:77-128 | one command: it has the effect on every field that NextHasEffect describes, the caches agree, the deltas tell exactly what the node lost and gained or which site or relay changed, and replaying them on the old local view gives the new one |
| `ClusterRuns.RunStaysConsistent` | deps/devicedb/src/devicedb/cluster/controller.go:77-128 | for any log of commands the maps agree after every command |
| `ClusterRuns.RunStaysBalanced` | deps/devicedb/src/devicedb/cluster/controller.go:787-842 | for any log during which there are never more nodes than partitions the ring is balanced after every command |
| `ClusterRuns.ReplayGivesCurrentView` | deps/devicedb/src/devicedb/cluster/controller.go:364-400 | when every command tells its change, replaying all of them gives exactly the node's current tokens, owned replicas and held replicas |
| `ClusterRuns.ApplyLog` | deps/devicedb/src/devicedb/cluster/controller.go:77-128 | a node that applies a whole log with Step goes through a run of it, ends with correct caches, and the deltas it was returned replay to exactly its current tokens, owned replicas and held replicas |
| `ClusterRuns.RemovedStaysOut` | deps/devicedb/src/devicedb/cluster/state.go:202-256 | a removed node is never a member again |
| `ClusterRuns.CapacityIsLastGiven` | deps/devicedb/src/devicedb/cluster/controller.go:223-315 | in every run a member has the capacity of the last command that added or updated it, or what it took over from a node it replaced since |
| `ClusterRuns.NoCapacityNoTokens` | deps/devicedb/src/devicedb/cluster/controller.go:235-243 | while there are never more members than partitions, a member without capacity has no token |
| `ClusterRuns.FreedExactly` | deps/devicedb/src/devicedb/cluster/partitioner.go:180-220 | a member without capacity is certain to lose its tokens if and only if it is among the first members, as many as there are partitions, or none of those has capacity |
| `ClusterRuns.UnseatedKeepsToken` | deps/devicedb/src/devicedb/cluster/partitioner.go:185-220 | a log after which a member without capacity still owns the only partition |
| `ClusterRuns.SitesAreAdded` | deps/devicedb/src/devicedb/cluster/controller.go:434-454 | in every run the sites are those that were added and not removed since |
| `ClusterRuns.SettingsStay` | deps/devicedb/src/devicedb/cluster/controller.go:410-432 | partition count and replication factor never change once set |
| `ClusterRuns.HolderWasOwner` | deps/devicedb/src/devicedb/cluster/controller.go:317-342 | whoever holds a replica took it by a command at a time when it was the owner |
| `LinkStates.DiffIsEnough` | src/core/router.js:63-82 | merging the diff of a digest gives the same table as merging the whole table |
| `LinkStates.MergedIsNewest` | src/core/router.js:47-61 | for each node the entry with the larger sequence number |
| `LinkStates.MergingCommutes` | src/core/router.js:47-61 | commutes if and only if equal sequence numbers carry equal neighbours |
| `LinkStates.MergingIsAssociative` | src/core/router.js:47-61 | announcements can be batched and passed on |
| `LinkStates.MergingAgainChangesNothing` | src/core/router.js:47-61 | a repeated announcement is not passed on |
| `LinkStates.TwoWayExchange` | src/core/router.js:47-92 | digest, diff and merge in both directions leave both sides newest; equal if and only if equal sequence numbers carry equal neighbours |
| `LinkStates.LinkStateTable.constructor` | src/core/router.js:27-35 | the node itself, without neighbours, at sequence number 0 |
| `LinkStates.LinkStateTable.LinkUp` | src/core/router.js:37-40 | one neighbour more under the next sequence number |
| `LinkStates.LinkStateTable.LinkDown` | src/core/router.js:42-45 | one neighbour less under the next sequence number |
| `LinkStates.LinkStateTable.Merge` | src/core/router.js:47-61 | takes over exactly what is newer and returns exactly that |
| `LinkStates.LinkStateTable.Diff` | src/core/router.js:63-82 | the entries the digest has not seen |
| `LinkStates.LinkStateTable.GetDigest` | src/core/router.js:84-92 | the sequence number of every node |
| `LinkStates.OwnEntryIsCurrent` | src/core/router.js:37-45 | in every run the own entry of a node lists exactly the neighbours whose last link change was up, and its sequence number counts the changes |
| `LinkStates.EntriesAreLinks` | src/core/router.js:37-92 | every entry of a node in any table or message lists exactly the links that were up after as many changes as its sequence number says |
| `LinkStates.RunKeepsInv` | src/core/router.js:37-92 | in every run of link changes and messages each entry anywhere is the announcement its sequence number names |
| `LinkStates.EntriesAgree` | src/core/router.js:37-92 | so tables and messages agree on equal sequence numbers, nobody is ahead of a node about itself, and a two-way exchange makes two tables equal |
| `Routes.PathIsWalk` | src/core/router.js:104-133 | a path of k links is a walk through k + 1 nodes of the table, each a neighbour of the one before |
| `Routes.RelaxedIsShortest` | src/core/router.js:104-148 | when no link can shorten anything, distances are at most the length of any path |
| `Routes.Nearest` | src/core/router.js:122-123 | a node of the heap with the smallest distance |
| `Routes.RelaxNeighbors` | src/core/router.js:125-132 | all links of the node just taken are relaxed and the distances stay lengths of paths |
| `Routes.FindDistances` | src/core/router.js:104-133 | the distances are those of shortest paths, none exactly for unreachable nodes |
| `Routes.GetShortestPathTree` | src/core/router.js:104-148 | a tree of predecessors along shortest paths, listed from the root down |
| `Routes.TreeMeaning` | src/core/router.js:104-148 | in the returned tree exactly the other reachable nodes are listed, each under a single node that links to it and is one step nearer to the root |
| `Routes.ServeChildren` | src/core/router.js:162-171 | children inherit the first hop of their parent, children of the root are their own |
| `Routes.UpdateRoutingTable` | src/core/router.js:150-174 | exactly the other reachable nodes have an entry, and it is a direct neighbour that starts a shortest path |
| `Routes.AllServed` | src/core/router.js:150-174 | when the queue is empty every reachable node has been served |
| `TopicMaps.ParseTopicString` | src/core/topicMap.js:94-104 | the levels, and an error exactly when a # stands before the last level |
| `TopicMaps.SplitMeaning` | src/core/topicMap.js:94-95 | the levels of a topic string hold no slash, and joined by slashes they give it back |
| `TopicMaps.SplitUndoesJoin` | src/core/topicMap.js:94-95 | levels without slashes are what their joined text splits into |
| `TopicMaps.Search` | src/core/topicMap.js:25-62 | the queue search ends and returns exactly the clients the trie finds |
| `TopicMaps.VisitIsLighter` | src/core/topicMap.js:30-60 | a visited node weighs more than the nodes it leads to, so the queue drains |
| `TopicMaps.SearchIsMatching` | src/core/topicMap.js:25-62 | what the trie finds from its root is what matching every subscription by itself gives |
| `TopicMaps.MatchesMeaning` | src/core/topicMap.js:25-62 | level by level, + for any level and a final # for any rest, even none |
| `TopicMaps.LiveMeaning` | src/core/topicMap.js:106-139 | a subscription is live exactly when it was added and not removed since |
| `TopicMaps.PublishedExactly` | src/core/topicMap.js:25-139 | after any sequence of operations a client is in the publish set if and only if one of its kept patterns matches |
| `TopicMaps.RemovingAClient` | src/core/topicMap.js:131-139 | the client leaves every publish set and nobody else does |
| `TopicMaps.TopicMap.constructor` | src/core/topicMap.js:20-23 | no subscriptions |
| `TopicMaps.TopicMap.GetPublishSet` | src/core/topicMap.js:25-62 | an error for an invalid topic, otherwise the clients with a live matching subscription |
| `TopicMaps.TopicMap.AddSubscription` | src/core/topicMap.js:106-118 | an error and no change for an invalid pattern, otherwise exactly one live subscription more |
| `TopicMaps.TopicMap.RemoveSubscription` | src/core/topicMap.js:120-129 | an error and no change for an invalid pattern, otherwise exactly this subscription ends |
| `TopicMaps.TopicMap.RemoveClient` | src/core/topicMap.js:131-139 | exactly the subscriptions of the client end |
| `SelectionParsing.ParseUndoesToString` | src/core/selection.js:377-386 | parsing a printed tree gives it back with its operands nested in printed order |
| `SelectionParsing.ParsedIsBinary` | src/core/selection.js:125-260 | a parsed tree has two operands under every and and or |
| `SelectionParsing.TrailingOperatorIsIgnored` | src/core/selection.js:140-208 | a printed selection followed by and or or parses like the selection alone |
| `SelectionParsing.DecodedLength` | src/core/selection.js:114-118 | a literal is longer than its value unless it has no escapes, and is its value then |
| `SelectionGrammar.ParsesExactly` | src/core/selection.js:22-28 | the parser returns a tree for a text if and only if no literal holds a raw control character and the grammar derives the tokens with this tree, or derives them with one more operand at the end and the tree is the one without it |
| `SelectionGrammar.ParserKeepsToGrammarExactly` | src/core/selection.js:22-37 | a text that parses is derivable, with the tree returned, if and only if its last token is none of and, or and not |
| `SelectionGrammar.GrammarIsParsed` | src/core/selection.js:22-118 | a text the grammar derives parses, to the derived tree, if and only if none of its literals holds a raw character below U+0020 |
| `SelectionGrammar.GrammarIsUnambiguous` | src/core/selection.js:22-28 | the grammar derives no list of tokens with two trees |
| `SelectionGrammar.LiteralIsDecoded` | src/core/selection.js:55-118 | a literal that the pattern matches is decoded if and only if it holds no raw control character |
| `SelectionGrammar.RawTabIsRejected` | src/core/selection.js:22-118 | a check against a literal that holds a tab as it stands is derivable and is rejected |
| `SelectionGrammar.DanglingNot` | src/core/selection.js:182-208 | a lone not is accepted although the grammar does not derive it, and not and is rejected |
| `SelectionReading.ReadsBackExactly` | src/core/selection.js:282-395 | a printed tree, of any shape the parser returns without a missing operand, parses to itself with its operands nested in printed order if and only if none of its values needs an escape in a JSON string (section 7 of RFC 8259) |
| `SelectionReading.CheckReadsBackExactly` | src/core/selection.js:304-307 | the same for a single check |
| `SelectionReading.ParsedHasValues` | src/core/selection.js:125-260 | the values in a parsed tree are those of the literals of the text, in order |
| `SelectionReading.NodeIsQuoted` | src/core/selection.js:304-386 | in a printed tree exactly the values stand between quotes, in the order of the tree read back |
| `SelectionForms.NormalizedIsCanon` | src/core/selection.js:276-280 | the normal form is the sorted text of the operands collected through nested equal operators |
| `SelectionForms.SortForgetsOrder` | src/core/selection.js:377-386 | sorting operand texts gives the same list for every arrangement of them |
| `SelectionForms.NormalFormIsIdempotent` | src/core/selection.js:276-280 | parsing a normal form and normalising gives it again |
| `SelectionForms.EquivalentHaveEqualNormalForms` | src/core/selection.js:352-386 | trees that differ by any number of uses of associativity and commutativity of and and or, anywhere, have equal normal forms |
| `SelectionForms.EvaluationIsSatisfaction` | src/core/registry.js:448-511 | the evaluated set is the set of resources that satisfy the selection one by one |
| `SelectionForms.NormalFormKeepsMeaning` | src/core/registry.js:448-511 | the parsed normal form evaluates to the same set, for every index |
| `SelectionForms.EqualNormalFormsMeanTheSame` | src/core/selection.js:276-280 | equal normal forms evaluate to equal sets |
| `SelectionForms.NormalFormsOfSelections` | src/core/selection.js:276-280 | for every parsed selection with plain values: its normal form parses, is stable and keeps the meaning |
| `SelectionTexts.OperatorTexts` | src/core/selection.js:125-180 | two selections with the codes of and or of or between them parse to that operator over both |
| `SelectionTexts.NotText` | src/core/selection.js:182-208 | a selection behind the codes of not parses to its negation |
| `SelectionTexts.BracketText` | src/core/selection.js:182-208 | a selection in brackets parses like the selection |
| `SelectionTexts.CheckTexts` | src/core/selection.js:210-244 | the codes of each of the four names, an equals sign and a plain value in quotes or a star parse to the check |
| `SelectionTexts.ChecksStandFor` | src/core/registry.js:505-510 | a check stands for what the index lists under its name and value, or under its name |
| `SelectionTexts.OperatorsStandFor` | src/core/registry.js:448-511 | the text with and stands for the common resources, that with or for those of either, that with not for the others |
| `SelectionTexts.BlanksAreSkipped` | src/core/selection.js:68-72 | exactly the white space units before a token are skipped |
| `SelectionTexts.EscapesAreRead` | src/core/selection.js:55 | each escape of section 7 of RFC 8259 denotes its code unit, and four hexadecimal digits of one case denote any |
| `SelectionTexts.AtMostMeaning` | src/core/selection.js:377-386 | operands are sorted by their code units, the first difference deciding and a proper prefix coming first |
| `SelectionTexts.PrintedPairs` | src/core/selection.js:373-386 | two operands are printed in order, in brackets, with spaces and the operator between them |
| `SelectionEquivalence.NormalTreeIsEquivalent` | src/core/selection.js:276-280 | a selection and what its normal form parses to differ only by associativity and commutativity |
| `SelectionEquivalence.NormalFormDecidesEquivalence` | src/core/selection.js:276-280 | two parsed selections have the same normal form if and only if they differ only by associativity and commutativity of and and or, anywhere |
| `SelectionParsers.SelectionTokenizer.Next` | src/core/selection.js:68-98 | advances exactly to the next token of the remaining text, or fails where there is none to read |
| `SelectionParsers.SelectionParser.ParsePredicate` | src/core/selection.js:128-138 | the recursive descent over the advancing tokenizer returns the node and the position of the specification, and fails when it fails |
| `SelectionParsers.SelectionParser.ParsePredicateTail` | src/core/selection.js:140-153 | likewise after an or |
| `SelectionParsers.SelectionParser.ParseTerm` | src/core/selection.js:155-165 | likewise |
| `SelectionParsers.SelectionParser.ParseTermTail` | src/core/selection.js:167-180 | likewise after an and |
| `SelectionParsers.SelectionParser.ParseFactor` | src/core/selection.js:182-208 | likewise, with not and brackets |
| `SelectionParsers.SelectionParser.ParseProperty` | src/core/selection.js:210-244 | likewise, a check against a literal or any value |
| `SelectionParsers.SelectionParser.Parse` | src/core/selection.js:125-260 | the whole text is one selection, otherwise an error |
| `SelectionParsers.ParseSelection` | src/core/selection.js:409-413 | the tree of the text or an error |

## Left out

- Ceilings.CeilingExactly: exact for the numbers of tokens and live nodes; for one particular ring that starts above the rounded up share, which node is drained first depends on where its tokens lie, and only the single-owner case with a share of one is decided exactly (`SingleOwnerKeepsRemainder`).
- Partitioners.AssignTokens: assumes that the nodes' token lists agree with the ring, as the cluster state keeps them; with more nodes than partitions it is stated who takes part, not that the tokens are shared evenly; that taken tokens lie apart from each other is not stated.
- Partitioners.TakeSpaced: states shares and counters, not the distance between the tokens it takes.
- Repairs.ReadRepairConverges: is about a node that still holds the version it answered with; a node that moved on is covered by `Replication.PatchIsEnough`, in histories without lost events.
- Stores.Store.Merge: siblings are values, not pointers, so a repeated merge that the source would write again as unchanged siblings under new pointers writes nothing here.
- Stores.Store.Batch: locks, the write try-lock, missing batches and the Merkle tree are not modelled; the answer is the same map that is stored, as with the multi-value resolver.
- Stores.Store.constructor: metadata, the Merkle tree and errors while opening a store are not modelled.
- Monitors.InsertKeepsOrder: the heap is the sequence in which rows would be popped; the heap library's order among equal versions is not modelled.
- Monitors.Monitor.SendUpdate: channels never block and are not closed; removal through a context is the method `RemoveListener`.
- Replication.RunKeepsInv: runs have no garbage collection and no `Forget`, which drop causal history, and no replica has the empty name; one key at a time.
- QuorumRuns.ReadYourQuorum: the replica set of the key is fixed during the run and buckets use the multi-value resolver.
- Agents.Get: the answers are taken in order of arrival; deadlines, cancellation, metrics and channels are not modelled, and node ids are names. `GetMatches` and `RelayStatus` are not modelled.
- Repairs.BeginRepair: operation ids, cancellation and a stopped repairer are not modelled.
- ClusterStates.ClusterState.RemoveNode: the ownership fields of partitions and nodes, and `AssignPartitionReplicaOwnership`, are left out because no command writes them.
- ClusterControllers.ClusterController.Step: command decoding, peer addresses, the notification channel and `ApplySnapshot` are left out; a snapshot command does nothing, and an AddNode command carries one id.
- ClusterRuns.ApplyLog: the replayed view has tokens, owned and held replicas; site and relay deltas are stated for each command but not replayed.
- LinkStates.EntriesAgree: a node never starts again from sequence number 0, and timestamps and serialisation of entries are left out; entries are values, so aliasing of neighbour sets between tables is not modelled.
- Routes.Nearest: stands for the heap library's extract-min.
- TopicMaps.TopicMap.AddSubscription: trie nodes are kept in a map from paths, so nodes have no identity; property names that JavaScript objects inherit are not special, and `getTopics` is left out.
- SelectionForms.NormalizedIsCanon: `flatten` replaces the children of a node in the source and is a function on trees here, as are printing and evaluation.
- SelectionForms.NormalFormsOfSelections: for values that need no escape in a JSON string, exactly the ones whose printed text reads back (`SelectionReading.ReadsBackExactly`), and for trees without a missing operand, on which the source throws.
- SelectionForms.EvaluationIsSatisfaction: the resource index is a parameter and its lookups succeed.
- Counters are unbounded: wrap-around of 64-bit dots, versions and sequence numbers is not modelled.
- The lww bucket and its resolver, storage drivers, encodings, hashes and `Partition` are left out; the resolver is the identity and storage a map.
- `AssignPartitions` is never called by the controller and is left out.
- Raft and `cluster/config_controller.go` are not part of this model; the command log is given.
- `FlatSelection`, subscriber matching, `AsyncRWLock`, `AsyncLockMap` and `NodeRouter` are left out.
- HTTP, socket.io, the command line, configuration, logging and metrics are plumbing.
