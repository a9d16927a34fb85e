# Artifact system: a verified model

A Dafny model of the artifact system's storage layer and of its id allocator, with proofs. Artifacts are
versioned like source code: every write happens on a branch, commits form a history, and branches are
merged path by path. Secondary indexes are stored as objects in the same tree, transactions are branches,
and ids come from a separate allocation service.

## Modules

- **Versioned store.** `CommitNames`, `CommitGraph`, `ThreeWayMerge`, `Storage` (the state machine and its
  laws) and `MemoryStorage` (the class that implements it).
- **Indexes and artifacts.** `IndexAgreement` (what a consistent tree is, and what each write and merge does
  to it), `ArtifactRuns` (whole runs) and `ArtifactStore` (the staging operations).
- **Derivation.** `FieldPaths`, `RepeatedChains`, `Expansion` (which rows a definition should derive),
  `IndexDerivation` (the nested expansion that derives them) and `LookupKeys` (the same keys for lookups).
- **Index objects.** `IndexCells`, `IndexRows`, `IndexObjects` (stored form) and `IndexMerge`.
- **Referential integrity.** `DeleteIntegrity` (planning a delete), `ReferenceRuns` (validation, applying a
  plan, whole runs) and `CoveringIndexes` (why the referencers that planning reads are exact).
- **Transactions.** `RetryPolicy`, `TransactionRuns` (what an undisturbed transaction amounts to),
  `WriteExecutor` and `TransactionManager` (retry loops with other threads in between), `TwoCommitters`.
- **Ids.** `IdFormat`, `SuperBlocks`, `IdSystem` (all servers and clients as one state machine) and
  `IdAllocator` (the classes).
- **Codecs.** `Varint`, `KeyEncoding`, `Base64Url`, `ObjectPaths`.
- **Shared.** `Results`, `Lexicographic`, `Sorting`, `Arithmetic`.

`dafny verify dfyconfig.toml` checks everything.

## How the program is represented

- Commits are numbered and rendered as `commit-N`; names are compared as strings, so `commit-10` precedes
  `commit-9`. Object contents are typed values instead of bytes; `ObjectPaths` and `KeyEncoding` justify
  treating object paths as structured names.
- Floating-point cells are IEEE 754 bit patterns and are compared by the numbers they stand for, so NaNs and
  signed zeros behave as in the program.
- Bit operations in the codecs are written as division and remainder.
- Messages are maps from field names to lists of values, read at their declared types. A dotted path is the
  sequence of its segments.
- Random branch names, bucket choices, jitter, clocks, failed calls and replies are parameters. A lock that
  is released, or a sleep, is an arbitrary step of other threads that keeps commits and the manager's
  invariant; the state they leave is kept in a ghost field, so that "nothing else changed" can be stated
  against it.
- SHA-256 is a function parameter that is assumed not to collide on the keys compared.

## Where the program does not do what one might expect

- Clearing a SET_NULL reference can leave an empty payload, and an empty payload is how a deleted artifact
  looks. References to such an artifact then dangle (`ReferenceRuns.SetNullCanEmpty`), and its index rows
  outlive it. `ReferenceRuns.DeleteKeepsReferences` says exactly when, in terms of the store and the plan
  before the delete is applied; `IndexAgreement.UpdateKeepsAgreement` does so for the index rows.
- RESTRICT refuses a delete even when the referencing artifact would be deleted by the same cascade
  (`DeleteIntegrity.RefusedThoughCovered`). If no artifact to be deleted forbids deleting another one, refusal
  is exact (`DeleteIntegrity.PlanDelete`); otherwise it depends on the order of definitions and index rows.
- A transaction's own record can reach its target when another thread that commits the same transaction gives
  up and restores it (`TwoCommitters.RecordReachesTarget`).
  `TransactionManager.TransactionManager.CommitTransaction` says exactly when.
- The index merge is not commutative when both sides set a float to zeros of different sign
  (`IndexMerge.SignedZerosTie`); derivation never stores a negative zero.
- Base64url decoding ignores the unused bits of the last character, so every artifact has paths that yield
  its id and are never written (`ObjectPaths.EveryArtifactHasAnAlias`, `ObjectPaths.ArtifactPathAliases`).
- The merge base is the common ancestor nearest to both heads, which need not be the most recent one
  (`CommitGraph.NearestIsNotLatest`). It is where every walk to an older common ancestor passes it
  (`CommitGraph.DominatorIsMergeBase`), in particular at the fork point of an isolated transaction
  (`CommitGraph.ForkPointIsMergeBase`).

## Model

| member | source | states |
|---|---|---|
| `CommitNames.NameInjective` | artifact-layer/src/storage/memory_storage.cpp:60-62 | different commits have different rendered names |
| `CommitNames.NameIsReserved` | artifact-layer/src/storage/memory_storage.cpp:19-33 | every commit name is refused as a branch name |
| `CommitNames.NameLessTotal` | artifact-layer/src/storage/memory_storage.cpp:157-173 | the string order of commit names, by which ties between merge bases are broken, is total |
| `CommitNames.DecimalAt` | artifact-layer/src/storage/memory_storage.cpp:60-62 | the digits of a rendered number are its decimal digits, most significant first |
| `CommitNames.NoLeadingZero` | artifact-layer/src/storage/memory_storage.cpp:60-62 | without leading zeros |
| `Lexicographic.LessIs` | artifact-layer/src/storage/memory_storage.cpp:157-173 | string order: at the first difference the smaller character, or a proper prefix, comes first |
| `CommitGraph.AncestorDepths` | artifact-layer/src/storage/memory_storage.cpp:113-140 | the breadth-first search returns exactly the ancestors, each with its shortest distance; it fails exactly when an ancestor is not a commit |
| `CommitGraph.FindMergeBase` | artifact-layer/src/storage/memory_storage.cpp:102-180 | the result is a common ancestor with the smallest larger distance, among those the smallest sum of distances, and among those the name that comes first as a string; in a well-formed history neither error exit is reachable |
| `CommitGraph.MergeBaseIsNearest` | artifact-layer/src/storage/memory_storage.cpp:157-173 | the same of every merge base, in terms of distances and the string order of names alone |
| `CommitGraph.MergeBaseExists` | artifact-layer/src/storage/memory_storage.cpp:102-180 | any two commits of a well-formed history have a merge base |
| `CommitGraph.MergeBaseUnique` | artifact-layer/src/storage/memory_storage.cpp:157-173 | and only one |
| `CommitGraph.MergeBaseSymmetric` | artifact-layer/src/storage/memory_storage.cpp:102-180 | the merge base does not depend on the order of its arguments |
| `CommitGraph.RootIsAncestor` | artifact-layer/src/storage/memory_storage.cpp:41-54 | the initial commit is an ancestor of every commit |
| `CommitGraph.ForkPointIsMergeBase` | artifact-layer/src/storage/memory_storage.cpp:102-180 | if every way out of a region of commits passes its fork point, the fork point is the merge base of the region with it |
| `CommitGraph.DominatorIsMergeBase` | artifact-layer/src/storage/memory_storage.cpp:157-173 | a common ancestor that every walk to another one passes is the merge base, and then the most recent one |
| `CommitGraph.NearestIsNotLatest` | artifact-layer/src/storage/memory_storage.cpp:157-173 | in general it is not: a history in which the merge base is an ancestor of another common ancestor |
| `ThreeWayMerge.MergeSymmetric` | artifact-layer/src/storage/memory_storage.cpp:395-449 | conflicts and merged contents do not depend on which side is the source |
| `ThreeWayMerge.FastForward` | artifact-layer/src/storage/memory_storage.cpp:395-449 | merging into an unchanged target installs the source |
| `ThreeWayMerge.NothingToMerge` | artifact-layer/src/storage/memory_storage.cpp:395-449 | merging an unchanged source leaves the target |
| `ThreeWayMerge.ConflictsAre` | artifact-layer/src/storage/memory_storage.cpp:395-445 | a path conflicts iff both sides changed it and not to the same value |
| `ThreeWayMerge.MergedIs` | artifact-layer/src/storage/memory_storage.cpp:395-445 | otherwise the merged value is the one of the side that changed it |
| `ThreeWayMerge.OverlayAt` | artifact-layer/src/storage/memory_storage.cpp:64-82 | a staged write or deletion hides the committed object, and nothing else |
| `Storage.ApplyKeepsValid` | artifact-layer/src/storage/memory_storage.cpp:186-476 | every operation keeps the history acyclic and rooted, commit numbers gapless, heads known, and branch names unlike commit names |
| `Storage.ApplyExtends` | artifact-layer/src/storage/memory_storage.cpp:186-476 | no operation changes or drops a commit |
| `Storage.SnapshotsAreFrozen` | artifact-layer/src/storage/memory_storage.cpp:84-100 | over every sequence of operations a commit name keeps resolving to the contents it had |
| `Storage.NameResolves` | artifact-layer/src/storage/memory_storage.cpp:84-100 | a commit name is never shadowed by a branch |
| `Storage.RefsAre` | artifact-layer/src/storage/memory_storage.cpp:84-100 | a branch name shows the branch with its staged changes; a name that is neither branch nor commit is not found |
| `Storage.CreateFromCanonical` | artifact-layer/src/storage/memory_storage.cpp:186-212 | a branch created without a base shows the commit at the head of the canonical branch |
| `Storage.Refusals` | artifact-layer/src/storage/memory_storage.cpp:186-360 | which calls are refused, and with which status |
| `Storage.MergeIs` | artifact-layer/src/storage/memory_storage.cpp:334-476 | a merge adds one commit with target and source heads as parents, or changes nothing |
| `Storage.ParentIsMergeBase` | artifact-layer/src/storage/memory_storage.cpp:102-180 | a parent is the merge base of itself and its child |
| `Storage.RemergeChangesNothing` | artifact-layer/src/storage/memory_storage.cpp:334-476 | after a successful merge, merging the same source again succeeds and leaves the contents as they are |
| `MemoryStorage.MemoryStorage.ResolveState` | artifact-layer/src/storage/memory_storage.cpp:64-82 | the visible contents of a branch are its head under its staged changes |
| `MemoryStorage.MemoryStorage.CreateBranch` | artifact-layer/src/storage/memory_storage.cpp:186-212 | the new state and the status of every case: reserved name, existing branch, unknown base |
| `MemoryStorage.MemoryStorage.DeleteBranch` | artifact-layer/src/storage/memory_storage.cpp:214-224 | the new state and the status of every case |
| `MemoryStorage.MemoryStorage.StageChange` | artifact-layer/src/storage/memory_storage.cpp:242-273 | a put or a delete goes to the staging area of its branch |
| `MemoryStorage.MemoryStorage.GetObject` | artifact-layer/src/storage/memory_storage.cpp:251-263 | reads resolve commit names and branches, and report missing objects |
| `MemoryStorage.MemoryStorage.Commit` | artifact-layer/src/storage/memory_storage.cpp:303-328 | the staged contents become a new commit with the next number |
| `MemoryStorage.MemoryStorage.Merge` | artifact-layer/src/storage/memory_storage.cpp:334-476 | succeeds iff no path was changed differently on both sides; otherwise reports exactly those paths, sorted, with base and heads, and changes nothing |
| `MemoryStorage.MemoryStorage.MergeObjects` | artifact-layer/src/storage/memory_storage.cpp:386-445 | the loop over paths finds exactly the conflicting paths and otherwise the merged contents |
| `MemoryStorage.MemoryStorage.SortPaths` | artifact-layer/src/storage/memory_storage.cpp:447-448 | the reported paths are the conflicting ones in increasing order |
| `MemoryStorage.MemoryStorage.MergeValue` | artifact-layer/src/storage/memory_storage.cpp:414-443 | one path: a conflict iff both sides changed it differently, and otherwise the changed side |
| `MemoryStorage.StringPathsAreOrdered` | artifact-layer/src/storage/memory_storage.cpp:447-448 | string paths are strictly and totally ordered, so conflicts over them are reported sorted |
| `IndexAgreement.UniqueKeysIdentify` | artifact-layer/src/index/index_utils.cpp:146-158 | where indexes agree with the artifacts, a unique key belongs to one live artifact |
| `IndexAgreement.AddRowsSucceeds` | artifact-layer/src/index/index_utils.cpp:123-159 | rows can be added iff no two share an index object and each has room, where a unique index has room only when empty |
| `IndexAgreement.CreateStores` | artifact-layer/src/artifact/artifact_store.cpp:251-286 | whatever the contents were, a successful create stores the given version and payload under its id and changes no other artifact and no object that is not an index |
| `IndexAgreement.UpdateStores` | artifact-layer/src/artifact/artifact_store.cpp:288-370 | the same for updates |
| `IndexAgreement.DeleteStores` | artifact-layer/src/artifact/artifact_store.cpp:372-423 | a delete stores an empty payload with the old version, and changes nothing else of that kind |
| `IndexAgreement.CreateKeepsAgreement` | artifact-layer/src/artifact/artifact_store.cpp:251-286 | a create succeeds iff derivation does, its keys differ and its unique keys are free; it stores the artifact and touches no other; the result agrees again iff the payload is not empty or derives nothing |
| `IndexAgreement.UpdateKeepsAgreement` | artifact-layer/src/artifact/artifact_store.cpp:288-370 | the same for updates; the artifact's own rows never stand in its way |
| `IndexAgreement.DeleteKeepsAgreement` | artifact-layer/src/artifact/artifact_store.cpp:372-423 | a delete leaves a tombstone of the old version, removes exactly the artifact's rows and touches no other artifact; agreement holds and the artifact is dead |
| `IndexAgreement.MergeKeepsAgreement` | artifact-layer/src/storage/memory_storage.cpp:395-476 | a conflict-free merge of agreeing contents agrees, whatever agreeing contents served as base |
| `ArtifactRuns.EmptyRepoIsConsistent` | artifact-layer/src/storage/memory_storage.cpp:41-54 | a new repository agrees |
| `ArtifactRuns.StepKeepsConsistent` | artifact-layer/src/artifact/artifact_store.cpp:251-423 | every branch operation, staged write, abandoned write, commit and merge keeps all commits in agreement |
| `ArtifactRuns.IndexesAgreeOverRuns` | artifact-layer/src/artifact/artifact_store.cpp:251-423 | hence over every run all commits agree and no unique key is shared, also across concurrently written and merged branches |
| `ArtifactStore.ArtifactStore.AddIndexRow` | artifact-layer/src/index/index_utils.cpp:123-159 | the index object with the new row, or the exact error with nothing written |
| `ArtifactStore.ArtifactStore.RemoveIndexRow` | artifact-layer/src/index/index_utils.cpp:161-185 | the index object without the artifact's row; it stays even if empty |
| `ArtifactStore.ArtifactStore.StageCreate` | artifact-layer/src/artifact/artifact_store.cpp:251-286 | on success the envelope is staged with its index rows and no other artifact is touched; otherwise the first error |
| `ArtifactStore.ArtifactStore.StageUpdate` | artifact-layer/src/artifact/artifact_store.cpp:288-370 | the same, after the old rows are removed |
| `ArtifactStore.ArtifactStore.StageDelete` | artifact-layer/src/artifact/artifact_store.cpp:372-423 | the tombstone is staged, the rows are removed and no other artifact is touched |
| `DeleteIntegrity.EnforceDeleteIntegrity` | artifact-layer/src/artifact/referential_integrity.cpp:333-442 | terminates on cyclic references; without violations every referencer of a deleted artifact is deleted too or nulled, and every cascade and every refusal is forced |
| `DeleteIntegrity.EnforceDef` | artifact-layer/src/artifact/referential_integrity.cpp:385-438 | the same for one reference definition; RESTRICT and unspecified always refuse |
| `DeleteIntegrity.EnforceCascade` | artifact-layer/src/artifact/referential_integrity.cpp:392-425 | all active referencers are scheduled, with everything they drag along and nothing that CASCADE references do not force |
| `DeleteIntegrity.PlanDelete` | artifact-layer/src/artifact/artifact_store.cpp:590-651 | an accepted plan deletes exactly the least set closed under cascades, with exactly the SET_NULL updates needed; whatever stays and forbids the delete refuses it; and if the artifacts to be deleted do not forbid deleting each other, nothing else does |
| `DeleteIntegrity.CascadeOf` | artifact-layer/src/artifact/referential_integrity.cpp:392-425 | the least set that contains the root and is closed under CASCADE referencers exists, whatever cycles there are |
| `DeleteIntegrity.RefusedThoughCovered` | artifact-layer/src/artifact/referential_integrity.cpp:385-390 | a RESTRICT referencer refuses the delete even if a later definition would have cascaded to it |
| `ReferenceRuns.ValidateSingleReference` | artifact-layer/src/artifact/referential_integrity.cpp:29-59 | no violation iff the target exists, is live and has the declared type; otherwise the kind of the violation |
| `ReferenceRuns.ValidateField` | artifact-layer/src/artifact/referential_integrity.cpp:230-317 | no violation iff all targets are good and none is repeated |
| `ReferenceRuns.ValidateReferencesOnFields` | artifact-layer/src/artifact/referential_integrity.cpp:230-317 | no violation iff every reference field passes, in the message and in all messages nested in it |
| `ReferenceRuns.ValidatedIsOk` | artifact-layer/src/artifact/artifact_store.cpp:491-588 | a payload that passed has good top-level references |
| `ReferenceRuns.EmptiedWhenCleared` | artifact-layer/src/artifact/artifact_store.cpp:435-487 | an artifact outside the plan turns into a tombstone iff its payload is references only and the plan clears every one of them |
| `ReferenceRuns.DeleteKeepsReferences` | artifact-layer/src/artifact/artifact_store.cpp:427-487 | everything planned is dead, every other reference is untouched, and all references stay good iff, in the store and the plan as they were, nothing outside the plan keeps a reference to an artifact whose whole payload the plan clears |
| `ReferenceRuns.SetNullCanEmpty` | artifact-layer/src/artifact/artifact_store.cpp:435-487 | such a case exists: nulling the only field leaves an empty payload, which reads as deleted |
| `ReferenceRuns.ReferencesHoldOverRuns` | artifact-layer/src/artifact/artifact_store.cpp:491-651 | over every sequential run of creates, updates and deletes, no live artifact ever refers to a missing, dead or wrongly typed one iff every delete met that condition when it was made |
| `CoveringIndexes.AgreementGivesExactView` | artifact-layer/src/artifact/referential_integrity.cpp:190-223 | where indexes agree with artifacts, the referencers read through covering indexes are exactly the live artifacts that refer |
| `TransactionRuns.MergeBackInstalls` | artifact-layer/src/storage/memory_storage.cpp:102-180 | merging an isolated branch back into a target that has not moved meets no conflict and installs its contents |
| `TransactionRuns.WriteInstalls` | artifact-layer/src/transaction/write_executor.cpp:48-92 | a write into a branch that has not moved merges at once and installs exactly what it staged |
| `TransactionRuns.UncontendedTransaction` | artifact-layer/src/transaction/transaction_manager.cpp:363-463 | a transaction whose target does not move equals the sequential composition of its writes, without its own record |
| `TransactionRuns.SingleWriteInstalls` | artifact-layer/src/transaction/transaction_manager.cpp:503-548 | a transaction of one write, begun at a target that does not move, merges cleanly and adds exactly its changes |
| `WriteExecutor.WriteExecutor.ExecuteWrite` | artifact-layer/src/transaction/write_executor.cpp:37-133 | at most maxAttempts merges; a conflict is handed back only at the last attempt, or if a conflicting path is not a non-unique index, or if the resolver declined it; every failure has its cause; the child branch is always gone and every other branch is as other threads left it; an uncontended write lands at attempt 1 |
| `WriteExecutor.WriteExecutor.StageChild` | artifact-layer/src/transaction/write_executor.cpp:53-76 | the child branch holds one commit with what the callback staged on top of the transaction's head |
| `WriteExecutor.WriteExecutor.MergeWithRetries` | artifact-layer/src/transaction/write_executor.cpp:78-132 | the retry loop: bounded, all or nothing, and it gives up for the stated reasons only; a conflict handed back is the conflict that the last merge met |
| `WriteExecutor.RewriteSource` | artifact-layer/src/index/index_conflict_resolver.cpp:313-324 | the source branch gets the resolver's objects on top of its contents, in a new commit; no other branch changes |
| `TransactionManager.AddedKeepsForest` | artifact-layer/src/transaction/transaction_manager.cpp:197-285 | a new transaction under a live parent keeps parents live, depths one apart and child sets exact |
| `TransactionManager.AddedIs` | artifact-layer/src/transaction/transaction_manager.cpp:197-285 | and changes nothing else but the child set of its parent |
| `TransactionManager.RemovedKeepsForest` | artifact-layer/src/transaction/transaction_manager.cpp:287-302 | removing a childless transaction keeps them too |
| `TransactionManager.RemovedIs` | artifact-layer/src/transaction/transaction_manager.cpp:287-302 | and changes nothing else but the child set of its parent |
| `TransactionManager.TransactionManager.CreateTransaction` | artifact-layer/src/transaction/transaction_manager.cpp:197-285 | forks from the chosen base, records the transaction on its branch and under its parent; every error has its status and changes nothing |
| `TransactionManager.TransactionManager.RollbackTransaction` | artifact-layer/src/transaction/transaction_manager.cpp:469-501 | succeeds iff the branch exists, is not canonical and has no live child |
| `TransactionManager.TransactionManager.CommitTransaction` | artifact-layer/src/transaction/transaction_manager.cpp:308-467 | commits only without live children, even though the lock is released between attempts; a conflict is handed back only at the last attempt, or if it is not retryable, or if the resolver declined it; then others are untouched and the record is back on the branch; a landed commit leaves no record on the target at the first attempt, and later exactly if someone had restored it |
| `TransactionManager.RecordTravels` | artifact-layer/src/transaction/transaction_manager.cpp:112-120 | if the record is on neither the target nor the merge base, a clean merge carries it over iff it is on the source |
| `TwoCommitters.RecordReachesTarget` | artifact-layer/src/transaction/transaction_manager.cpp:418-463 | a run of two committers in which the record does reach the target |
| `TransactionManager.TransactionManager.MergeBack` | artifact-layer/src/transaction/transaction_manager.cpp:363-463 | the commit's retry loop with arbitrary steps of other threads during each backoff: it gives up for the stated reasons only, and reports the conflict that the last merge met |
| `TransactionManager.TransactionManager.RunImplicitTransaction` | artifact-layer/src/transaction/transaction_manager.cpp:503-548 | commits if its changes merge cleanly, and then they have landed on the canonical branch; otherwise every other branch is as others left it and the transaction is rolled back, unless another thread gave it children; the error of a failed callback is returned |
| `TransactionManager.TransactionManager.WriteTxnMeta` | artifact-layer/src/transaction/transaction_manager.cpp:77-86 | puts the record back on the branch and commits it |
| `RetryPolicy.ResolveConflictType` | artifact-layer/src/transaction/conflict_resolver.cpp:15-47 | the precedence of conflict kinds |
| `RetryPolicy.EvaluateRetryDecision` | artifact-layer/src/transaction/conflict_resolver.cpp:118-145 | retry iff there are conflicts, attempts are left and every path is a non-unique index |
| `RetryPolicy.ComputeBackoffWithJitter` | artifact-layer/src/transaction/conflict_resolver.cpp:147-171 | the loop doubles up to the maximum and takes the jittered share |
| `RetryPolicy.CappedIs` | artifact-layer/src/transaction/conflict_resolver.cpp:147-171 | before jitter the delay is the initial one times a power of two, but at most the maximum |
| `RetryPolicy.BackoffIs` | artifact-layer/src/transaction/conflict_resolver.cpp:147-171 | jitter adds a share of half of it, never beyond the maximum |
| `RetryPolicy.BackoffsGrow` | artifact-layer/src/transaction/conflict_resolver.cpp:147-171 | successive backoffs never decrease and never exceed the maximum, for any jitter |
| `IdFormat.ExtractInvertsCompose` | id-allocator/id-allocator-service/src/id_format.h:21-33 | ids decompose into the bucket and the counter they were made of |
| `IdFormat.IdsFitIn53Bits` | id-allocator/id-allocator-service/src/partition/partition.h:23-63 | every id of an accepted configuration is below 2^53 |
| `SuperBlocks.FetchReserves` | id-allocator/id-allocator-service/src/allocator/super_block_allocator.cpp:85-105 | a fetched super block holds exactly the ids that were reserved by the fetch and were not reserved before; a failed fetch reserves none |
| `SuperBlocks.CarveConserves` | id-allocator/id-allocator-service/src/allocator/super_block.h:18-25 | carving a block moves its ids out of the allocator and loses none |
| `SuperBlocks.WholeServes` | id-allocator/id-allocator-service/src/partition/partition.h:33-41 | a fresh super block always serves a block: the two exits that doubt it are unreachable |
| `SuperBlocks.AllocateConserves` | id-allocator/id-allocator-service/src/allocator/super_block_allocator.cpp:18-73 | reserved ids are conserved: owned before or newly reserved is owned after or handed out, never both; a failure reserves nothing |
| `SuperBlocks.AllocateServes` | id-allocator/id-allocator-service/src/allocator/super_block_allocator.cpp:18-73 | ids at hand are always served without a fetch; otherwise exactly one fetch is made, from the running prefetch's bucket or else the chosen one, and the call fails iff it does, with its status |
| `SuperBlocks.PrefetchStartsAtHalf` | id-allocator/id-allocator-service/src/allocator/super_block_allocator.cpp:107-129 | a prefetch starts exactly when half is used up and nothing is in reserve or under way |
| `SuperBlocks.HarvestConserves` | id-allocator/id-allocator-service/src/allocator/super_block_allocator.cpp:131-150 | completing a prefetch never overwrites unused ids |
| `SuperBlocks.RunFetchConserves` | id-allocator/id-allocator-service/src/allocator/super_block_allocator.cpp:107-129 | the prefetch thread adds exactly what it reserves |
| `IdSystem.NextKeepsOk` | id-allocator/id-allocator-service/src/allocator/super_block_allocator.cpp:18-150 | every step of servers, prefetches, replies, clients, failures and crashes keeps each id in at most one place and reserved |
| `IdSystem.RunsStayOk` | id-allocator/id-allocator-client-cpp/src/id_allocator_client/block_double_buffer.cpp:29-97 | hence in every reachable state |
| `IdSystem.TakeIdConserves` | id-allocator/id-allocator-client-cpp/src/id_allocator_client/block_double_buffer.cpp:29-45 | taking an id leaves every other id in the buffer |
| `IdSystem.IdsAreUnique` | id-allocator/id-allocator-client-cpp/src/id_allocator_client/block_double_buffer.cpp:29-45 | over every interleaving no id is issued twice, and each is below 2^53 and decomposes to a bucket and a counter already reserved |
| `IdAllocator.MemoryStore.Allocate` | id-allocator/id-allocator-service/src/store/memory_store.cpp:7-29 | the bounded counter increment |
| `IdAllocator.SuperBlockAllocator.AllocateBlock` | id-allocator/id-allocator-service/src/allocator/super_block_allocator.cpp:18-73 | the field updates under the mutex keep the invariant and conserve ids; ids at hand are always served, and a failure is that of the one fetch |
| `IdAllocator.SuperBlockAllocator.RunPendingFetch` | id-allocator/id-allocator-service/src/allocator/super_block_allocator.cpp:107-129 | the prefetch thread keeps the invariant and adds exactly what it reserves |
| `IdAllocator.SuperBlockAllocator.TryComplete` | id-allocator/id-allocator-service/src/allocator/super_block_allocator.cpp:131-150 | completing a prefetch keeps the invariant and every id |
| `IdAllocator.BlockDoubleBuffer.AllocateId` | id-allocator/id-allocator-client-cpp/src/id_allocator_client/block_double_buffer.cpp:29-45 | takes one id out of the buffer and leaves all others, and fails only on an empty buffer |
| `IdAllocator.BlockDoubleBuffer.WorkerFinishes` | id-allocator/id-allocator-client-cpp/src/id_allocator_client/block_double_buffer.cpp:82-97 | the worker never overwrites unused ids |
| `IdAllocator.BlockDoubleBuffer.Initialize` | id-allocator/id-allocator-client-cpp/src/id_allocator_client/block.cpp:23-30 | the block offered is taken as a whole or refused |
| `IndexCells.NumberInjective` | artifact-layer/src/index/index_object.cpp:209-224 | different floating-point bit patterns stand for different numbers, except for the two zeros |
| `IndexCells.NumberOrder` | artifact-layer/src/index/index_object.cpp:209-224 | numbers grow with their bit patterns, and negatives mirror positives |
| `IndexCells.NaNBits` | artifact-layer/src/index/index_object.cpp:209-224 | a NaN has all exponent bits and some fraction bit set |
| `IndexCells.CompareFlips` | artifact-layer/src/index/index_object.cpp:179-234 | comparing the other way round flips the sign or gives the same error |
| `IndexCells.TiesAreEqual` | artifact-layer/src/index/index_object.cpp:179-234 | cells that tie are equal, except for the two zeros |
| `IndexRows.FindIdOrder` | artifact-layer/src/index/index_object.cpp:241-255 | finds the artifact_id column iff it occurs exactly once and every direction is explicit |
| `IndexRows.RowOrderIsStrict` | artifact-layer/src/index/index_object.cpp:321-353 | the mixed-direction comparator is a strict total order on checked rows, so the sort meets no error |
| `IndexRows.FirstDifferenceDecides` | artifact-layer/src/index/index_object.cpp:321-336 | the first column that differs decides, upwards or downwards as its direction says |
| `IndexRows.CheckRows` | artifact-layer/src/index/index_object.cpp:300-319 | accepts iff ids are distinct and every row is complete and names its own artifact |
| `IndexObjects.SerializeIndexObject` | artifact-layer/src/index/index_object.cpp:236-371 | succeeds on exactly the storable objects and then gives key, row count and sorted columns |
| `IndexObjects.DeserializeIndexObject` | artifact-layer/src/index/index_object.cpp:373-482 | succeeds on exactly the readable forms and then gives their key and rows |
| `IndexObjects.StoredObjectReadsBack` | artifact-layer/src/index/index_object.cpp:236-482 | reading back gives the same key and the same rows, strictly sorted |
| `IndexObjects.StoredRowsFollowDirections` | artifact-layer/src/index/index_object.cpp:321-368 | stored rows increase in the first column in which they differ if it is ascending, and decrease if it is descending |
| `IndexObjects.StoredRowsAreComplete` | artifact-layer/src/index/index_object.cpp:300-319 | stored rows have a cell for every column |
| `IndexObjects.StoredFormIsCanonical` | artifact-layer/src/index/index_object.cpp:299-370 | two objects are stored alike iff they have the same key and the same rows in any order |
| `IndexObjects.AcceptanceIgnoresOrder` | artifact-layer/src/index/index_object.cpp:299-345 | whether an object can be stored does not depend on the order of its rows |
| `IndexObjects.ReadObjectStoresBack` | artifact-layer/src/index/index_object.cpp:373-482 | what can be read can be stored, and comes out unchanged iff its rows were in order |
| `IndexMerge.ToRowMap` | artifact-layer/src/index/index_merge.cpp:88-97 | rows by artifact, refused iff an artifact occurs twice |
| `IndexMerge.ComputeDelta` | artifact-layer/src/index/index_merge.cpp:64-86 | the removed or rewritten ids, and the added or rewritten rows |
| `IndexMerge.MergeIndexObjects` | artifact-layer/src/index/index_merge.cpp:101-221 | meets the per-artifact rule: unchanged stays, one-sided changes win, a modification beats a removal, two modifications take the canonical minimum; every error case is exact |
| `IndexMerge.ResolveRule` | artifact-layer/src/index/index_merge.cpp:101-171 | what becomes of a row that not both sides rewrote |
| `IndexMerge.ChangedMeans` | artifact-layer/src/index/index_merge.cpp:39-86 | a row is unchanged iff it is absent from both or holds the same numbers and strings |
| `IndexMerge.SmallerModificationWins` | artifact-layer/src/index/index_merge.cpp:151-171 | of two rewritten rows the one that is smaller where they first differ is chosen |
| `IndexMerge.ModificationsClash` | artifact-layer/src/index/index_merge.cpp:151-171 | they cannot be reconciled iff they have different lengths or meet incomparable cells |
| `IndexMerge.MergedRowsFollowDirections` | artifact-layer/src/index/index_merge.cpp:207-213 | merged rows follow the definition's directions |
| `IndexMerge.OutcomeIsUnique` | artifact-layer/src/index/index_merge.cpp:207-213 | the rule determines the result, row order included |
| `IndexMerge.MergeCommutes` | artifact-layer/src/index/index_merge.cpp:151-171 | without hidden ties, exchanging ours and theirs changes neither result nor error |
| `IndexMerge.CommutesOnlyWithoutTies` | artifact-layer/src/index/index_merge.cpp:151-171 | a successful merge commutes only then |
| `IndexMerge.NormalisedHasNoHiddenTies` | artifact-layer/src/index/index_derivation.cpp:102-115 | cells without negative zeros have no hidden ties |
| `IndexMerge.SignedZerosTie` | artifact-layer/src/index/index_merge.cpp:43-57 | negative zeros do tie: the side called ours wins |
| `IndexMerge.MergeAbsorbs` | artifact-layer/src/index/index_merge.cpp:101-221 | merging the result with either source again gives the result |
| `FieldPaths.ResolveIndexFieldPath` | artifact-layer/src/artifact/field_path.h:93-163 | accepts exactly the paths that end in a scalar or in the position of a repeated field, through existing non-map fields |
| `FieldPaths.AcceptedMeans` | artifact-layer/src/artifact/field_path.h:93-163 | what acceptance means, field by field |
| `RepeatedChains.ExtractRepeatedAncestors` | artifact-layer/src/index/repeated_chain_analysis.h:42-60 | the prefixes that end in a repeated field |
| `RepeatedChains.CoveredIsPrefix` | artifact-layer/src/index/repeated_chain_analysis.h:171-186 | a path all of whose repeated fields are in the chain runs along the chain from its start |
| `RepeatedChains.ComputeFieldDepth` | artifact-layer/src/index/repeated_chain_analysis.h:64-101 | the number of repeated fields above the path, negative iff one is outside the chain |
| `RepeatedChains.BuildChain` | artifact-layer/src/index/repeated_chain_analysis.h:117-146 | finds the chain of the key paths iff they do not branch |
| `RepeatedChains.AnalyzeRepeatedChain` | artifact-layer/src/index/repeated_chain_analysis.h:112-198 | succeeds iff the definition has a single chain, and gives that chain and every path's depth |
| `Expansion.VectorsAreExact` | artifact-layer/src/index/index_derivation.cpp:386-417 | the expansion visits exactly the vectors of positions that exist |
| `Expansion.VectorsIncrease` | artifact-layer/src/index/index_derivation.cpp:386-417 | in strict lexicographic order |
| `Expansion.EntryIsRow` | artifact-layer/src/index/index_derivation.cpp:332-381 | a vector yields a row iff every path has a value there, all taken at the same positions |
| `Expansion.RowNamesArtifact` | artifact-layer/src/index/index_derivation.cpp:332-381 | where rows are ordered by artifact id, a row holds the id of its own artifact |
| `Expansion.RowsFollowVectors` | artifact-layer/src/index/index_derivation.cpp:386-417 | the rows come from an increasing selection of the vectors, and the others yield none |
| `Expansion.NoValueMeansAbsent` | artifact-layer/src/index/index_derivation.cpp:237-289 | at valid positions a value is missing only because an optional field on its path is not set |
| `Expansion.VirtualYieldsPosition` | artifact-layer/src/index/index_derivation.cpp:237-289 | an `_index` path yields the position in the repeated field that it follows |
| `Expansion.RepeatedYieldsElement` | artifact-layer/src/index/index_derivation.cpp:237-289 | a path that ends in a repeated scalar yields the element at the chosen position |
| `Expansion.SingleYieldsStored` | artifact-layer/src/index/index_derivation.cpp:237-289 | a single scalar yields what is stored, and zero, false or nothing if it is unset without presence |
| `Expansion.RepeatedStepTakesElement` | artifact-layer/src/index/index_derivation.cpp:41-76 | a step through a repeated message goes to the element at the chosen position |
| `Expansion.SingleStepTakesMessage` | artifact-layer/src/index/index_derivation.cpp:41-76 | a step through a single message goes to what is set there |
| `Expansion.ValueErrors` | artifact-layer/src/index/index_derivation.cpp:78-124 | reading a value fails iff the value at those positions is a NaN |
| `Expansion.RowErrors` | artifact-layer/src/index/index_derivation.cpp:332-417 | derivation fails iff at some vector the first path without a value holds a NaN, and always with an invalid argument |
| `IndexDerivation.Expander.NavigateToLeafParent` | artifact-layer/src/index/index_derivation.cpp:41-76 | follows a path at the current positions; a missing position cannot occur |
| `IndexDerivation.Expander.ExtractFieldValueInContext` | artifact-layer/src/index/index_derivation.cpp:237-289 | the value of a path at the current positions, including virtual positions |
| `IndexDerivation.Expander.GetChainFieldCount` | artifact-layer/src/index/index_derivation.cpp:292-329 | the number of elements of the next repeated field; its internal errors cannot occur |
| `IndexDerivation.Expander.EmitEntry` | artifact-layer/src/index/index_derivation.cpp:332-381 | the row for the current positions, its absence, or the first error |
| `IndexDerivation.Expander.ExpandNestedRepeated` | artifact-layer/src/index/index_derivation.cpp:386-417 | appends the rows of all completions in order, or fails with the first error, and restores the positions |
| `IndexDerivation.DeduplicateEntries` | artifact-layer/src/index/index_derivation.cpp:420-439 | compacts in place to the entries whose fingerprint is new |
| `IndexDerivation.FingerprintIsExact` | artifact-layer/src/index/index_derivation.cpp:420-439 | rows of one definition have the same fingerprint iff they are equal |
| `IndexDerivation.FingerprintsDeduplicate` | artifact-layer/src/index/index_derivation.cpp:420-439 | so deduplication keeps exactly the first occurrences |
| `IndexDerivation.FirstOccurrencesGrow` | artifact-layer/src/index/index_derivation.cpp:420-439 | and lists them in the order in which they first occur |
| `IndexDerivation.DeriveForIndex` | artifact-layer/src/index/index_derivation.cpp:453-524 | refuses definitions without a single chain; otherwise the first occurrences of all rows, or a NaN error |
| `IndexDerivation.DeriveIndexEntries` | artifact-layer/src/index/index_derivation.cpp:443-527 | the entries of all definitions in order, tagged with their definition ids; the first failing definition decides |
| `IndexDerivation.EntriesAreTagged` | artifact-layer/src/index/index_derivation.cpp:443-527 | every entry carries the key type of the definition it was derived by, and its id, or zero if that is unknown |
| `IndexDerivation.DerivedEntriesAreExact` | artifact-layer/src/index/index_derivation.cpp:443-527 | the derived entries are exactly the rows of all valid position vectors, each once |
| `Varint.EncodeVarint` | artifact-layer/src/encoding/index_key_encoder.cpp:173-184 | the do-while loop produces the base-128 encoding, at most ten bytes |
| `Varint.DecodeVarint` | artifact-layer/src/encoding/index_key_encoder.cpp:186-226 | accepts exactly the inputs that start with the encoding of a 64-bit value, and reports the value and the length |
| `Varint.EncodedPrefixFree` | artifact-layer/src/encoding/index_key_encoder.cpp:173-184 | no encoding is a prefix of another |
| `KeyEncoding.EncodeIndexCell` | artifact-layer/src/index/index_derivation.cpp:170-223 | the write side encodes every cell; its non-minimal length error cannot occur |
| `KeyEncoding.CellFormat` | artifact-layer/src/index/index_derivation.cpp:126-223 | the format of each kind of cell: fixed-width little-endian bits, or a counted string |
| `KeyEncoding.LittleEndianAt` | artifact-layer/src/index/index_derivation.cpp:126-142 | byte i has weight 256 to the power i |
| `KeyEncoding.IsMinimalVarintEncoding` | artifact-layer/src/index/index_derivation.cpp:144-168 | exact in wrapping arithmetic; on bytes that carry a 64-bit value it accepts the minimal encoding only |
| `KeyEncoding.ScalarValue` | artifact-layer/src/index/index_derivation.cpp:78-124 | reading keeps the number, drops the sign of zero and refuses exactly the NaNs |
| `KeyEncoding.AppendFieldValue` | artifact-layer/src/encoding/index_key_encoder.cpp:87-169 | the lookup side produces the same bytes as reading and encoding on the write side |
| `LookupKeys.ResolveFieldPath` | artifact-layer/src/encoding/index_key_encoder.cpp:43-78 | resolves a key path; the path can be followed iff all fields but the last are messages |
| `LookupKeys.EncodeKey` | artifact-layer/src/encoding/index_key_encoder.cpp:228-274 | the concatenated bytes of the key fields; refused iff there is none or one is missing, repeated, no scalar or a NaN |
| `LookupKeys.LookupFindsDerivedKey` | artifact-layer/src/index/index_derivation.cpp:366-380 | without repeated fields, the key under which derivation stores an artifact is the key that lookup encodes |
| `KeyEncoding.EncodeUint64Key` | artifact-layer/src/artifact/referential_integrity.cpp:108-116 | the hand-written lookup key has the same bytes as the cell |
| `KeyEncoding.EncodeStringKey` | artifact-layer/src/artifact/referential_integrity.cpp:119-126 | likewise for strings |
| `KeyEncoding.TuplePrefixFree` | artifact-layer/src/index/index_derivation.cpp:366-372 | tuples of one signature encode injectively and prefix-free |
| `Base64Url.Encode` | artifact-layer/src/encoding/base64url.cpp:39-66 | the loop produces the unpadded encoding |
| `Base64Url.AlphabetIsStandard` | artifact-layer/src/encoding/base64url.cpp:12-16 | the alphabet is that of section 5 of RFC 4648 |
| `Base64Url.Decode` | artifact-layer/src/encoding/base64url.cpp:68-115 | succeeds on exactly the strings over the alphabet of a possible length |
| `Base64Url.DecodeInvertsEncode` | artifact-layer/src/encoding/base64url.cpp:39-115 | decoding inverts encoding for every byte string |
| `Base64Url.EncodeInvertsDecode` | artifact-layer/src/encoding/base64url.cpp:93-112 | a text encodes back to itself iff its unused bits are zero |
| `Base64Url.AliasDecodes` | artifact-layer/src/encoding/base64url.cpp:102-112 | a text with an unused bit set decodes to the same bytes |
| `ObjectPaths.ParseIndexDefinitionIdFromPath` | artifact-layer/src/index/index_conflict_resolver.cpp:84-105 | the id in an index path, or an invalid argument |
| `ObjectPaths.ParseDecimalSuffix` | artifact-layer/src/transaction/conflict_resolver.cpp:56-68 | decimal digits modulo 2^64 |
| `ObjectPaths.DecodeArtifactIdFromPath` | artifact-layer/src/transaction/conflict_resolver.cpp:70-93 | the id in a payload or artifact path, or none |
| `ObjectPaths.BigEndianAt` | artifact-layer/src/encoding/artifact_path.cpp:14-20 | ids are written most significant byte first |
| `ObjectPaths.ArtifactIdRecovered` | artifact-layer/src/encoding/artifact_path.cpp:30-33 | the id read from an artifact path is the artifact's id |
| `ObjectPaths.IndexDefinitionIdRecovered` | artifact-layer/src/encoding/artifact_path.cpp:35-40 | the id read from an index path is the definition's id |
| `ObjectPaths.PathsAreDistinct` | artifact-layer/src/encoding/artifact_path.cpp:30-40 | different artifacts, definitions or keys never share a path, if the hash does not collide |
| `ObjectPaths.ArtifactPathAliases` | artifact-layer/src/transaction/conflict_resolver.cpp:79-92 | a path that yields an id is that artifact's own path iff its unused bits are zero |
| `ObjectPaths.EveryArtifactHasAnAlias` | artifact-layer/src/transaction/conflict_resolver.cpp:79-92 | every artifact has a second path that yields its id |

## Left out

- LakeFS and Datastore clients, gRPC services, JavaScript clients, configuration and server start-up: plumbing around the operations modelled here.
- Listing objects, existence tests and plain getters of the in-memory store: they only read the state modelled here.
- Commit messages and timestamps: they do not influence any operation.
- Loading transaction records of another process from storage, the text form of a record, and commit records: the forest invariant is about one manager instance.
- Runs through the deterministic index resolver: it writes to the source branch only, so neither agreement nor the success of the next merge follows.
- Runs that commit a half-written branch: the agreement theorem excludes them; only an implicit transaction that failed while another thread held a child of it can leave such a branch behind.
- Whether updates are lost under contention: that would need a most recent common ancestor, which the merge base is not (`CommitGraph.NearestIsNotLatest`).
- Referential integrity across concurrently merged branches: a merge does not validate references again.
- SET_NULL on dotted fields: references nested in messages are validated, but deleting follows top-level reference fields only.
- Covering indexes ordered by something other than the artifact id, and reference definitions without a covering index.
- Type registry, genesis artifacts, schema generation and schema compatibility: orchestration over the parts modelled here.
- Partition deletion and re-creation, which reset counters in memory.
- Protobuf wire bytes of an index object and their 2 GiB limit: the stored form is a key, a row count and columns.
- Looking up unknown index definition ids: the agreement theorem takes derivation as a fixed function of version, payload and id, with the type name folded into the version.
- IdAllocator.SuperBlockAllocator.AllocateBlock: counters and sizes are unbounded numbers; validated configurations keep all ids below 2^53, so 64-bit arithmetic does not wrap around.
- RetryPolicy.ComputeBackoffWithJitter: the jitter hash is an arbitrary share of the allowed jitter, rounded to ticks in any way; infinite durations are not modelled.
- ArtifactStore.ArtifactStore.AddIndexRow: rows are kept by artifact id with opaque order values; ordering and cell checks are those of the stored form in `IndexObjects`.
- TransactionManager.TransactionManager.RunImplicitTransaction: the callback is a function from the branch's contents to changes, staged in one write, and no other thread runs between creating the transaction and its first attempt to commit.
