# A verified model of the ReflectLog memory store

ReflectLog keeps every memory in three places: a SQLite row, a vector in an HNSW
index, and a document in a full-text index. A journal of intents, leases across
processes and a recovery pass keep the three together. This project models that
machinery, and the two client-side protocols that write to it, and proves what
they promise. Each `.dfy` file is one module:

- `index_integrity.dfy`: the bounded table of differences that pending intents authorise.
- `memory_store.dfy`: rows, AUTOINCREMENT ids and the intent journal, one transaction at a time.
- `crash_recovery.dfy`, `crash_lockouts.dfy`: the write protocol as a step system of any number of
  engines, with crashes, under strict guards and under the code's own; when a workspace opens
  again; and runs that lock one out.
- `crash_operations.dfy`: whole adds, deletes and rollbacks run to their end under those guards.
- `recovery_converges.dfy`: a guarded recovery run that finishes every openable crash state.
- `recovery_pass.dfy`, `recovery_rows.dfy`, `recovery_theorem.dfy`: the recovery pass as coded, each of
  its turns, and the exact condition under which it finishes.
- `index_publication.dfy`, `usearch_engine.dfy`: publishing one file from many engines without
  leases, and the engine's methods with their rollbacks.
- `storage_coordinator.dfy`: re-entrant reader/writer leases of several instances over one OS lock.
- `tombstones.dfy`, `tantivy_engine.dfy`: the tombstone index as a set, and the engine's methods
  over its reader, writer and LRU cache.
- `flush_ledger.dfy`, `flush_answers.dfy`, `flush_coordinator.dfy`: at-most-once writes, what each caller of
  a run is told and why, and shared authority.
- `sse_reader.dfy`, `mcp_client.dfy`, `mcp_replies.dfy`: the chunked reply reader, the retry machine, and what
  becomes of a server's answer.
- `salvage_publication.dfy`, `salvage_schedules.dfy`, `salvage_reports.dfy`: the marker protocol under file
  system faults and other processes' files, exact conditions on the schedule of both, and what is reported.
- `importer.dfy`, `importer_cuts.dfy`: the one-pass Markdown segmenter, and where it must cut.
- `cursor_paging.dfy`: paging while rows come and go.

Code that changes state in place is a class whose methods are proved equal to a function of the
old state; the theorems are about runs of that function. Failures, clocks, the network, other
threads and other processes are parameters, so a theorem holds for all of them.

## Where the promise holds only on a condition

Properties that turned out to be narrower than the code's own description of them. Each has its exact
condition and a lemma with a concrete run or input where it fails:

- The table in `index_integrity.py:10-26` accepts every crash state of the guarded protocol
  (`CrashRecovery.DriftAlwaysAccepted`), but the check that opens the file looks first at whether rows and
  vectors are both empty or both populated (`usearch_engine.py:386-416`), and a missing file is only rebuilt
  when every pending intent is an ADD (`index_integrity.py:47-62`). `CrashRecovery.OpensExactlyWhen` gives the
  condition; `CrashLockouts.LastDeleteLocksOut`, `FirstReAddLocksOut` and `DeleteBeforeFirstPublishLocksOut` fail it.
- An error between a mutation and its commit (`manager.py:873-905`, `1472-1504`) gives the lease back with vectors
  unpublished. A later publish keeps the invariant exactly when every vector that is new on disk has its row, or a
  pending removal and no finished one (`CrashRecovery.StepKeepsExactlyWhen`, over runs `RunKeepsExactlyWhen`; for the
  drift check `PublishAccepted`); `CrashLockouts.DirtyReleaseLocksOut` publishes an orphan.
- An engine with unpublished vectors goes on working when its file was overtaken (`usearch_engine.py:748-757`). Dropping
  a row whose vector it does not see keeps the invariant exactly when the vector is not on disk or is to be removed
  (`CrashRecovery.ReindexAccepted`); `CrashLockouts.OvertakenReindexLocksOut` leaves an orphan.
- A publish that raises after the file was replaced leaves its engine unable to publish until its process ends
  (`CrashRecovery.StrandedForGood`, `IndexPublication.TornIsRefusedForGood`), although its vectors are on file:
  `CrashLockouts.TornPublishStrands`.
- ADD intents of a text are closed when the text has a row, without looking for its vector: after a replacement
  (`replacement_recovery.py:339-346`, `676-697`) and after an add (`manager.py:1523-1539`, `add_phases.py:1121-1139`).
  The invariant survives exactly when every row with that text has its vector on disk or another intent
  (`CrashRecovery.CloseAddsExact`); `CrashLockouts.LeftoverAddLocksOut` and `ReAddLocksOut` end in an unaccounted row.
- A recovery pass finishes exactly when no row is stuck and none leaves a row over
  (`RecoveryTheorem.PassConvergesExactly`). Vectors are computed before the pass for texts that are not live then, so an
  ADD of a text that the pass itself removes first stays pending (`RecoveryTheorem.ReAddIsStuck`); a replacement whose old
  text is back without a vector loses that row (`RecoveryTheorem.ReplacedIsLeftOver`).
- DELETE intents of a text are closed when the text has no row (`manager.py:1567-1622`). The invariant survives
  exactly when every id they name is gone from rows and from disk (`CrashRecovery.CloseDeletesExact`);
  `CrashLockouts.OrphanDeleteLocksOut` ends in an unaccounted vector.
- A full-text delete with `verify_exists=False` counts on the reader's last snapshot; `Tombstones.StaleDeleteExact`
  says when that is right, and in `Tombstones.StaleDeleteHidesReAdd` a text stays hidden after a re-add.
- A hard delete rewrites the reader's snapshot. It removes exactly the requested texts from the committed index iff
  the snapshot shows every other text as committed (`Tombstones.StaleRebuildExact`, and `StaleBatchExact`); in
  `Tombstones.StaleRebuildLoses` another text is lost.
- A cached set stays right when another engine commits and stops before publishing exactly under the condition of
  `TantivyEngine.DeadAfter`. A write to an empty workspace id under a configured one drops the other workspace's
  entry: in `TantivyEngine.EmptyIdGoesStale` a visible text stays hidden.
- Compaction is due at the thresholds, not only above them as the comment says (`tantivy_engine.py:1617-1656`):
  `TantivyEngine.DueExactly`, and `TantivyEngine.DueAtHalf`.
- An export "never looks complete early" (`salvage_publication.py:103`) unless somebody's `manifest.json` is uncovered:
  one that another process made, or one whose own creation raised after taking effect.
  `SalvageSchedules.SeenTooEarlyExactly` is the condition for every schedule of faults and arrivals;
  `AtTheManifestExactly` and `FaultsAloneExactly` are its plain cases. Runs: `SalvageSchedules.LateManifestIsSeen`
  and `ForeignManifestIsSeen`.
- "Left marked INCOMPLETE" is wrong exactly when an unlink of the marker raised after doing so and no other process
  put one in its place (`SalvageSchedules.LeftMarkedExactly`). Run: `SalvageSchedules.LeftMarkedIsWrong`.
- "Remove only what this run created" (`salvage_publication.py:203`): another process's file is removed exactly when
  the run's own marker went that way and the other made a marker in its place
  (`SalvageSchedules.LosesTheirsExactly`). Run: `SalvageSchedules.TheirMarkerIsLost`.
- One reply escapes the client instead of being reported: an error whose code is an array or an
  object (`McpClient.EscapesExactlyWhen`), as in `McpClient.EmptyArrayCodeEscapes`.
- With `limit` zero a cursor walk never advances (`CursorPaging.ZeroNeverAdvances`), as in
  `CursorPaging.ZeroNeverReturnsTheRow`.

## Model

| member | source | states |
|---|---|---|
| `IndexIntegrity.EvaluateIndexIntegrity` | reflectlog/infrastructure/index_integrity.py:101-151 | the allowance sets are exactly the documented table, and the report is consistent iff every differing id is named by a pending row of the workspace |
| `IndexIntegrity.CollectAllowances` | reflectlog/infrastructure/index_integrity.py:134-144 | the scanning loop collects exactly the ids the table names, both directions |
| `IndexIntegrity.AllowNewContent` | reflectlog/infrastructure/index_integrity.py:154-162 | adds the current holder of the new content and nothing else |
| `IndexIntegrity.AllowOldId` | reflectlog/infrastructure/index_integrity.py:165-176 | a positive old id may be an orphan, and may be missing only while its row still has the old content |
| `IndexIntegrity.BoundedAuthorisation` | reflectlog/infrastructure/index_integrity.py:8-30 | an accepted difference has at most one id per ADD or DELETE and two per REPLACE: a journal is never a blanket exemption |
| `IndexIntegrity.CanBootstrapMissingIndex` | reflectlog/infrastructure/index_integrity.py:47-62 | true iff there are rows and every row is the new content of a pending ADD, all pending rows being ADDs |
| `MemoryStore.BeginAddRecords` | reflectlog/infrastructure/memory_store.py:1449-1480 | after recording, the text has a pending add that no later removal overtakes: a live one is kept and nothing is written, otherwise one row is appended and an overtaken add is closed; at most one pending add per text; no removal is closed |
| `MemoryStore.BeginAddKeepsAuthority` | reflectlog/infrastructure/memory_store.py:1449-1480 | recording one text takes no other text's live add away |
| `MemoryStore.BeginAddsRecord` | reflectlog/infrastructure/memory_store.py:1229-1250 | after a batch every text has a live pending add |
| `MemoryStore.BeginOldRecords` | reflectlog/infrastructure/memory_store.py:1495-1568 | an existing row of the kind and id comes back unchanged, pending or completed; otherwise one pending row is appended; at most one DELETE and one REPLACE row per old id |
| `MemoryStore.BeginOldRefuses` | reflectlog/infrastructure/memory_store.py:1515-1518 | one removal is refused iff a row replaces the same old id by another text; otherwise a row of its kind and id stands for it, with its new text |
| `MemoryStore.RemovalsRecord` | reflectlog/infrastructure/memory_store.py:1252-1282 | a transaction of removals is refused iff one of them is contradicted by a row of the journal or by another of them; otherwise each has its row and nothing else was added |
| `MemoryStore.CompleteKeeps` | reflectlog/infrastructure/memory_store.py:1341-1386 | completing a row keeps the uniqueness indexes and never changes what counts as a later intent |
| `MemoryStore.InsertRowKeeps` | reflectlog/infrastructure/memory_store.py:327-381 | a new id was never used and contents stay unique |
| `MemoryStore.InsertAllAdds` | reflectlog/infrastructure/memory_store.py:383-461 | a batch keeps every old row, gives fresh consecutive ids, skips duplicates, and afterwards every text has a row |
| `MemoryStore.Store.Insert` | reflectlog/infrastructure/memory_store.py:327-381 | refused iff the text has a row; otherwise exactly that row is added |
| `MemoryStore.Store.InsertMany` | reflectlog/infrastructure/memory_store.py:383-461 | the loop's rows and returned pairs are those of the batch specification |
| `MemoryStore.Store.Delete` | reflectlog/infrastructure/memory_store.py:651-692 | removes the row, true iff it was there, ids are not reused |
| `MemoryStore.Store.HasLaterIntent` | reflectlog/infrastructure/memory_store.py:1284-1339 | true iff a later row of that kind names the text; DELETE also counts replacements |
| `MemoryStore.Store.BeginAddIntent` | reflectlog/infrastructure/memory_store.py:1449-1480 | an overtaken pending add is closed and a new one appended, a live one is kept |
| `MemoryStore.Store.BeginAddIntents` | reflectlog/infrastructure/memory_store.py:1229-1250 | one transaction over the distinct texts |
| `MemoryStore.Store.RecordRemoval` | reflectlog/infrastructure/memory_store.py:1495-1568 | refused iff a row replaces the old id by another text; otherwise a row with this kind, id and new text is there, an existing one unchanged or one appended |
| `MemoryStore.Store.RecordRemovals` | reflectlog/infrastructure/memory_store.py:1103-1130 | refused, with the journal as before, iff an intent is contradicted by the journal or by another one; otherwise every intent has its row |
| `MemoryStore.Store.CompleteTransition` | reflectlog/infrastructure/memory_store.py:1341-1386 | closes that one row or reports that it is unknown |
| `CrashRecovery.StepKeeps` | reflectlog/application/memory/replacement_recovery.py:242-356 | under the strict guards every step of any engine keeps the protocol invariant, including that no live id has a completed removal, and that every unpublished vector may be published |
| `CrashRecovery.StepKeepsExactlyWhen` | reflectlog/infrastructure/usearch_engine.py:748-817 | under the code's own guards, dirty releases, overtaken engines and torn publishes included, a step keeps the invariant iff it is settled: a condition on the arguments of closings, publishes and reindexing, and nothing for any other step |
| `CrashRecovery.RunKeepsExactlyWhen` | reflectlog/application/memory/manager.py:873-905 | a run of the code's own steps keeps the invariant throughout iff each step it takes is settled where it happens |
| `CrashRecovery.PublishAccepted` | reflectlog/infrastructure/usearch_engine.py:781-817 | after any publish, torn or not, the drift table accepts the workspace iff every vector new on disk has its row or a pending removal |
| `CrashRecovery.ReindexAccepted` | reflectlog/application/memory/replacement_recovery.py:796-819 | after a row was dropped as unindexed the drift table accepts the workspace iff its vector is not on disk or has a pending removal |
| `CrashRecovery.StrandedForGood` | reflectlog/infrastructure/usearch_engine.py:748-757 | a dirty engine behind the live file never publishes nor reloads in any run in which its process lives on |
| `CrashRecovery.TornStrands` | reflectlog/infrastructure/usearch_engine.py:805-817 | a publish that raises after the replace puts the vectors on file and strands its own engine |
| `CrashRecovery.CloseAddsExact` | reflectlog/application/memory/replacement_recovery.py:676-697 | closing the ADDs of a text keeps the invariant iff every row with the text is on disk, has a pending removal, or has a live replacement naming it |
| `CrashRecovery.CloseAddsAccepted` | reflectlog/application/memory/add_phases.py:1121-1139 | after closing them the drift table still accepts the workspace iff every row with the text and without a vector is named by a pending removal or replacement |
| `CrashRecovery.CloseDeletesExact` | reflectlog/application/memory/manager.py:1606-1622 | closing the DELETEs of a text keeps the invariant iff every id they name is gone from rows and from disk |
| `CrashRecovery.BeginOldCovers` | reflectlog/infrastructure/memory_store.py:1252-1282 | a removal supersedes adds of its own text only and names the id instead, so nothing loses its cover |
| `CrashRecovery.RunKeeps` | reflectlog/application/memory/replacement_recovery.py:92-239 | the invariant holds after every run of strictly guarded steps from an empty workspace |
| `CrashRecovery.SettledRunKeeps` | reflectlog/application/memory/replacement_recovery.py:62-90 | after every run of the code's own steps that are settled the invariant holds and the drift table accepts the workspace |
| `CrashRecovery.DriftAlwaysAccepted` | reflectlog/infrastructure/index_integrity.py:101-176 | at every crash point of every strictly guarded run each id in rows minus vectors and vectors minus rows is accounted for by a pending row |
| `CrashRecovery.OpensExactlyWhen` | reflectlog/infrastructure/usearch_engine.py:566-683 | a workspace reached under the strict guards opens iff rows and vectors are both empty or both populated, or, without a file, iff there are no rows or only ADDs are pending |
| `CrashRecovery.InvOpens` | reflectlog/infrastructure/usearch_engine.py:566-683 | the same for every state that keeps the invariant, as-coded runs included |
| `CrashRecovery.MissingFileOpens` | reflectlog/infrastructure/index_integrity.py:47-62 | for a reachable workspace without a file the bootstrap test is exactly that every pending intent is an ADD |
| `CrashOperations.AddCompletes` | reflectlog/application/memory/manager.py:873-905 | under either set of guards, from any state that keeps the invariant, with the lease and a clean engine, an add of a new text runs through: intent, row, vector, commit and closing leave the row and its vector on disk and the intent completed |
| `CrashOperations.DeleteCompletes` | reflectlog/application/memory/manager.py:1472-1504 | likewise a delete of any row: row and vector are gone, from disk too, and its intent is completed |
| `CrashOperations.RollbackRestores` | reflectlog/infrastructure/usearch_engine.py:1106-1114 | likewise an add that fails after its vector was taken in: rows, vectors and file are as before, and the id is not handed out again |
| `CrashOperations.RefreshCatchesUp` | reflectlog/infrastructure/usearch_engine.py:748-779 | a clean engine that was overtaken holds the file after a refresh whenever the file may be read and is accepted, and nothing else changes |
| `CrashLockouts.LastDeleteLocksOut` | reflectlog/infrastructure/usearch_engine.py:386-416 | a guarded run whose crash leaves an accounted-for orphan that no engine will load |
| `CrashLockouts.FirstReAddLocksOut` | reflectlog/infrastructure/usearch_engine.py:386-416 | a guarded run whose crash leaves one accounted-for row over an empty file that no engine will load |
| `CrashLockouts.DeleteBeforeFirstPublishLocksOut` | reflectlog/infrastructure/index_integrity.py:47-62 | a pending DELETE before the first publish makes the missing file unbuildable |
| `CrashLockouts.DirtyReleaseLocksOut` | reflectlog/application/memory/manager.py:873-905 | a run of settled as-coded steps with a dirty release, whose last publish puts an orphan on disk that nothing accounts for |
| `CrashLockouts.OvertakenReindexLocksOut` | reflectlog/infrastructure/usearch_engine.py:748-757 | a run of settled as-coded steps in which an overtaken engine drops a row that is indexed on disk |
| `CrashLockouts.TornPublishStrands` | reflectlog/infrastructure/usearch_engine.py:805-817 | a run whose first publish raises behind the replace: rows and file agree, and the engine is stranded |
| `CrashLockouts.LeftoverAddLocksOut` | reflectlog/application/memory/replacement_recovery.py:339-346 | finishing a replacement closes the leftover ADD of its old text, whose row has no vector yet: drift refuses the workspace |
| `CrashLockouts.ReAddLocksOut` | reflectlog/application/memory/manager.py:1523-1539 | adding a text again whose row lost its vector in a crash closes the ADD that accounted for it |
| `CrashLockouts.OrphanDeleteLocksOut` | reflectlog/application/memory/manager.py:1567-1622 | deleting a text again whose row is gone closes the DELETE that accounted for its vector on disk |
| `RecoveryConverges.RecoveryFinishes` | reflectlog/application/memory/replacement_recovery.py:242-356 | from every openable crash state one guarded pass over the journal in its order completes every intent and makes row ids equal vector keys |
| `RecoveryConverges.ApplyRow` | reflectlog/application/memory/replacement_recovery.py:242-356 | one pending intent can always be driven to completion |
| `RecoveryTheorem.PassConvergesExactly` | reflectlog/application/memory/replacement_recovery.py:92-356 | for whatever texts could be embedded, the pass as coded, with the ADDs it closes, ends with nothing pending and row ids equal vector keys iff no row is stuck and none leaves a row over, both stated on the state before the pass |
| `RecoveryRows.FailsExactly` | reflectlog/application/memory/replacement_recovery.py:477-515 | a row fails at its turn iff before the pass it was open to it: no vector and not live, or live and removed by then, or replacing itself |
| `RecoveryRows.LeftoverSame` | reflectlog/application/memory/replacement_recovery.py:676-697 | rows that converge neither make nor mend what a later replacement leaves over |
| `RecoveryTheorem.ReAddIsStuck` | reflectlog/application/memory/replacement_recovery.py:832-882 | a reachable state with a pending DELETE and a pending ADD of one live text: the ADD stays pending although embedding works |
| `RecoveryTheorem.ReplacedIsLeftOver` | reflectlog/application/memory/replacement_recovery.py:339-346 | a reachable state whose pass loses a row |
| `IndexPublication.NoLostUpdate` | reflectlog/infrastructure/usearch_engine.py:781-817 | in every run of any number of engines the file is the replay of all published contributions, and a publish, torn or not, writes the current keys plus own additions minus own removals |
| `IndexPublication.RefusedExactlyWhenOvertaken` | reflectlog/infrastructure/usearch_engine.py:748-779 | a dirty engine is refused iff somebody published since it last agreed with the file, and the refusal changes nothing |
| `IndexPublication.PutIsPublished` | reflectlog/infrastructure/usearch_engine.py:748-817 | in every run a vector that an opened engine puts and commits is in the file then, unless the engine was overtaken with unpublished changes, and then the file stays as it was |
| `IndexPublication.CommitsExactly` | reflectlog/infrastructure/usearch_engine.py:1433-1464 | a commit publishes the keys of the engine iff it has changes and the file is the one it last agreed with; otherwise it changes nothing |
| `IndexPublication.TornIsRefusedForGood` | reflectlog/infrastructure/usearch_engine.py:805-817 | after a commit that raised behind the replace every commit of that engine is refused in every later run until it closes, and what it held is on file |
| `USearchEngine.Engine.VerifyCandidate` | reflectlog/infrastructure/usearch_engine.py:429-471 | accepts exactly both empty, or both populated with every difference accounted for |
| `USearchEngine.Engine.EnsureOpen` | reflectlog/infrastructure/usearch_engine.py:566-683 | opens iff the candidate is acceptable, or there is none and the rows are none or bootstrappable; a refusal changes nothing |
| `USearchEngine.Engine.MaybeReload` | reflectlog/infrastructure/usearch_engine.py:748-779 | a clean engine takes a newer file, a dirty one keeps its memory and is refused when asked |
| `USearchEngine.Engine.PublishIndex` | reflectlog/infrastructure/usearch_engine.py:781-817 | an error before the replace leaves file and engine untouched; one behind it leaves the new file and a dirty engine with its old identity; success makes the file the memory under a fresh identity |
| `USearchEngine.Engine.Commit` | reflectlog/infrastructure/usearch_engine.py:1433-1464 | writes current file plus own additions minus own removals, even if it then raises, or refuses and changes nothing |
| `USearchEngine.Engine.Add` | reflectlog/infrastructure/usearch_engine.py:819-887 | succeeds iff the text has a row, or one non-empty vector came, the index opens or can be refreshed, and it takes the vector; says which error otherwise; success adds exactly that row and vector, failure leaves both as they were |
| `USearchEngine.Engine.AddUnlocked` | reflectlog/infrastructure/usearch_engine.py:889-960 | a missing vector or an index failure takes the row back |
| `USearchEngine.Engine.AddBatch` | reflectlog/infrastructure/usearch_engine.py:962-1000 | succeeds iff there is nothing to add, or vectors were given or embedded for every text, the index opens or can be refreshed, each new text has a vector at its last place in the batch and the index takes them all; otherwise nothing changes; the returned texts are the new ones in order of first appearance |
| `USearchEngine.Engine.AddBatchUnlocked` | reflectlog/infrastructure/usearch_engine.py:1002-1089 | succeeds iff nothing was new or every new row got a vector; otherwise rows and vectors are as before |
| `USearchEngine.GoesInExactly` | reflectlog/infrastructure/usearch_engine.py:1018-1049 | the test row by row is that each text without a row has a vector at its last place in the batch and that the index takes as many vectors as there are new texts |
| `USearchEngine.InsertedTexts` | reflectlog/infrastructure/memory_store.py:383-461 | the inserted rows are for the texts that had none, each once, in order of first appearance |
| `USearchEngine.Engine.IndexInserted` | reflectlog/infrastructure/usearch_engine.py:1040-1085 | indexes every inserted row or leaves the index as it was |
| `USearchEngine.Engine.IndexVectors` | reflectlog/infrastructure/usearch_engine.py:1091-1104 | adds the vectors up to the first failure |
| `USearchEngine.Engine.RollbackVectors` | reflectlog/infrastructure/usearch_engine.py:1106-1114 | removes exactly the vectors of this batch |
| `USearchEngine.Engine.RollbackRows` | reflectlog/infrastructure/usearch_engine.py:1106-1114 | removes exactly the rows of this batch |
| `USearchEngine.Engine.Delete` | reflectlog/infrastructure/usearch_engine.py:1359-1421 | succeeds iff the index opens or can be refreshed; removes row and vector together, keeps rows equal to keys, and ids are not reused |
| `StorageCoordinator.ExclusiveExcludes` | reflectlog/infrastructure/storage_coordinator.py:154-253 | over all interleavings, while a thread holds EXCLUSIVE every lease in every instance is its own |
| `StorageCoordinator.OsLockExactlyWhileHeld` | reflectlog/infrastructure/storage_coordinator.py:129-152 | an instance holds the OS lock iff it has an unreleased lease, and is idle otherwise |
| `StorageCoordinator.ClampNeverClips` | reflectlog/infrastructure/storage_coordinator.py:231-253 | depth counters equal the unreleased leases, so the zero clamp never acts |
| `StorageCoordinator.IsHeldExact` | reflectlog/infrastructure/storage_coordinator.py:255-269 | reports exactly the calling thread's unreleased leases, EXCLUSIVE counting as SHARED |
| `StorageCoordinator.ExclusiveGrantedExactlyWhenAlone` | reflectlog/infrastructure/storage_coordinator.py:180-215 | a legal EXCLUSIVE request is granted iff nobody else holds a lease anywhere |
| `StorageCoordinator.SharedGrantedExactly` | reflectlog/infrastructure/storage_coordinator.py:211-222 | a SHARED request is granted iff every EXCLUSIVE lease of the instance is the thread's own and no other instance holds the file exclusively; it waits iff another thread's EXCLUSIVE lease is in the instance, and times out iff only another instance is in the way |
| `StorageCoordinator.ExclusiveWaitsExactly` | reflectlog/infrastructure/storage_coordinator.py:192-208 | an EXCLUSIVE request waits iff another thread has a lease in the instance, and times out only over another instance |
| `StorageCoordinator.UpgradeExactly` | reflectlog/infrastructure/storage_coordinator.py:176-185 | an upgrade is refused iff the thread's only leases in the instance are SHARED |
| `StorageCoordinator.RetryGrantedExactly` | reflectlog/infrastructure/storage_coordinator.py:187-222 | a waiting thread that wakes up gets its lease iff nobody is in the way any more, as if it asked anew |
| `StorageCoordinator.GrantTouchesFile` | reflectlog/infrastructure/storage_coordinator.py:207-222 | a grant takes the file lock iff the instance does not hold it yet |
| `StorageCoordinator.LeaseState.AttemptOnce` | reflectlog/infrastructure/storage_coordinator.py:154-229 | one pass of the wait loop in place equals the transition the theorems are about |
| `StorageCoordinator.LeaseState.OnRelease` | reflectlog/infrastructure/storage_coordinator.py:231-253 | the release callback in place equals its transition, in either release order |
| `StorageCoordinator.LeaseState.OthersShare` | reflectlog/infrastructure/storage_coordinator.py:195-203 | true iff another thread holds a shared lease |
| `Tombstones.RunRefinesSet` | reflectlog/infrastructure/tantivy_engine.py:474-526 | after any run of adds, batches, both deletes and compactions the visible texts of each workspace are those added and not since deleted, tombstones never outnumber live copies, and each delete answered how many it found |
| `Tombstones.StepRefines` | reflectlog/infrastructure/tantivy_engine.py:1149-1189 | every committed write acts on every workspace's visible texts as on a plain set |
| `Tombstones.AnswerExact` | reflectlog/infrastructure/tantivy_engine.py:1308-1391 | the number deleted is the number of requested texts that were visible |
| `Tombstones.DeletesAgree` | reflectlog/infrastructure/tantivy_engine.py:1393-1444 | soft delete then compaction leaves the same documents as the hard-delete rebuild |
| `Tombstones.CompactionKeepsMeaning` | reflectlog/infrastructure/tantivy_engine.py:1685-1723 | visibility is unchanged, no tombstone is left, live counts become the surplus, and a second compaction changes nothing |
| `Tombstones.StaleDeleteExact` | reflectlog/infrastructure/tantivy_engine.py:1149-1189 | deleting through a stale reader hides the text, and keeps tombstones in bounds, iff the snapshot shows the committed surplus |
| `Tombstones.StaleDeleteHidesReAdd` | reflectlog/infrastructure/tantivy_engine.py:1149-1189 | a reader one deletion behind makes the next add of the text invisible |
| `Tombstones.StaleRebuildExact` | reflectlog/infrastructure/tantivy_engine.py:1393-1444 | rewriting a stale snapshot without a text removes exactly that text from the committed index iff the snapshot shows every other text as committed |
| `Tombstones.StaleRebuildCopies` | reflectlog/infrastructure/tantivy_engine.py:1393-1444 | it is the rewrite of the committed documents, copy for copy, iff the surplus of every other text agrees |
| `Tombstones.StaleBatchExact` | reflectlog/infrastructure/tantivy_engine.py:1387-1391 | the same for a batch of rewrites |
| `Tombstones.StaleRebuildLoses` | reflectlog/infrastructure/tantivy_engine.py:1393-1444 | a reader that has not seen the add of one text deletes another, and the first is lost |
| `TantivyEngine.ScanDead` | reflectlog/infrastructure/tantivy_engine.py:816-839 | the counting scan returns exactly the texts whose tombstones are at least their live copies |
| `TantivyEngine.CountLiveAndTomb` | reflectlog/infrastructure/tantivy_engine.py:1191-1215 | counts the live and tombstone copies of one text |
| `TantivyEngine.LiveContents` | reflectlog/infrastructure/tantivy_engine.py:507-526 | each live text that is not dead, once |
| `TantivyEngine.CollectActiveDocs` | reflectlog/infrastructure/tantivy_engine.py:1752-1803 | keeps exactly the surplus copies of every text; removed tombstones, removed originals and kept documents add up to all |
| `TantivyEngine.AllDocs` | reflectlog/infrastructure/tantivy_engine.py:572-635 | the rebuild's two-pass collection agrees with compaction |
| `TantivyEngine.Engine.RefreshReader` | reflectlog/infrastructure/tantivy_engine.py:421-437 | afterwards the reader is the committed index and every cached set is a full scan of it |
| `TantivyEngine.Engine.FinalizeWriter` | reflectlog/infrastructure/tantivy_engine.py:439-458 | a commit keeps every remaining cached set equal to a full scan of the committed documents |
| `TantivyEngine.Engine.InvalidateDirty` | reflectlog/infrastructure/tantivy_engine.py:739-752 | the entries of dirty workspaces go, or of the configured one when none is known, and all others stay in order |
| `TantivyEngine.CacheAlwaysCoherent` | reflectlog/infrastructure/tantivy_engine.py:739-847 | over every run of own reads and commits and of published foreign writes the cache stays within its size, holds no workspace twice, and once the engine has looked every cached set is a full scan of the committed index |
| `TantivyEngine.EmptyIdGoesStale` | reflectlog/infrastructure/tantivy_engine.py:739-752 | a write to an empty workspace id under a configured one leaves a cached set that hides a visible text |
| `TantivyEngine.Engine.TombstonedMemories` | reflectlog/infrastructure/tantivy_engine.py:769-847 | the dead set is right, it becomes the most recently used entry, and a full cache drops only its oldest |
| `TantivyEngine.Engine.GetAll` | reflectlog/infrastructure/tantivy_engine.py:539-547 | each visible text of the committed index once, whatever other engines wrote and published before; for an empty id under a configured one, unless a set for it was cached |
| `TantivyEngine.Engine.FindByExactMatch` | reflectlog/infrastructure/tantivy_engine.py:549-570 | the text alone if it is visible, else nothing; for an empty id under a configured one, unless a set for it was cached |
| `TantivyEngine.Engine.Add` | reflectlog/infrastructure/tantivy_engine.py:637-659 | one committed add step, cache kept coherent |
| `TantivyEngine.Engine.AddBatch` | reflectlog/infrastructure/tantivy_engine.py:661-676 | one committed add step for the whole batch |
| `TantivyEngine.Engine.SoftDelete` | reflectlog/infrastructure/tantivy_engine.py:1149-1189 | plants the snapshot's surplus as tombstones, true iff the text is visible there; a set deletion when the snapshot is fresh |
| `TantivyEngine.Engine.SoftDeleteBatch` | reflectlog/infrastructure/tantivy_engine.py:1308-1391 | one scan and one commit leave the same documents as deleting each distinct text in turn |
| `TantivyEngine.Engine.RewriteInPlace` | reflectlog/infrastructure/tantivy_engine.py:460-472 | the committed index is exactly the kept documents and nothing cached survives |
| `TantivyEngine.Engine.DeleteViaRebuild` | reflectlog/infrastructure/tantivy_engine.py:1393-1444 | true iff visible to the reader, and then the reader's surviving documents without the text; exactly the text goes from the committed index iff the reader shows all others as committed |
| `TantivyEngine.Engine.Delete` | reflectlog/infrastructure/tantivy_engine.py:1230-1287 | both implementations remove exactly the text and give the same answer |
| `TantivyEngine.Engine.DeleteBatch` | reflectlog/infrastructure/tantivy_engine.py:1289-1391 | both implementations remove exactly the requested texts and count those that were visible |
| `TantivyEngine.Engine.HardDeleteBatch` | reflectlog/infrastructure/tantivy_engine.py:1387-1391 | leaves the reader's documents without the texts; exactly these go from the committed index iff the reader shows all others as committed |
| `TantivyEngine.Engine.Compact` | reflectlog/infrastructure/tantivy_engine.py:1685-1733 | runs iff forced or due, and is a compaction of the committed documents with conserved counts |
| `TantivyEngine.DueExactly` | reflectlog/infrastructure/tantivy_engine.py:1617-1656 | due iff above a documented threshold or exactly at one |
| `TantivyEngine.DueAtHalf` | reflectlog/infrastructure/tantivy_engine.py:1617-1656 | two documents, one a tombstone: due at ratio one half |
| `TantivyEngine.Engine.OtherEngineWrites` | reflectlog/infrastructure/tantivy_engine.py:421-437 | a published write elsewhere keeps the cache promise in every state of this engine |
| `TantivyEngine.Engine.OtherEngineStops` | reflectlog/infrastructure/tantivy_engine.py:421-437 | a committed but unpublished write elsewhere keeps it iff, for every cached workspace, an add gives no cached dead text a surplus, a soft delete asks for no visible text, and a hard delete or compaction meets no cached dead text |
| `TantivyEngine.DeadAfter` | reflectlog/infrastructure/tantivy_engine.py:769-847 | for one cached set, the exact effect of each kind of write |
| `FlushLedger.AtMostOncePerKey` | integrations/openclaw/src/flush-ledger.ts:59-79 | in every run the table is bounded and holds a slot for every pending or unconfirmed write, and all but the newest invocation for a key provably sent nothing or were cached and then expired or evicted |
| `FlushLedger.StartsOnlyAfter` | integrations/openclaw/src/flush-ledger.ts:107-136 | `start` runs for a key only when every earlier invocation is over |
| `FlushLedger.NeverAgain` | integrations/openclaw/src/flush-ledger.ts:205-216 | after a dispatched failure no later run starts the key again |
| `FlushLedger.AnswersNeverChange` | integrations/openclaw/src/flush-ledger.ts:195-216 | over any run what the waiters of a write were told never changes |
| `FlushLedger.StepKeeps` | integrations/openclaw/src/flush-ledger.ts:107-216 | every step keeps one slot per key, slots for pending and unconfirmed writes, and honest expiry |
| `FlushLedger.CapacityExact` | integrations/openclaw/src/flush-ledger.ts:219-234 | a new key is turned away iff the table is full of pending and unconfirmed writes, and then nothing is dropped |
| `FlushLedger.EvictsEarliest` | integrations/openclaw/src/flush-ledger.ts:219-234 | room is made by the expired, then by exactly one more success, the one that would expire first |
| `FlushLedger.AlwaysTimely` | integrations/openclaw/src/flush-ledger.ts:195-203 | on a monotone clock successes always sit in expiry order |
| `FlushAnswers.CachedExactly` | integrations/openclaw/src/flush-ledger.ts:115-126 | in every run a caller is answered from the cache with a value iff some step confirmed a write of its key with that value less than the time to live ago and it was not forgotten |
| `FlushAnswers.RepliesExactly` | integrations/openclaw/src/flush-ledger.ts:107-126 | in every run a caller joins exactly the unsettled write of its key, is told unknown iff a write of its key is unconfirmed, and is rejected iff the ledger is disposed; none of these replies changes anything |
| `FlushAnswers.SettlesHonestly` | integrations/openclaw/src/flush-ledger.ts:158-216 | every step settles a write as its own fate says: confirmed with the value it succeeded with, unconfirmed iff it failed or was disposed of after dispatch, not sent iff before; nothing else settles or marks it |
| `FlushAnswers.EverySlotIsBacked` | integrations/openclaw/src/flush-ledger.ts:195-216 | in every run each cached success is a value that a step confirmed for that key, expiring the time to live after that step, and each pinned key has its unconfirmed write |
| `FlushAnswers.ForgottenInTime` | integrations/openclaw/src/flush-ledger.ts:219-234 | in every run a write is forgotten only after it was confirmed, and as expired only once its time to live, counted from that step, is over |
| `FlushLedger.Ledger.Run` | integrations/openclaw/src/flush-ledger.ts:107-136 | the synchronous part in place equals the run transition |
| `FlushLedger.Ledger.FreeSlot` | integrations/openclaw/src/flush-ledger.ts:219-234 | the two loops in place equal the room specification |
| `FlushLedger.Ledger.DropExpired` | integrations/openclaw/src/flush-ledger.ts:220-222 | deleting while iterating drops exactly the expired successes, order kept |
| `FlushLedger.Ledger.SettleSuccess` | integrations/openclaw/src/flush-ledger.ts:195-203 | a success moves to the end of the table once |
| `FlushLedger.Ledger.SettleFailure` | integrations/openclaw/src/flush-ledger.ts:205-216 | an undispatched failure frees the key, a dispatched one pins it in place |
| `FlushLedger.Ledger.AbandonNow` | integrations/openclaw/src/flush-ledger.ts:177-180 | frees the key unless it was dispatched |
| `FlushLedger.Ledger.DisposeNow` | integrations/openclaw/src/flush-ledger.ts:158-170 | every pending write is settled conservatively and the table is dropped |
| `FlushCoordinator.DispatchedUnderAuthority` | integrations/openclaw/src/flush-coordinator.ts:57-67 | in every run each dispatched write was marked at an instant when an attached waiter was un-aborted and current |
| `FlushCoordinator.StepAuthority` | integrations/openclaw/src/flush-coordinator.ts:61-66 | only a check that finds a current waiter marks a write dispatched |
| `FlushCoordinator.AttachedExactly` | integrations/openclaw/src/flush-coordinator.ts:46-88 | in every run the callers attached to a write are exactly those that joined it with authority and have neither left nor been found aborted or revoked since |
| `FlushCoordinator.AuthorityDispatches` | integrations/openclaw/src/flush-coordinator.ts:61-66 | a check that finds a current waiter lets the write go and changes nothing else |
| `FlushCoordinator.NobodyLeft` | integrations/openclaw/src/flush-coordinator.ts:61-66 | with no current waiter the key is freed iff nothing was dispatched |
| `FlushCoordinator.DetachingIsInvisible` | integrations/openclaw/src/flush-coordinator.ts:83-88 | detaching a cancelled, revoked or answered waiter at once or never gives every other caller the same answers in every continuation |
| `FlushCoordinator.Coordinator.HasCurrentWaiter` | integrations/openclaw/src/flush-coordinator.ts:97-114 | deleting while iterating leaves exactly the current waiters; true iff there is one |
| `FlushCoordinator.Coordinator.Run` | integrations/openclaw/src/flush-coordinator.ts:46-78 | a caller without authority never reaches the ledger; others are attached to the entry they join |
| `FlushCoordinator.Coordinator.BeforeDispatchNow` | integrations/openclaw/src/flush-coordinator.ts:61-66 | vetoes and abandons, or marks dispatched |
| `FlushCoordinator.Coordinator.Deliver` | integrations/openclaw/src/flush-coordinator.ts:80-88 | a settled value reaches only a caller that is still un-aborted and current, an error only one not revoked, and the caller is detached |
| `FlushCoordinator.Coordinator.LeaveNow` | integrations/openclaw/src/flush-coordinator.ts:86-88 | removes one waiter of one entry |
| `SseReader.ReadStream` | integrations/hermes/core/client.py:278-312 | the chunk loop answers what the whole-input specification says of the chunks within the size limit; a reply that is no event stream is answered iff it is within the limit and is the awaited message as a whole |
| `SseReader.ChunkIndependence` | integrations/hermes/core/client.py:278-312 | within the limit the answer depends on the bytes only |
| `SseReader.OverLimitNeverDiffers` | integrations/hermes/core/client.py:286-289 | past the limit the answer is the whole-input one or malformed, never another |
| `SseReader.WithinExactly` | integrations/hermes/core/client.py:286-289 | the chunks that count are those up to which the total stays within the limit |
| `SseReader.AnswersStand` | integrations/hermes/core/client.py:293-304 | an answer is never taken back by later bytes |
| `SseReader.SplitAppend` | integrations/hermes/core/client.py:290-296 | cutting lines resumes from the unfinished tail alone |
| `SseReader.RoundTrip` | integrations/hermes/core/client.py:293-304 | events are read back in order whatever the chunks, the CRs before each LF, the optional spaces, comments and other fields: the first payload that is not for another request decides, and an event that is cut off is not read |
| `SseReader.JoinKeepsLines` | integrations/hermes/core/client.py:301 | cutting a joined payload at LF gives the data lines back |
| `SseReader.TakeLines` | integrations/hermes/core/client.py:293-304 | the inner loop takes every complete line, stopping at the block that decides |
| `McpClient.Client.Call` | integrations/hermes/core/client.py:461-565 | for any network and server: which of the two attempts are sent and what the caller is told, verdict by verdict; a mutation is sent again only after a proven rejection and runs at most once on a server that does not run what it rejects; a lost or unreadable reply is outcome_unknown; other errors than outcome_unknown and tool_error mean it did not run |
| `McpClient.JudgedSafely` | integrations/hermes/core/client.py:508-558 | a verdict that denies an effect is given only when there is none |
| `McpReplies.AnswerReported` | integrations/hermes/core/client.py:461-565 | from the server's words to the caller's: the content given is returned whatever else the stream carries, an authentication error is reported as one, and any other error of a mutation is outcome_unknown iff the tool may have run |
| `McpReplies.StreamExactly` | integrations/hermes/core/client.py:224-244 | of any stream the first message that is not for somebody else is read, member by member, and nothing after it; without one the stream is malformed |
| `McpReplies.ResultExactly` | integrations/hermes/core/client.py:490-507 | a result is a value iff it is no error and has structured content, and a failed tool iff it is an error whose content is no list or a list of objects |
| `McpReplies.TextsContain` | integrations/hermes/core/client.py:490-506 | the rendered error names a phrase without line breaks iff one of its texts does |
| `McpReplies.DefinitiveExactly` | integrations/hermes/core/client.py:80-97 | a session is rejected for certain iff the body is a version 2.0 error with a null id, code -32600 and a message that names the session in any spelling |
| `McpReplies.RejectionRead` | integrations/hermes/core/client.py:80-97 | the rejection the server SDK sends is recognised iff its message names the session |
| `McpClient.EscapesExactlyWhen` | integrations/hermes/core/client.py:224-244 | the only replies that are not reported: the first message for the request is an error with an array or object as code, after messages for others only |
| `McpClient.EmptyArrayCodeEscapes` | integrations/hermes/core/client.py:224-244 | an error with an empty array as code leaves a mutation unreported |
| `McpClient.Client.TryOnce` | integrations/hermes/core/client.py:480-489 | one attempt, and the session is dropped after a rejected session or a transport failure |
| `McpClient.Client.EnsureSession` | integrations/hermes/core/client.py:389-459 | an existing session is reused, a failed negotiation stores none, one overtaken by another thread's invalidation stores none and says unavailable, a stored one has the current generation |
| `McpClient.Client.Invalidate` | integrations/hermes/core/client.py:218-222 | a stale invalidation cannot drop a newer session |
| `McpClient.Client.Close` | integrations/hermes/core/client.py:660-688 | the connection pool is closed exactly when no call is in flight and none can start |
| `SalvagePublication.Publisher.Publish` | reflectlog/infrastructure/salvage_publication.py:127-162 | for every schedule of faults and foreign files: report and final directory are those of the schedule; every instant is safe iff the schedule's run is not bad; published means full bytes of this run and rolled back means gone; every foreign file that was ever there is there with its bytes, except the lost names; an existing directory is untouched and reported |
| `SalvagePublication.SafeExactly` | reflectlog/infrastructure/salvage_publication.py:103 | with the invariant that the order of calls keeps, a directory looks complete without its bytes exactly when it holds an unknown manifest and no marker |
| `SalvagePublication.SafeExactlyAll` | reflectlog/infrastructure/salvage_publication.py:103 | the same over all instants of a run |
| `SalvagePublication.TheirsStay` | reflectlog/infrastructure/salvage_publication.py:202-222 | a foreign file at any instant is there at the end with its bytes unless its name was lost in between |
| `SalvagePublication.Publisher.Steps` | reflectlog/infrastructure/salvage_publication.py:139-151 | where it stops, what it knows of, and whether it went wrong are the schedule's; no error means the run's own full files and no own marker |
| `SalvagePublication.Publisher.Rollback` | reflectlog/infrastructure/salvage_publication.py:174-200 | the guard is restored before anything is removed; the report and the directory left are the schedule's |
| `SalvagePublication.Publisher.Abandon` | reflectlog/infrastructure/salvage_publication.py:202-222 | known files go newest first up to the first failure, and then an empty directory; what is left is the schedule's |
| `SalvagePublication.Publisher.Write` | reflectlog/infrastructure/salvage_publication.py:164-172 | a file that is there is not opened; apart from this file the old ones are unchanged and the new ones foreign; success means all bytes |
| `SalvageReports.PublishedExactly` | reflectlog/infrastructure/salvage_publication.py:127-151 | a publication succeeds iff no call raises, the bundle yields everything, and no other process has taken one of the three names first |
| `SalvageReports.StepsEnd` | reflectlog/infrastructure/salvage_publication.py:139-172 | publishing ends with the last exception of its calls; if none raises, with an OS error for a name that is taken or with what the bundle raised |
| `SalvageReports.ReportBeforeUnlink` | reflectlog/infrastructure/salvage_publication.py:152-222 | with the marker in place an interrupt in publishing or as the last call is passed on; otherwise rolled back iff the last call succeeds and leaves nothing, left marked iff the clean-up stopped at a file, to be deleted iff at the directory |
| `SalvageReports.ReportAfterUnlink` | reflectlog/infrastructure/salvage_publication.py:152-222 | with the marker taken away: an interrupt while putting it back is passed on; an interrupt in publishing only if the clean-up gets through; left marked only if the marker was written in full |
| `SalvageSchedules.StepsNeverEarly` | reflectlog/infrastructure/salvage_publication.py:139-151 | publishing itself is never seen early except over a foreign manifest that comes before the marker; a published run never is |
| `SalvageSchedules.OnlyTwoWays` | reflectlog/infrastructure/salvage_publication.py:127-222 | without a foreign manifest and without a late exception from the manifest's creation nothing is seen early, whatever else fails or comes |
| `SalvageSchedules.SeenTooEarlyExactly` | reflectlog/infrastructure/salvage_publication.py:127-222 | for all faults and arrivals: seen early iff a foreign manifest comes before any marker, or the clean-up leaves without a marker a manifest that was there first, that the run's own creation left behind, or that comes meanwhile |
| `SalvageSchedules.AtTheManifestExactly` | reflectlog/infrastructure/salvage_publication.py:139-151 | a run that gets to the manifest: seen early iff a foreign one was first or the creation raised late, and the records and the marker are then removed |
| `SalvageSchedules.FaultsAloneExactly` | reflectlog/infrastructure/salvage_publication.py:139-172 | with nobody else there: seen early iff all calls before the manifest's creation succeed, it raises late, the records go and the marker goes |
| `SalvageSchedules.BeforeTheMarker` | reflectlog/infrastructure/salvage_publication.py:127-140 | a foreign manifest before the marker is seen as complete whatever follows |
| `SalvageSchedules.LeftMarkedExactly` | reflectlog/infrastructure/salvage_publication.py:194-198 | left marked is wrong iff an unlink of the marker, in publishing or as the last removal of the clean-up, raised late and no foreign marker took its place |
| `SalvageSchedules.LosesTheirsExactly` | reflectlog/infrastructure/salvage_publication.py:202-222 | a foreign file is removed iff the marker's unlink raised late, two removals succeed, a foreign marker came by then and its removal takes effect; it is never another name |
| `SalvageSchedules.LateManifestIsSeen` | reflectlog/infrastructure/salvage_publication.py:164-166 | one late exception, at the eighth call |
| `SalvageSchedules.ForeignManifestIsSeen` | reflectlog/infrastructure/salvage_publication.py:139-151 | no fault at all, a foreign manifest while the marker is written |
| `SalvageSchedules.LeftMarkedIsWrong` | reflectlog/infrastructure/salvage_publication.py:194-198 | a failed write of the marker and its late removal: reported as marked, without a marker |
| `SalvageSchedules.TheirMarkerIsLost` | reflectlog/infrastructure/salvage_publication.py:146-148 | one late exception, one foreign marker, removed |
| `Importer.SplitMarkdownMemories` | integrations/openclaw/src/importer.ts:135-191 | the one-pass loop yields exactly the declarative segments |
| `Importer.SplitIsPartition` | integrations/openclaw/src/importer.ts:149-190 | entries are disjoint increasing ranges that start at a text line and cover every non-blank, non-heading line after terminated front matter, fences included |
| `ImporterCuts.CutsExactly` | integrations/openclaw/src/importer.ts:149-190 | the entries are the only way to lay the body out so that each holds what belongs to it (in a list item text or blank lines before text deeper than the item, otherwise text up to a blank line or an item; fenced lines always; never a heading) and ends where the next line does not |
| `ImporterCuts.FencedExactly` | integrations/openclaw/src/importer.ts:157-187 | a line is inside a fence iff a marker line outside headings opened one before and no bare marker of the same character and at least its length has closed it since |
| `ImporterCuts.BodyExactly` | integrations/openclaw/src/importer.ts:150-154 | there is no body iff front matter is opened and no later line closes it; otherwise it starts behind the first that does |
| `Importer.CoveredOnce` | integrations/openclaw/src/importer.ts:143-148 | no line is in two entries |
| `Importer.PathIsAncestors` | integrations/openclaw/src/importer.ts:163-170 | the truncated heading array holds a text at a level iff that heading is the latest with no later one as high |
| `Importer.Splitter.Text` | integrations/openclaw/src/importer.ts:171-187 | a text line continues the open entry or starts the next exactly as the segments say |
| `Importer.Splitter.Blank` | integrations/openclaw/src/importer.ts:173-180 | a blank line ends the entry unless deeper text of the list item follows |
| `Importer.FrontMatterEnd` | integrations/openclaw/src/importer.ts:150-154 | the first closing line after the opening one |
| `CursorPaging.WalkIsComplete` | reflectlog/infrastructure/memory_store.py:804-834 | whatever is inserted and deleted in between, ids come in strictly increasing order and the last page has returned every row past the start |
| `CursorPaging.WalkEnds` | reflectlog/infrastructure/memory_store.py:804-834 | without inserts and with a positive limit at most one page per remaining row promises more |
| `CursorPaging.FetchShrinks` | reflectlog/infrastructure/memory_store.py:828-833 | a page that promises more leaves exactly `limit` rows fewer |
| `CursorPaging.PageExactly` | reflectlog/infrastructure/memory_store.py:804-834 | a page holds at most `limit` rows and is full when it promises more; it promises more iff a row past the cursor is not on it; the total counts every row |
| `CursorPaging.ZeroNeverAdvances` | reflectlog/infrastructure/memory_store.py:804-834 | with limit zero any number of pages leaves the walk where it was |
| `CursorPaging.ZeroNeverReturnsTheRow` | reflectlog/infrastructure/memory_store.py:804-834 | one row, limit zero: it is promised for ever and never returned |
| `CursorPaging.GetCursorPage` | reflectlog/infrastructure/memory_store.py:804-834 | the query's page, promise and next cursor |

## Left out

- Third-party behaviour (SQLite, Tantivy, USearch, portalocker, httpx): tables, multisets, key sets, a lock and an arbitrary network stand for them; scores, ranking and vector values are not modelled.
- Workspaces other than one per database file, archive rows, schema migration and `restore_from_archive` (a row without vector or intent) are not part of the write protocol.
- The manager enters as guards of the step system.
- MemoryStore.Store.RecordRemovals: the archive row that the same transaction writes with each replacement is not modelled, because archives are outside the write protocol.
- RecoveryConverges.RecoveryFinishes: says that a guarded run finishes; the pass as coded, with its closings by text and texts that could not be embedded, is `RecoveryTheorem.PassConvergesExactly`.
- RecoveryConverges.ApplyRow: assumes that embedding and full-text writes succeed.
- RecoveryTheorem.PassConvergesExactly: full-text writes and commits succeed, as their failure leaves the row pending; the joint staging of an all-ADD journal is taken row by row.
- USearchEngine.Engine.VerifyCandidate: the refusals for a missing or unreadable SQLite file are left out, because the store is a value here.
- USearchEngine.Engine.EnsureOpen: a corrupt index file is left out, because a file is its key set.
- USearchEngine.Engine.PublishIndex: an error while reading the identity of the new file, with the engine clean already, is not modelled.
- SseReader.ReadStream: the deadline checks between chunks and lines are an outcome of the exchange instead.
- McpClient.Client.EnsureSession: the tool listing that follows negotiation is not checked.
- The engine classes run under leases taken by their callers; the leases themselves are the subject of `storage_coordinator.dfy`, and lease deadlines are only a step that gives up.
- Clean-up of temporary files.
- Full-text writes without a coordinator, where several writes may share a commit; search over-fetch; recovery of a crashed rebuild directory.
- TantivyEngine.Engine.GetAll: promises nothing for an empty workspace id under a configured one when a set for it is already cached, because it can be wrong (`TantivyEngine.EmptyIdGoesStale`).
- TantivyEngine.Engine.FindByExactMatch: the same exception as GetAll, which it scans.
- FlushLedger.Ledger.constructor: requires a positive bound, because the source rejects any other with a RangeError.
- Promise scheduling: a ledger step is atomic, and callbacks that re-enter the ledger come after the step that invokes them.
- McpClient.Client.Call: the text of a failed tool is rendered from strings only, and lower-casing covers ASCII.
- JSON decoding is the parameter `parse` of the reader; a lone CR does not end a line in the source either.
- Markdown patterns: a line is given by what the patterns say of it; normalisation of texts is left out.
- Other processes create files in the output directory; that they remove or overwrite this run's is not modelled.
- Output path checks of salvage, and `import-run.ts` and `import-archive.ts`, which repeat the marker idea.
- Scoring, retry back-off, configuration, CLI and server wiring would add only easy members.
