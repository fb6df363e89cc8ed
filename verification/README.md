# Scrinium in Dafny

A model of the concurrent, crash-prone and byte-level core of Scrinium, a content-addressed store,
with proofs of what that core promises. `dafny verify dfyconfig.toml` covers the whole project.

Protocols are state machines: a `State`, the steps that are enabled in it, and theorems over every
finite sequence of steps (called a run below), with any number of threads, hosts, callers or files.
Code that updates fields or loops is a class or a method whose `ensures` ties it to the function
those theorems are about.

| file | what it models |
|---|---|
| `Basics.dfy` | what several modules share |
| `KeyOrder.dfy`, `KeyedLock.dfy` | the ordered multi-key lock |
| `StoreIndex.dfy`, `TruthCache.dfy` | manifest files as truth, index rows as cache, crashes and reopening |
| `RefCounts.dfy`, `Stamps.dfy` | reference counts and change sequence numbers over runs with checkpoint restores |
| `Ingestion.dfy` | the reconciliation over encoded manifest files |
| `Rollback.dfy`, `Interruption.dfy` | session rollback, and rollbacks that are cut short any number of times |
| `Lease.dfy` | the lease protocol over one shared cell |
| `Scheduling.dfy`, `EventRunning.dfy` | the time-driven and the event-driven agent launcher |
| `Unlocking.dfy`, `Liveness.dfy` | the unlock transition and the liveness sentinel |
| `CryptoIdentity.dfy`, `StoreConfig.dfy`, `Connection.dfy` | configuration: defaults, checks, connecting |
| `ConfigVersions.dfy`, `DeletionLock.dfy` | configuration versions shared by hosts, and the lock on the deletion policy |
| `Pipeline.dfy`, `Header.dfy`, `ManifestCodec.dfy` | encoder chains and the manifest file format |
| `LimitGuard.dfy` | the streaming size limit |
| `NamedStore.dfy`, `ScopedStore.dfy` | named system artifacts and extension scopes over them |

## Where the code does not do what its comments say

The model follows the code. Each case below has a concrete witness or a for-all statement of the
failure, and the exact condition under which the promise does hold.

- The open-time reconciliation does not drop stale rows (`engine/store/data_delete.go:39-43` says it
  does). A row left by a `Delete` that crashed between file and row survives every open
  (`TruthCache.StaleRowStays`); rows and files agree after an open exactly under the condition of
  `TruthCache.OpenSyncsExactlyWhen`. Such a row also blocks the rollback of its session, so a rollback
  that is cut short can be finished later exactly when no cut fell inside a deletion and no open restored
  such a row (`Interruption.SeriesFinishesExactlyWhen`; `engine/store/data_rollback.go:30-32` says always).
- The reconciliation deletes whole files, not only fragments (`engine/store/lifecycle_construct.go:96-99`
  says it deletes nothing else). A Sealed manifest with an `ext` or `usr` block that is not quoted base64
  hashes to its name and is reported as corrupted all the same. Exactly which files go is
  `Ingestion.DeletedExactlyWhen`; one such run is `TruthCache.MalformedFileIsDeleted`, and such files
  exist for every codec (`ManifestCodec.UnsealedExtIsCorrupted`). No file this codec wrote is among them
  (`Ingestion.WrittenManifestsAreDurable`).
- `DeleteExternal` removes the row before the file, so a crash in between can bring the container back;
  exactly when is `TruthCache.RowFirstResurrectsExactlyWhen`.
- Copying a checkpoint over an index that holds only containers can leave a reference count too low
  (`RefCounts.RestoreOverContainersUndercounts`); exactly when it does not is
  `RefCounts.RestoreCoversExactlyWhen`, and over whole runs `RefCounts.SoundThroughoutExactlyWhen`.
- A restore copies the stamps of a checkpoint but not the counter that issued them, so the row written last
  need not answer for its handle (`engine/index/sqlite/manifest.go:449-454` says it does): after an
  ordinary recovery a manifest read in ties with a restored row or sorts below it (`Stamps.RecoveryTiesStamps`,
  `Stamps.FirstReadInNeverOutranks`). Exactly when a restore keeps the order is
  `Stamps.RestoreKeepsOrderExactlyWhen`; without a restore it is always kept (`Stamps.StampsStayInOrder`).
- `RollbackSession` is not atomic with respect to retention when two rows of the session share a
  handle (`Rollback.RetentionSeenTooLate`); `Rollback.AtomicExactlyWhen` and
  `Rollback.RollbackExactlyWhen` give the conditions.
- `Renew` and `Release` check and then write, so a displaced holder can write itself back
  (`Lease.LateWriteHappens`). It never does exactly when it was not in the middle of its own Renew at the
  time (`Lease.DisplacedForGoodExactlyWhen`), and never touches its successor's record exactly when it was
  in the middle of neither call (`Lease.HarmlessExactlyWhen`). A damaged cell is not reclaimed, contrary to
  `engine/lease/lease.go:373-378`: it stays damaged exactly when nobody was past a read of it
  (`Lease.DamagedForGoodExactlyWhen`).
- `Scheduler.Stop` can return before a run starts; exactly when is `Scheduling.StopIsFinalExactlyWhen`.
- A failed `Unlock` wipes the DEK but not the copy inside the resolver it promoted
  (`Unlocking.LockedKeepsCopyExactlyWhen`). An `Unlock` that passed the gate before `Close` can put a DEK
  back into the closed store; exactly when is `Unlocking.ClosedForGoodExactlyWhen`.
- `SetMaintenanceMode` does not clear the sentinel's flag, so an operator's Offline may be lifted
  (`Liveness.OperatorOfflineSurvivesExactlyWhen`), and a self-healed outage forgets ReadOnly
  (`Liveness.OutageRestoresExactlyWhen`).
- Some class-I fields are not immutable: one update may leave them out (`ConfigVersions.ChangeableExactlyWhen`).
  Which fields keep their value for life, over every run, is `ConfigVersions.ImmutableForLifeExactlyWhen`.
- The lock on NoDelete guards the configuration a call sees, not the store
  (`engine/store/admin_config.go:75-77` says NoDelete cannot be dropped). One update of a host that has not
  refreshed, or one that passed its checks before the store was locked, drops it
  (`DeletionLock.OneUpdateIsEnough`); exactly when updates that keep the lock cannot is
  `DeletionLock.LockHoldsExactlyWhen`. Leaving the lock out takes two updates
  (`DeletionLock.LockedNoDeleteFallsInTwoUpdates`).
- A crypto stage before a non-crypto stage is outside the protected tail, and a connecting client may drop
  it unless the store refuses the pipeline for its order, which it does only for ciphers registered as
  AEADs: exactly when is `Connection.DroppableExactlyWhen`, a family of witnesses
  `Connection.EarlyStageCanBeDropped`, and the safe case `Connection.RegisteredEncryptionIsKept`.
- A limit of the largest int64 makes the size guard panic (`LimitGuard.WorksExactlyWhen`).
- An extension can reach what another reads (`extension/scopedstore.go:20-27` says it cannot): deleting an
  artifact deletes the payload it points to, whoever else points to it. Exactly when a read is out of reach
  is `ScopedStore.IsolatedExactlyWhen`, and which runs change it `ScopedStore.ScopesDoNotInterfere`.
- A cell put on a name that has versions is not what the next read finds (`ScopedStore.PutIsRead`), and a
  delete that fails can leave an older version to be read (`NamedStore.DeleteReads`).
- `Walk(prefix)` filters file paths rather than names, so a prefix that reaches into the version
  suffix reports a name without that prefix (`ScopedStore.WalkIsExactExactlyWhen`).

## Assumptions

- A digest is injective on manifests, so a manifest stands for its own file name. Lease nonces are
  distinct. Times are integers with 0 as the zero time.
- In `ManifestCodec`, JSON, base64, timestamps and the AEAD are functions with stated laws
  (`LawfulJson`, `LawfulText`, `LawfulAead`); the AEAD is ideal in the sense of section 2 of RFC 5116,
  strings are valid UTF-8. In `Pipeline`, a transformer's decoder inverts its encoder (`Inverts`), and a
  stage reports the end of its output only after the end of its input (`Allowed`).
- `Next` of a cron schedule is the first moment strictly after its argument (`Lawful`).
- Driver operations on one path are atomic; the exclusive create is.
- The two instants `now` and `later` of `Rollback.Context` stand for the clock reads of the pre-check
  and of the deletions. Its `rank` is the scan order of the manifests table, which decides between rows of
  one handle with equal stamps; while stamps are in order it is never consulted
  (`Rollback.OrderedStampsDecide`).
- A rollback that is cut short starts from a session that could be undone, and from files that do not concern
  it if an open reads them in: they neither join the session nor share one of its handles
  (`Interruption.Neutral`). A checkpoint that is restored agrees with the index on the rows that do concern
  it, up to artifacts of the session that are gone (`Interruption.Consistent`).

## Model

| member | source | states |
|---|---|---|
| KeyOrder.SortedDistinct | internal/keyedlock/keyedlock.go:48-51 | the acquisition order: strictly ascending, with exactly the requested keys |
| KeyOrder.AscendingUnique | internal/keyedlock/keyedlock.go:48-51 | there is only one such order, so two calls on the same keys lock alike |
| KeyedLock.LockMap.Get | internal/keyedlock/keyedlock.go:24-33 | the mutex of a key never changes and no two keys share one |
| KeyedLock.LockMap.LockAll | internal/keyedlock/keyedlock.go:44-58 | one distinct mutex per distinct requested key, in ascending key order |
| KeyedLock.StepKeepsInv | internal/keyedlock/keyedlock.go:44-64 | every lock or unlock step keeps: each locked key has exactly one holder, each thread holds a prefix of its plan |
| KeyedLock.WalkToEnabled | internal/keyedlock/keyedlock.go:35-39 | from any blocked thread, following who holds the awaited key reaches a thread that can move |
| KeyedLock.RunKeepsInv | internal/keyedlock/keyedlock.go:44-64 | work is conserved: every step of every schedule uses up one unit |
| KeyedLock.LockAllNeverDeadlocks | internal/keyedlock/keyedlock.go:35-64 | for any threads, calls and schedule: no key held twice, no deadlock, every run bounded, a run that cannot go on has finished everything and freed every key |
| StoreIndex.IndexTables.IndexManifest | engine/index/sqlite/manifest.go:37-306 | row stamped, edges counted; refuses a manifest that is neither inline nor names a blob |
| StoreIndex.IndexTables.DeleteManifest | engine/index/sqlite/manifest.go:326-445 | row removed and each edge decremented once; an absent row is a no-op |
| StoreIndex.IndexedCounts | engine/index/sqlite/manifest.go:216-306 | counts stay at least the references held; exact counts stay exact if and only if the manifest was not indexed before or has no edges |
| StoreIndex.UnindexedCounts | engine/index/sqlite/manifest.go:332-445 | removing a row keeps counts sound and exact counts exact |
| StoreIndex.CountsMove | engine/index/sqlite/manifest.go:216-445 | each count rises and falls by one per listed position, an inline manifest holds no blob, and no count goes below zero |
| StoreIndex.DeleteUndoesIndex | engine/index/sqlite/manifest.go:216-445 | deleting undoes indexing, each takes a new stamp, and deleting an absent row changes nothing |
| TruthCache.Location.IngestManifest | engine/store/ingest_manifest.go:27-50 | corruption is a hash mismatch or a garbled block of a whole file; a row is added exactly for a readable, indexable manifest |
| TruthCache.Location.Reconcile | engine/store/internal/orphanscan/orphanscan.go:80-161 | the loop computes the specified pass over whatever was listed |
| TruthCache.ReconcileEffect | engine/store/internal/orphanscan/orphanscan.go:80-161 | a row for every listed readable manifest, unknown fragments and unknown malformed files removed, no other file touched, no row dropped, counts sound if and only if they were |
| TruthCache.Location.PlanIndexOpen | engine/store/index_readiness.go:74-178 | from rows, files and arguments, exactly when an open is refused and for which reason, when it recovers and when the index is complete |
| TruthCache.PlanExactlyWhen | engine/store/index_readiness.go:130-178 | the same of the plan every open in a run follows |
| TruthCache.OpenReadsIn | engine/store/lifecycle_construct.go:95-127 | a completed open has a row for every whole manifest it could read |
| TruthCache.StepRemovesExactlyWhen | engine/store/internal/orphanscan/orphanscan.go:104-155 | a step removes a whole file if and only if it deletes it, or is an open that lists it, has no row for it and reads it as corrupted |
| TruthCache.NothingLost | engine/internal/cas/write.go:376-390 | over every run that does not write it again, a whole manifest stays whole if and only if no step removes it; and it is indexed after each open that could read it |
| TruthCache.MalformedFileIsDeleted | engine/store/internal/orphanscan/orphanscan.go:136-146 | a run from a fresh store in which an open deletes a whole file |
| TruthCache.NothingResurrected | engine/store/data_delete.go:71-96 | over every run, a removed file that is not put again never returns, and gets no row unless one was cached |
| TruthCache.UndisturbedPut | engine/internal/cas/write.go:376-390 | a put leaves file and row, and nothing in flight |
| TruthCache.UndisturbedDelete | engine/store/data_delete.go:71-96 | a deletion, file first or row first, leaves neither file, fragment nor row |
| TruthCache.InterruptedWriteGoneExactlyWhen | engine/store/internal/orphanscan/orphanscan.go:104-155 | after a write cut short, a crash and an open, the fragment is gone if and only if it could be read and no restored checkpoint has its row |
| TruthCache.RowFirstResurrectsExactlyWhen | engine/store/headless.go:77-89 | row before file, a crash and an open: the row is back if and only if a restored checkpoint holds it, or the file is there and can be read in |
| TruthCache.StaleRowStays | engine/store/internal/orphanscan/orphanscan.go:104-155 | a row without a file survives every run that keeps the index |
| TruthCache.OpenSyncsExactlyWhen | engine/store/lifecycle_construct.go:95-127 | rows equal whole files after an open if and only if no cached row was stale and every unknown file was readable or removed |
| RefCounts.RunCounts | engine/index/storeindex.go:27-47 | every step of every run whose restores fit keeps the counts of the index and of all checkpoints sound |
| RefCounts.CountsNeverTooLow | engine/store/lifecycle_construct.go:95-127 | from a fresh store, no ref_count is below the references the rows hold, nor, right after a clean open, below those the manifests on disk hold |
| RefCounts.SoundThroughoutExactlyWhen | engine/index/sqlite/checkpoint.go:116-175 | over every run, whatever checkpoints it restores, the counts are sound at every step if and only if every restore fits the rows it meets |
| RefCounts.RestoreCoversExactlyWhen | engine/index/sqlite/checkpoint.go:116-175 | copying a checkpoint over an index keeps counts sound if and only if each count it brings covers its own references and those of the rows it lacks |
| RefCounts.ExactFitsExactlyWhen | engine/index/sqlite/checkpoint.go:116-175 | a checkpoint with exact counts fits if and only if no row it lacks uses a blob it counts |
| RefCounts.RestoreOverContainersUndercounts | engine/index/sqlite/checkpoint.go:116-175 | for any two containers that share a blob, a run from a fresh store ends with its count too low |
| Stamps.StampsStayInOrder | engine/index/sqlite/csn.go:14-32 | over every run from a fresh store that restores nothing, stamps are distinct and none is ahead of the counter |
| Stamps.LastIndexedAnswers | engine/index/sqlite/manifest.go:447-467 | in such an index the row written last outranks every other |
| Stamps.RestoreKeepsOrderExactlyWhen | engine/index/sqlite/checkpoint.go:93-100 | a restore keeps the order if and only if no restored stamp is ahead of the counter or taken by a row that stays |
| Stamps.NothingFitsANewIndex | engine/index/sqlite/checkpoint.go:93-100 | a restore into a new index keeps the order only for a checkpoint without rows |
| Stamps.FirstReadInNeverOutranks | engine/index/sqlite/checkpoint.go:93-175 | after a restore into a new index the first manifest read in sorts below or level with every restored row |
| Stamps.RecoveryTiesStamps | engine/index/sqlite/checkpoint.go:93-175 | a run from a fresh store that ends with two rows of one handle under one stamp |
| Ingestion.DeletedExactlyWhen | engine/store/internal/orphanscan/orphanscan.go:104-155 | a whole file is deleted by the pass if and only if it is listed, unknown, removable and Sealed, has candidate keys, and a block that is reached is not quoted base64 |
| Ingestion.WrittenManifestsAreDurable | engine/store/ingest_manifest.go:18-50 | over every run, whatever keys are in force, a file this codec wrote is lost only to a delete |
| Rollback.ResolveDigest | engine/index/sqlite/manifest.go:456-467 | of several rows with one handle the one of highest stamp answers, among equal stamps the one the scan finds first |
| Rollback.OrderedStampsDecide | engine/index/sqlite/manifest.go:447-467 | while stamps are in order the answer does not depend on the scan |
| Rollback.Resolves | engine/index/sqlite/manifest.go:456-467 | every handle with a row resolves to a row of highest stamp |
| Rollback.LoadManifest | engine/store/data_io.go:38-40 | found, missing or unreadable, from the row and the file together |
| Rollback.Delete | engine/store/data_delete.go:44-103 | the row that answers for the handle leaves rows and files if and only if it is whole, readable, not retained and the policy allows it; the outcome of every other case, with the store unchanged |
| Rollback.DeleteExactlyWhen | engine/store/data_delete.go:44-103 | the same of the deletion the loop and every theorem below use |
| Rollback.CheckAll | engine/store/data_rollback.go:70-80 | the first artifact that cannot be loaded or is retained decides |
| Rollback.DeleteAll | engine/store/data_rollback.go:96-106 | deletions in order, a missing artifact skipped, any other refusal final |
| Rollback.RollbackSession | engine/store/data_rollback.go:43-124 | the whole call: empty session, no artifacts, pre-check, policy, loop |
| Rollback.ListingFacts | engine/index/sqlite/iterate.go:66-89 | one non-empty handle per row of the session |
| Rollback.PreCheckMeaning | engine/store/data_rollback.go:70-80 | the pre-check passes if and only if the answering row of every handle loads and is not retained |
| Rollback.PreCheckReason | engine/store/data_rollback.go:70-80 | the first handle that fails decides, and whether it was not loaded or is retained |
| Rollback.RefusalExactlyWhen | engine/store/data_rollback.go:43-106 | the call names an empty session, or the policy, exactly when that is what stands in its way |
| Rollback.AbsentAreSkipped | engine/store/data_rollback.go:96-106 | leaving out handles that have no row changes neither state nor outcome |
| Rollback.LoopRemoves | engine/store/data_rollback.go:96-106 | with the session on top of its handles the loop removes exactly its rows and files, in any listing order |
| Rollback.LoopEffect | engine/store/data_rollback.go:96-106 | on every input rows only go, files go with them, each was deletable, none older than one that stays, and under NoDelete nothing goes |
| Rollback.RollbackExactlyWhen | engine/store/data_rollback.go:43-106 | the call undoes the session and nothing else if and only if the session is undoable |
| Rollback.AtomicExactlyWhen | engine/store/data_rollback.go:24-32 | the call undoes the session or changes nothing if and only if it is refused up front or the session is undoable |
| Rollback.RetentionSeenTooLate | engine/store/data_rollback.go:24-25 | a session with two rows under one handle, the older retained, is partly deleted |
| Rollback.RollbackAllOrNothing | engine/store/data_rollback.go:24-28 | with unique handles: the whole session goes, or nothing changes, and which of the two is decided by retention, policy and readability |
| Interruption.SeriesFinishesExactlyWhen | engine/store/data_rollback.go:30-32 | after any series of calls, each cut between two deletions or inside one and followed by nothing or by a crash and an open with or without a restore, one complete call finishes the rollback and touches nothing else if and only if no cut fell inside a deletion and no open restored the row of an artifact that was gone |
| Interruption.CutWithin | engine/store/data_delete.go:71-96 | a cut between file and row leaves an artifact of the session with a row and no file |
| Interruption.StaleForGood | engine/store/internal/orphanscan/orphanscan.go:104-155 | from then on no attempt and no open, with or without a restore, removes that row |
| Interruption.AttemptIsARun | engine/store/data_rollback.go:96-106 | every attempt, with its cut, crash and open, is a run of the store |
| Interruption.UncutIsTheCall | engine/store/data_rollback.go:43-106 | an attempt that is not cut short is the whole call |
| Interruption.NextUnderway | engine/index/sqlite/checkpoint.go:116-175 | an open leaves the rollback as it was or leaves such a row, according to whether it restored the row of an artifact that was gone |
| Rollback.StaleRowBlocks | engine/store/data_rollback.go:70-76 | a stale row of the session refuses every rollback of it |
| Rollback.RollbackKeepsCounts | engine/store/data_rollback.go:96-106 | reference counts stay sound, and exact ones exact |
| Lease.ClassifyStoreOwnership | domain/store_ownership.go:34-42 | foreign if and only if both ids are present and differ; unknown if and only if one is missing |
| Lease.Slot.Write | engine/internal/named/cell.go:50-65 | an exclusive write succeeds exactly on an empty cell |
| Lease.Slot.Acquire | engine/lease/lease.go:198-275 | undisturbed, succeeds exactly on an empty cell or on a record that is expired, of its own host, of another store, or against Force; reports the displaced record of another host, never takes a damaged cell |
| Lease.Slot.Renew | engine/lease/lease.go:281-296 | extends exactly its own record; lost, failed and unchanged otherwise |
| Lease.Slot.Release | engine/lease/lease.go:302-317 | empties exactly its own cell |
| Lease.NewcomerHoldsExactlyWhen | engine/lease/lease.go:242-275 | from every reachable state with a live record, a newcomer has a run of its own steps to holding the lease if and only if one of those four grounds holds |
| Lease.AcquiredIsHeld | engine/lease/lease.go:221-275 | whatever interleaves, at the moment an Acquire returns the lease its own record is in the cell |
| Lease.RenewsExactlyWhen | engine/lease/lease.go:281-296 | undisturbed, Renew extends the record to a full term if and only if it is its own, and changes nothing otherwise |
| Lease.ReleasesExactlyWhen | engine/lease/lease.go:302-317 | undisturbed, Release empties the cell if and only if the record is its own |
| Lease.RunKeepsInv | engine/lease/lease.go:198-317 | over every interleaving, the record in the cell belongs to a handle that wrote it |
| Lease.LateWriteHappens | engine/lease/lease.go:281-296 | for any two processes, a run from the empty cell in which both acquire and the first writes itself back over the second |
| Lease.DisplacedForGoodExactlyWhen | engine/lease/lease.go:281-296 | a displaced nonce never returns, over every run, if and only if its Renew was not between check and write |
| Lease.HarmlessExactlyWhen | engine/lease/lease.go:281-317 | a displaced handle never writes or removes again, over every run, if and only if neither its Renew nor its Release was between check and write |
| Lease.HoldsDoNotInterleave | engine/lease/lease.go:198-317 | over every run, a handle that holds the cell at both ends held it alone in between, unless it was displaced in the middle of its own Renew |
| Lease.OneCreateWins | engine/lease/lease.go:221-230 | one exclusive create wins per empty period and every other leaves the cell alone |
| Lease.PunctualHolderKeepsLease | engine/lease/lease.go:235-275 | a holder that renews in time keeps the lease against any number of contenders of other hosts without Force and not of another store |
| Lease.DamageIsPermanent | engine/lease/lease.go:379-392 | with nobody past a read of it, no step repairs a damaged cell and no Acquire on it succeeds |
| Lease.DamagedForGoodExactlyWhen | engine/lease/lease.go:379-392 | a damaged cell stays damaged over every run if and only if nobody was past a read of it |
| Scheduling.Scheduler.Add | engine/agent/scheduler.go:107-136 | replace by kind: one entry per agent, last run and in-flight run kept, re-armed |
| Scheduling.Scheduler.CatchUp | engine/agent/scheduler.go:161-165 | the catch-up loop ends at the first moment after now, whatever was missed |
| Scheduling.Scheduler.TickOne | engine/agent/scheduler.go:145-174 | skip, arm, fire and advance of one entry |
| Scheduling.Scheduler.Tick | engine/agent/scheduler.go:138-176 | every entry ticked, the due ones in order; nothing after Stop |
| Scheduling.MomentBetween | engine/agent/scheduler.go:30-34 | a moment lies in an interval exactly when Next of its start does not exceed its end |
| Scheduling.CronTick | engine/agent/scheduler.go:150-166 | an idle armed entry fires exactly when a moment was passed, and waits for the next one after now |
| Scheduling.CronFiresOnSchedule | engine/agent/scheduler.go:150-166 | over every run with a monotone clock an armed cron entry fires exactly when due, once for any number of missed moments |
| Scheduling.CronFromAddOn | engine/agent/scheduler.go:107-166 | from Add on, new or replacing, idle or running: the first tick that finds the entry idle only arms it, and from then on it fires exactly when due |
| Scheduling.NoOverlap | engine/agent/scheduler.go:107-208 | over every run one entry per kind and at most one run of a kind, even across replacement |
| Scheduling.WaitGroupCounts | engine/agent/scheduler.go:176-208 | over every run, what Stop waits for is the runs launched and not yet left |
| Scheduling.FiresAreSpaced | engine/agent/scheduler.go:167-173 | any two fires of an unreplaced interval entry are at least the interval apart |
| Scheduling.LastRunIsLastFire | engine/agent/scheduler.go:167-173 | over every run, the last-run time of an unreplaced entry is the time of its last fire |
| Scheduling.IntervalFiresExactlyWhen | engine/agent/scheduler.go:145-173 | after every run, a tick that finds an interval entry idle fires it if and only if it never ran or its last fire is at least the interval ago |
| Scheduling.StopIsFinalExactlyWhen | engine/agent/scheduler.go:176-231 | after Stop returned nil no run ever starts if and only if no tick is between its unlock and its wg.Add |
| Scheduling.StopCanMissARun | engine/agent/scheduler.go:176-231 | a reachable state in which Stop returns and a run starts later |
| Scheduling.StopCanReturn | engine/agent/scheduler.go:210-231 | from every state a Stop can return |
| EventRunning.EventRunner.On | engine/agent/event_runner.go:84-104 | the rule is added exactly when valid and not stopped |
| EventRunning.EventRunner.OnEvent | engine/agent/event_runner.go:110-135 | all rules counted, the due ones in the wait group before the mutex is released |
| EventRunning.RunKeepsInv | engine/agent/event_runner.go:110-165 | a rule is marked exactly while one run of it exists, and the wait group counts every run |
| EventRunning.StopIsFinal | engine/agent/event_runner.go:110-192 | over every interleaving, when the stopping Stop returns nil no run is in flight and none ever starts |
| EventRunning.StopCanReturn | engine/agent/event_runner.go:167-192 | from every state a Stop can return |
| EventRunning.ThresholdsAreExact | engine/agent/event_runner.go:117-131 | over every run, events delivered are the window plus `every` per threshold, each fired or skipped |
| EventRunning.CountsFromOn | engine/agent/event_runner.go:84-131 | from On on, every event of the type counts towards the new rule, none before |
| Unlocking.Store.UnlockDEK | engine/store/internal/crypto/state.go:184-211 | idempotent on the DEK; promotes a default resolver when none was injected |
| Unlocking.Store.Unlock | engine/store/admin_crypto.go:29-89 | undisturbed, exactly when it succeeds and what it leaves: Unlocked with a complete index and the DEK, or as before with no DEK gained |
| Unlocking.WholeCallIsUnlock | engine/store/admin_crypto.go:29-89 | the steps the callers interleave, taken by one of them alone from any state, are that call |
| Unlocking.GatesExactlyWhen | engine/store/access.go:84-155 | exactly when each gate lets a call through, and the one reason it gives otherwise |
| Unlocking.UnlockIsSafe | engine/store/admin_crypto.go:29-89 | any number of callers, Close and the operator: exactly one bootstrap iff Bootstrapping, Locked implies no DEK, and a read passes its gate only with the DEK in memory and the index complete |
| Unlocking.BootstrapCanMove | engine/store/admin_crypto.go:38-82 | Bootstrapping is never a dead end |
| Unlocking.LockedKeepsCopyExactlyWhen | engine/store/internal/crypto/state.go:129-166 | a Locked store still answers key lookups if and only if an earlier Unlock failed after unwrapping |
| Unlocking.ClosedForGoodExactlyWhen | engine/store/internal/crypto/state.go:143-155 | a closed store whose secrets are dropped never holds a DEK again, over every run, if and only if nobody is between claim and unwrap and nobody past the gate can get there |
| Unlocking.ResolverStays | engine/store/internal/crypto/state.go:131-141 | a closed default resolver, and an injected one, stay installed and are never promoted over |
| Unlocking.SecretsDropped | engine/store/internal/crypto/state.go:143-155 | closing the secrets drops the DEK, and over every later run the promoted copy; an injected resolver is left alone |
| Unlocking.CloseShutsTheGate | engine/store/admin_close.go:32-59 | from Close on every gate answers Closed and, over every run, an Unlock not yet past its gate can only fail |
| Unlocking.OfflineIsReversible | engine/store/admin_state.go:41-64 | Offline shuts every gate, and taking it back restores the state |
| Liveness.Sentinel.SetMaintenanceMode | engine/store/admin_state.go:41-64 | sets the mode and leaves the sentinel's flags |
| Liveness.Sentinel.SentinelLost | engine/store/liveness.go:155-172 | offline by the sentinel, unless the operator's Offline stands; announced once |
| Liveness.Sentinel.SentinelSubstituted | engine/store/liveness.go:177-197 | offline and substituted, unless the operator's Offline stands; announced once |
| Liveness.Sentinel.SentinelHealthy | engine/store/liveness.go:202-216 | heals only a sentinel's Offline without substitution |
| Liveness.SentinelInvariant | engine/store/liveness.go:155-216 | over every sequence, substituted implies the flag, and every Recovered directly follows a Degraded |
| Liveness.DegradedBetweenRecoveries | engine/store/liveness.go:155-216 | between two Recovered there is a Degraded |
| Liveness.SubstitutionIsSticky | engine/store/liveness.go:174-216 | substitution never clears, nothing is announced after it, and no probe lifts Offline |
| Liveness.SubstitutionExactlyWhen | engine/store/liveness.go:177-197 | a foreign descriptor marks the store and is announced once, unless the operator's Offline stands |
| Liveness.OperatorOfflineSurvivesExactlyWhen | engine/store/admin_state.go:41-54 | an operator's Offline survives all probes if and only if the flag was clear or the store substituted |
| Liveness.OutageRestoresExactlyWhen | engine/store/liveness.go:202-211 | a healed outage restores the operator's mode if and only if it was None |
| Liveness.LastProbeDecides | engine/store/liveness.go:155-216 | over every sequence of probes of a store neither substituted nor taken offline by the operator, it is offline if and only if the last one was lost |
| CryptoIdentity.CryptoExactlyWhen | domain/crypto_identity.go:43-50 | a stage encrypts if and only if it is named by one of the two names, in any mixture of cases |
| CryptoIdentity.CryptoIdentityOf | domain/crypto_identity.go:28-36 | the last encrypting stage decides |
| CryptoIdentity.IdentityExactlyWhen | domain/crypto_identity.go:17-36 | two pipelines have one identity if and only if neither encrypts or their last encrypting stages agree |
| StoreConfig.ApplyDefaults | config/model.go:30-32 | the loop over the table gives every field its default or keeps it |
| StoreConfig.AnyOrder | config/model.go:26-29 | the single pass gives the same configuration in any row order |
| StoreConfig.DefaultedAt | config/registry.go:29-204 | each field: kept when populated, else its default, judged by the original configuration |
| StoreConfig.DefaultsAre | config/registry.go:29-204 | the value a host gets for each field it leaves at zero, two of them by whether the store encrypts, which no default changes |
| StoreConfig.FieldClasses | config/registry.go:29-204 | which fields are immutable, which are the session's, the others governance |
| StoreConfig.EncryptsExactlyWhen | config/model.go:93-103 | a store encrypts if and only if its manifests are sealed or a stage of its pipeline encrypts |
| StoreConfig.DefaultedTwice | config/model.go:30-32 | defaulting is idempotent |
| StoreConfig.DefaultsAreValid | config/registry.go:29-219 | the defaults pass their own checks |
| StoreConfig.ValidateImmutable | config/model.go:52-54 | passes exactly when every field passes its check |
| StoreConfig.ValidExactlyWhen | config/registry.go:29-219 | a configuration passes if and only if every field holds one of its legal values, field by field |
| StoreConfig.DivergentByClass | config/model.go:82-84 | exactly the populated and different fields of the class |
| Connection.CryptoTailOf | config/classes.go:155-161 | the maximal all-crypto suffix |
| Connection.ValidateCryptoTail | config/classes.go:125-152 | the client ends with the tail and encrypts nowhere else |
| Connection.Connect | config/classes.go:53-77 | accepted if and only if every populated governance or immutable field equals the store's, under Deny every session field and the pipeline too, and a pipeline keeps the crypto tail; which refusal otherwise, and the overlay |
| Connection.AnswerIsRight | config/classes.go:53-161 | the same of the plan the theorems below use, field by field and stage by stage |
| Connection.MergeSession | config/classes.go:96-117 | overlay over active, field by field |
| Connection.MergedAt | config/classes.go:96-117 | merging writes the populated session fields and no other |
| Connection.ConnectionIsHonest | config/classes.go:53-161 | accepted: equal to the request where populated, to the store elsewhere, same maximal crypto tail, and under Deny exactly the store's |
| Connection.EncryptionKeptExactlyWhen | config/classes.go:125-161 | every encrypting stage is kept if and only if the store encrypts only in its tail |
| Connection.OpenStore | engine/store/lifecycle_construct.go:67-79 | the plan, then the order check of the store's own pipeline, then the merge |
| Connection.DroppableExactlyWhen | config/classes.go:125-161 | some client gets in without an encrypting stage of the store's if and only if overrides are not denied, the store encrypts before its tail, and the order check lets that pass |
| Connection.RegisteredEncryptionIsKept | engine/store/lifecycle_construct.go:67-79 | with every cipher registered as an AEAD, an opened store encrypts only in its tail and every client keeps every encrypting stage |
| Connection.EarlyStageCanBeDropped | config/classes.go:155-161 | every valid store that encrypts before another stage, with a cipher not registered as an AEAD and overrides not denied, has a client that drops it |
| Connection.OwnConfigAcceptedExactlyWhen | config/classes.go:142-150 | the store's own configuration is accepted if and only if it encrypts only in its tail |
| ConfigVersions.Host.UpdateConfig | engine/store/admin_config.go:58-93 | accepted exactly under its checks; publishes without KDF parameters and installs the request |
| ConfigVersions.AcceptsExactlyWhen | engine/store/admin_config.go:63-83 | a request replaces the current configuration if and only if every field of it is legal, no immutable field it sets differs, and a locked NoDelete is kept |
| ConfigVersions.Host.RefreshGovernance | engine/store/liveness.go:111-145 | a newer valid version replaces the memory, an older never |
| ConfigVersions.ConfigHistory | engine/store/config_persist.go:96-116 | every version defaulted, newest first |
| ConfigVersions.MemoryFollowsDisk | engine/store/admin_config.go:58-93 | over every interleaving on any number of hosts versions never change, version numbers never go back, and memory is the named version defaulted, up to KDF parameters |
| ConfigVersions.NoKdfOnDisk | engine/store/config_persist.go:30-59 | over every run no published version holds KDF parameters |
| ConfigVersions.GivesUpExactlyWhen | engine/internal/named/version.go:146-176 | over every interleaving an update under its mutex ends exactly when it published or claimed 64 times, and gives up only after 64 other versions got in before it |
| ConfigVersions.MutexHeldExactlyWhile | engine/store/admin_config.go:58-93 | over every run a host's mutex is held exactly while one of its updates is between scan and end, never by two |
| ConfigVersions.RefreshIsUndisturbed | engine/store/liveness.go:111-145 | the steps of one refresh, undisturbed, install the latest version if it is newer and change nothing else |
| ConfigVersions.CreatedIsConsistent | engine/store/config_persist.go:30-59 | a new store starts consistent |
| ConfigVersions.PinnedForLife | config/registry.go:31-73 | path topology, manifest encoding, manifest crypto and content hasher are fixed in every version and memory of every run |
| ConfigVersions.ChangeableExactlyWhen | engine/store/admin_config.go:63-92 | which immutable fields one accepted update can change, if and only if |
| ConfigVersions.ImmutableForLifeExactlyWhen | config/registry.go:31-73 | for every immutable field: it keeps its value in every copy over every run if and only if it was left unset or no request may leave it out |
| DeletionLock.LockHoldsExactlyWhen | engine/store/admin_config.go:63-92 | from any reached state at NoDelete in which no host is writing, the policy survives every run of updates that keep the lock if and only if every host that sees the lock sees the policy, every checked update asks for it, and no refresh that can take effect brings one without the other |
| DeletionLock.PolicyStays | engine/store/admin_config.go:75-92 | under that condition every step of every such run keeps the policy and the condition, with calls at any stage |
| DeletionLock.OneUpdateIsEnough | engine/store/admin_config.go:63-92 | for every store created with the lock and another policy, on one host and on two: a run to a store locked at NoDelete, and one more update that drops it |
| DeletionLock.LockedNoDeleteFallsInTwoUpdates | engine/store/admin_config.go:75-83 | against the configuration a call sees the policy survives any one accepted update, and falls to two, the first of which leaves the lock out |
| Pipeline.DrainedIsWhole | engine/pipeline/runner.go:80-163 | for every chain and every interleaving of reads at its levels: once the far end reports EOF every level has, and each has handed out exactly its whole stream |
| Pipeline.DrainsExactlyWhen | engine/pipeline/runner.go:214-247 | a chain can be drained if and only if no stage rejects what reaches it |
| Pipeline.BuildPut | engine/pipeline/runner.go:85-163 | fails exactly on a stage without a factory; one hasher per level, the last shared with BlobRef |
| Pipeline.PutPipeline.Tee | engine/pipeline/runner.go:100-160 | one read through a tee: the hashers of that level absorb the chunk and no other does |
| Pipeline.PutPipeline.Drain | engine/pipeline/runner.go:80-163 | over any reads every hasher has absorbed what its level handed out |
| Pipeline.PutPipeline.Finalize | engine/pipeline/runner.go:169-196 | ContentHash, BlobRef and the stage entries are taken from those streams |
| Pipeline.BuildGet | engine/pipeline/runner.go:225-247 | the decoders last to first; fails exactly on a stage without a factory |
| Pipeline.GetUndoesPut | engine/pipeline/runner.go:214-247 | after j decoders the stream is what it was after n - j encoders |
| Pipeline.StoreAndLoad | engine/pipeline/runner.go:85-247 | end to end over any two drains: the input comes back, and every recorded hash is that of a whole stream |
| Pipeline.ValidateAlgos | engine/pipeline/runner.go:259-270 | accepts if and only if all stages are known and an AEAD is last |
| Pipeline.ValidateComposition | engine/pipeline/runner.go:282-308 | accepts if and only if every AEAD is last, unknown stages passed over |
| Header.ReadsBackWritten | engine/artifact/header.go:57-138 | reading what was written gives the header and its length, whatever follows |
| Header.WritesExactlyWhen | engine/artifact/header.go:57-91 | a header is written if and only if its fields are legal, and which refusal otherwise |
| Header.RefusalsToRead | engine/artifact/header.go:103-138 | exactly which bytes get which refusal |
| Header.ValidUtf8ExactlyWhen | engine/artifact/header.go:81-135 | the key id test accepts exactly the encodings of sequences of Unicode scalar values, section 3 of RFC 3629 |
| Header.WritesBackRead | engine/artifact/header.go:57-138 | what is read would be written byte for byte |
| Header.HeadersArePrefixFree | engine/artifact/header.go:57-91 | no header is the beginning of another |
| Header.AADsAreDistinct | engine/artifact/crypto.go:256-265 | over all headers no two blocks share additional data, nor a block and a Paranoid body |
| ManifestCodec.PipelineRoundTrip | engine/artifact/body.go:235-283 | stages survive conversion |
| ManifestCodec.BodyRoundTrip | engine/artifact/body.go:79-207 | the body comes back up to what is not stored, or fails exactly on an unrepresentable time |
| ManifestCodec.ReadsExactlyWhen | engine/artifact/body.go:140-207 | exactly which parsed bodies become manifests, and the one reason the others do not |
| ManifestCodec.CheckHandleRefs | engine/artifact/validate.go:35-51 | accepts if and only if all edges are non-empty and distinct |
| ManifestCodec.ValidatesExactlyWhen | engine/artifact/validate.go:17-112 | a manifest passes if and only if it is well formed, by kind, slot, identity and edges; which refusal otherwise |
| ManifestCodec.EncodesExactlyWhen | engine/artifact/manifest.go:29-53 | a manifest encodes if and only if it is well formed, its header is legal, there is a key where one is needed, and its body is JSON; a missing key is named first |
| ManifestCodec.FirstThatOpens | engine/artifact/crypto.go:303-311 | the first candidate that opens |
| ManifestCodec.DecryptsExactlyWhen | engine/artifact/crypto.go:303-311 | the plaintext is recovered if and only if the write key is a candidate |
| ManifestCodec.SealedBlocksOpen | engine/artifact/crypto.go:155-235 | the three sealed blocks come back byte-exact |
| ManifestCodec.DecodeUndoesEncode | engine/artifact/manifest.go:29-109 | in all three modes decoding undoes encoding exactly when the file is within the read limit and both times are representable |
| ManifestCodec.WrongKeysReadNothing | engine/artifact/crypto.go:194-311 | without the write key no encrypted manifest decodes |
| ManifestCodec.CorruptedExactlyWhen | engine/artifact/crypto.go:244-254 | decoding reports corruption if and only if the file is Sealed, has candidate keys, parses, and has a reached block that is not quoted base64 |
| ManifestCodec.EncodedIsNeverCorrupted | engine/artifact/crypto.go:155-254 | no file this codec writes is reported as corrupted, whatever keys it is read with |
| ManifestCodec.UnsealedExtIsCorrupted | engine/artifact/crypto.go:244-254 | a manifest written under a Sealed header without sealing its block is reported as corrupted |
| LimitGuard.Reader.ReadInto | engine/store/put_limit.go:26-42 | one read, with the 64-bit budget and its overflow |
| LimitGuard.DeliversNextBytes | engine/store/put_limit.go:26-42 | over every run the next bytes of the source, never more than one past the limit |
| LimitGuard.FittingSourcePasses | engine/store/put_limit.go:10-15 | a source that fits is delivered whole, without a size error, for any chunking, with EOF exactly when the reader beneath says so |
| LimitGuard.OneReadIsEnough | engine/store/put_limit.go:26-42 | with a large enough buffer one read gives the whole source and EOF, or one byte past the limit and the size error |
| LimitGuard.OversizedSourceIsCut | engine/store/put_limit.go:10-15 | otherwise never EOF, and a size error exactly from the byte past the limit on, at every later read |
| LimitGuard.WorksExactlyWhen | engine/store/put_limit.go:32-35 | a fresh guard does not panic if and only if the limit is below the largest int64 |
| NamedStore.PathInjective | engine/internal/named/version.go:54-80 | two artifacts never share a path |
| ScopedStore.NewScopedSystemStore | extension/scopedstore.go:45-57 | a scope is granted if and only if the name is not empty and has no dot, slash or white space |
| ScopedStore.ScopedSystemStore.PutCell | extension/scopedstore.go:77-104 | writes the scoped cell; an empty name changes nothing |
| NamedStore.Backing.ClaimVersion | engine/internal/named/version.go:110-177 | under any interference between scan and create the version claimed was nobody's and nothing else changes; undisturbed it is the next one; it gives up only after as many lost races as the bound |
| NamedStore.Backing.Prune | engine/internal/named/version.go:229-258 | removes every version with at least `keep` newer ones, except those whose removal fails |
| NamedStore.KeepsNewest | engine/internal/named/version.go:229-258 | what is left are exactly the newest `keep`, or all where there are fewer |
| NamedStore.Backing.LoadEnvelope | engine/systemstore/systemstore.go:317-342 | the highest version answers, or the cell when there is none |
| NamedStore.Backing.RemoveAll | engine/internal/named/version.go:260-282 | removes every version it can, and succeeds exactly when it could remove all |
| NamedStore.Backing.Delete | engine/systemstore/systemstore.go:347-365 | the payload pointed to, then the versions, then the cell, each failure where the code stops |
| NamedStore.NextExactlyWhen | engine/internal/named/version.go:146-176 | the version number a claim takes is the highest plus one, or 1 |
| NamedStore.DeleteReads | engine/systemstore/systemstore.go:317-365 | what is read after a delete: the highest version that could not be removed, else the cell that could not, else nothing; nothing if and only if it reports success |
| NamedStore.PayloadGoneExactlyWhen | engine/systemstore/systemstore.go:317-365 | a payload goes if and only if the active envelope points to it, can be opened, and the payload can be deleted |
| NamedStore.CellPutReads | engine/systemstore/systemstore.go:317-333 | a cell put answers if and only if the name has no versions, and otherwise changes no read |
| ScopedStore.ScopedSystemStore.PutVersion | engine/systemstore/systemstore.go:205-277 | claims the next version of the scoped name and prunes to `keep`; an empty name changes nothing |
| ScopedStore.ScopedSystemStore.Delete | extension/scopedstore.go:116-122 | the delete of the scoped name, partial failures included; it succeeds exactly when nothing is left to be read |
| ScopedStore.ScopesApart | extension/scopedstore.go:152-162 | no path of one scope begins with the prefix of another |
| ScopedStore.ScopesDoNotInterfere | extension/scopedstore.go:20-27 | over any calls through one scope, inline or pointing to a payload: listings and envelopes of another scope stay as they were, and so does a read if and only if no delete of the run deleted the payload it points to |
| ScopedStore.IsolatedExactlyWhen | engine/systemstore/systemstore.go:352-356 | a read is the same after every run through another scope if and only if its artifact does not point to a payload that can be read |
| ScopedStore.PutIsRead | engine/systemstore/systemstore.go:205-333 | a put is what the next read finds: a version always, a cell if and only if the name has no versions; a pointer reads as its payload |
| ScopedStore.WalkCoversScope | extension/scopedstore.go:128-132 | a listing misses no name of the scope with the prefix and reports nothing outside the scope |
| ScopedStore.WalkedExactlyThese | engine/internal/named/version.go:184-227 | of a name with the prefix exactly its cell and its highest version are reported |
| ScopedStore.WalkIsExactExactlyWhen | engine/internal/named/version.go:184-227 | a listing is exact on every store if and only if the prefix does not reach into a version number or the cell suffix |

## Left out

- Interruption.SeriesFinishesExactlyWhen: an index that is lost or replaced between two attempts is left out.
- Lease.Slot.Acquire: the agent tag and acquisition time of a record are not modelled, they only reach
  error messages.
- Connection.Connect: the texts that name the diverging fields are not modelled.
- ScopedStore.ScopedSystemStore.PutVersion: undisturbed; races with other writers are in ClaimVersion.
  Version numbers are taken to stay within ten digits; a veto is a refused call.
- NamedStore.Backing.Delete: the deletion of a payload that fails halfway, between row and file, is left out.
- ScopedStore.WalkIsExactExactlyWhen: the alphabetical order of a listing and the skipping of files
  that fail verification are not modelled.
- Pipeline.BuildPut: an unknown hash algorithm, read errors of the source and closing abandoned stages are
  left out; a chain that stops early is a run that is not drained.
- Unlocking.ClosedForGoodExactlyWhen: an injected resolver belongs to the host, and what its own Close does
  is left out.
- Real cryptography, key derivation, hashing, compression, JSON, base64 and time formatting: functions
  with laws; wiping of key bytes is not observable in the model.
- ComputeManifestDigest and VerifyManifestDigest: a digest is the manifest itself here.
- The staging sweep, blobs and their garbage collection, the media reconciliation, chunking and packs.
- Descriptor replicas and their healing, InitStore and reinitialisation, passphrase changes, recovery kits.
- Heartbeat: its timer; each of its Renew calls is a step.
- Context cancellation and timeouts: a call may stop between any two steps.
- Events other than the sentinel's Degraded and Recovered, logging, error texts.
- HTTP, FUSE and WebDAV adapters, flag parsing and wiring: no hard property of their own.
