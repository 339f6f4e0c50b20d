# Verified model of the document server

Dafny proofs about the parts of the server whose guarantees rest on the order of reads
and writes, on compare-and-set, or on loops over text and counters. `dafny verify
dfyconfig.toml` checks all of it.

## What is modelled

**Document storage** (`DocStorage`, `DocStorageRuns`, `DocStorageDeletes`,
`DocStorageEffects`, `DocStorageLimits`, `DocTables`).
One document is an optional snapshot with a version and a log of update rows. Pushing,
the two reads and the commit of a rebuild, the two reads, the choice and the commit of
an index purge, the two reads of a load, the read and the write of a history entry,
recovery and hard deletion are separate steps, any number of tasks is in flight, and all steps interleave.
An update is a set of operations plus the set of operations it knows to be deleted;
merging is union, and a purge drops the content of deleted operations but keeps their
tombstones. The steps are also written as a class that changes the tables in place.

**Ledger and cached lists** (`Ledger`, `LedgerCache`, `LedgerService`, `LedgerLimits`,
`TagWrites`, `ValueWrites`). Writers change a row and later bump the workspace revision;
a list request reads the revision, the rows, the grants and the default roles at four
instants. Tag changes retry a compare-and-set five times; title and trash writes compare
a base revision. Each is a step system over any number of callers.

**Index queue** (`IndexQueue`, `IndexWorker`, `IndexStarvation`). The pending and the indexed generation,
the single worker, and the debounced timer that rebuilds the same index beside it.

**Permissions and search** (`DocRole`, `Permission`, `SqlCondition`, `SearchQuery`,
`Search`, `SearchPaging`). One policy written three times, and the compiler from the query DSL to an SQL
condition. A condition is a flat token list; reading it uses SQL's precedence and
three-valued logic, so missing parentheses or a wrong `$k` would show.

**Algorithms** (`TemplateSearch`, `Csv`, `UserCsv`, `Markdown`, `TagOrder`, `IndexPurge`,
`AttackCounter`, `SignupLimiter`, `AccessCache`). Each loop is proved against a
specification whose own properties are lemmas.

## Assumptions

- Each `$transaction`, `updateMany`, `deleteMany`, `upsert` and `findMany` is one atomic
  step.
- `FreshVersion`: a snapshot version (a millisecond date) is never used twice. Without it
  `SameMillisecondLosesUpdate`.
- `RisingId` (purges only): log ids become visible in increasing order. Without it
  `LateIdLosesUpdate`.
- Runs without hard deletes, where the theorems about what is stored say so; the guard they
  need of a commit is `CreateGuard`. What a hard delete leaves is `HardDeleteIsFinalIff`, with
  the runs `HardDeleteUndone`, `HardDeleteRecovered` and `HardDeleteLeavesHistory`.
- Bumps succeed and no create inserts late (`LedgerCache.Safe`). Without the first
  `SwallowedBumpLeavesStaleIff`, without the second `LateInsertLeavesListStale`; either way
  clients catch up at the next bump (`CatchesUp`).
- `Harmless` steps, as in every run with `Atomic` rebuilds of an index. Without them
  `OvertakenRebuildLosesUpdate`.
- Clocks do not run backwards in `AttackCounter`, `SignupLimiter` and `AccessCache`.

## Where code and comments part

- The comment on `changeTags` says that tag operations give the same result in any order.
  They do not; `OrderIrrelevantIff` says exactly when they do.
- `createDoc` calls an extra bump harmless and treats an earlier read as good enough to
  skip one. A delete in between makes the skipped bump matter: `UnannouncedIff`,
  `LateInsertBreaksCoherence`.
- The three forms of the permission policy differ for empty role strings and for the
  manual workspace: `BatchAgreesIff`, `SqlAgreesIff`, and for examples
  `BatchDiffersHappens`, `SqlDiffersHappens`.
- A failing document is meant to be retried later; twenty that always fail keep every
  younger document waiting for ever: `NeverReached`, `ReachedIff`.
- Search accepts a `cursor` and returns a `nextCursor`, but reads only `skip`, and pages are
  ordered by score alone: `CursorEndsIff`, `PagesCoverAllIff`.

## Main results

- Storage: `NoUpdateLost`, `DocumentAfterReset`, `OldReadsNeverCommit`, `PurgeIsAtomic`,
  `PurgeIsScrubIff`, `PurgedStaysOut`, `LoadCompleteIff`, `HardDeleteIsFinalIff`, `OnlyLaterPushesStored`.
- Ledger: `CacheCoherence`, `CacheShowsReadableDocuments`, `UnannouncedIff`, `CatchesUp`,
  `TagChangesLinearize`, `OrderIrrelevantIff`, `OneValuePerRevision`, `RepliesHoldAtOneInstant`.
- Index queue: `QueueIsFreshIff`, `AlwaysReachedIff`.
- Permissions and search: `OrdinaryMemberCan`, `BatchAgreesIff`, `SqlAgreesIff`, `CompileKeepsMeaning`,
  `SearchSelectsReadableMatches`, `PagesCoverAllIff`.
- Algorithms: `LcsIsWholeQueryIff`, `TableComesBack`, `WrittenListIsParsed`, `DocumentRoundTripIff`, `JudgeIsExact`,
  `Summarize`, `AnyHourIsLimited`, `StalenessIsBounded`, `InvalidationSettlesIff`.

## Model

| member | source | states |
|---|---|---|
| `DocStorage.NextKeepsInv` | backend/src/modules/sync/sync.service.ts:123-278 | every step of pushes, rebuilds, purges, recoveries, loads and hard deletes keeps the invariant over everything in flight: a snapshot somebody read is the one its version was used for, and while that version is current no row read with it has gone |
| `DocStorage.NextKeepsTask` | backend/src/modules/sync/sync.service.ts:231-278 | what a task between its reads and its commit knows survives every step of every other task |
| `DocStorage.NextKeepsLaterRowsNewer` | backend/src/modules/discovery/index-purge.service.ts:68-78 | with log ids becoming visible in increasing order, every row a purge did not read is newer than the rows it read |
| `DocStorageRuns.RebuildKeepsDocumentIff` | backend/src/modules/sync/sync.service.ts:242-278 | a rebuild that writes leaves the document as it was exactly when every row it merged is still in the log or stored anyway; one that does not write changes nothing |
| `DocStorageRuns.RebuildTxKeepsIff` | backend/src/modules/sync/sync.service.ts:242-278 | the same with no assumption about versions: exactly when all it merged is stored anyway and the snapshot it replaces is in what it merged or leaves |
| `DocStorageRuns.PurgeIsScrubIff` | backend/src/modules/discovery/index-purge.service.ts:113-119 | a purge that commits takes exactly the chosen operations from what readers see, all tombstones kept, exactly when every row it read that has gone, and every row it did not read, is covered by what was stored or merged |
| `DocStorageRuns.RisingIdsGuardPurge` | backend/src/modules/discovery/index-purge.service.ts:213-223 | with rising ids the count of newer rows catches every row the purge has not read |
| `DocStorageRuns.StepIsAtomic` | backend/src/modules/sync/sync.service.ts:123-278 | every single step acts on the document (snapshot united with log) like a push, a scrub, a replacement or nothing |
| `DocStorageRuns.PurgeIsAtomic` | backend/src/modules/discovery/index-purge.service.ts:198-272 | an applied purge does at its commit, to the whole document and its histories, what the purge of one moment would: readers see what they saw less the chosen operations, and every tombstone stays; a conflicted one changes nothing |
| `DocStorageEffects.ScrubHidesExactly` | backend/src/modules/discovery/index-purge.service.ts:113-119 | for every document, choice and later update: readers see what they would have seen without the purge, less what it removed, and no operation is kept that is also deleted |
| `DocStorageEffects.PurgeHidesExactly` | backend/src/modules/discovery/index-purge.service.ts:198-272 | the stored document after a purge that commits shows what it showed before less the chosen operations, with log and histories empty |
| `DocStorageEffects.PurgedStaysOut` | backend/src/modules/discovery/index-purge.service.ts:15-33 | and after whatever is pushed later it shows that next to what the purge left, still less what it removed |
| `DocStorageEffects.PurgeRunsThrough` | backend/src/modules/discovery/index-purge.service.ts:51-134 | a purge nobody disturbs ends in one snapshot of what readers saw less its choice, at the version given, without log and histories |
| `DocStorageEffects.RebuildRunsThrough` | backend/src/modules/sync/sync.service.ts:199-292 | a rebuild nobody disturbs ends in one snapshot of the whole document at the version given, with an empty log and the histories untouched |
| `DocStorageEffects.NothingToRebuild` | backend/src/modules/sync/sync.service.ts:199-225 | with nothing stored a rebuild ends before its commit and changes nothing |
| `DocStorageEffects.RecoveryPutsEntryBack` | backend/src/modules/doc/doc-history.service.ts:47-78 | a recovery puts back the history entry it was started for, as it was then, whatever happened in between |
| `DocStorageEffects.SaveKeepsWhatItRead` | backend/src/modules/doc/doc-history-scheduler.service.ts:20-65 | a history save keeps the snapshot it read and changes nothing else |
| `DocStorageEffects.PushAddsRow` | backend/src/modules/sync/sync.service.ts:98-132 | a push adds its row and nothing else |
| `DocStorageRuns.RunIsAtomic` | backend/src/modules/sync/sync.service.ts:98-292 | every run of interleaved tasks does to the document what its effects do one at a time |
| `DocStorageRuns.GuardsHold` | backend/src/modules/sync/sync.service.ts:242-278 | without hard deletes the conditions under which steps are atomic always hold; only purges need rising ids |
| `DocStorageRuns.OnlyPushesAdd` | backend/src/modules/sync/sync.service.ts:98-292 | in a run whose commits are guarded (every run without hard deletes: GuardsHold) and in which nothing is purged, recovered or hard deleted, the document is what it was plus exactly the updates pushed |
| `DocStorageRuns.NoUpdateLost` | backend/src/modules/sync/sync.service.ts:228-278 | in every run of pushes, rebuilds, loads and history saves, snapshot united with log is exactly the set of pushed updates |
| `DocStorageRuns.OldReadsNeverCommit` | backend/src/modules/sync/sync.service.ts:231-278 | after a recovery, purge or rebuild has written the snapshot, nothing that read before it ever writes, on the CAS branch and on the create branch |
| `DocStorageRuns.StaleForever` | backend/src/modules/sync/sync.service.ts:244-271 | a snapshot read that cannot pass the check of a commit never can again |
| `DocStorageRuns.StoredAfterReset` | backend/src/modules/doc/doc-history.service.ts:47-78 | after a recovery or an applied purge the document is the recovered or purged content plus exactly the updates pushed since, whatever was in flight |
| `DocStorageRuns.DocumentAfterReset` | backend/src/modules/doc/doc-history.service.ts:47-78 | the same from the start: whatever ran before (hard deletes apart), only later pushes add to what a recovery or purge made |
| `DocStorageRuns.RemovedStaysHidden` | backend/src/modules/discovery/index-purge.service.ts:15-33 | what a purge removed stays invisible even when an old copy pushes it again |
| `DocStorageRuns.LoadInventsNothing` | backend/src/modules/sync/sync.service.ts:30-59 | a load never returns an operation nobody pushed, whatever happens between its two reads |
| `DocStorageRuns.LoadCompleteIff` | backend/src/modules/sync/sync.service.ts:30-59 | a load returns the whole document exactly when every row that left the log between its two reads has its content in the snapshot it read or in the rows it found |
| `DocStorageRuns.LoadComplete` | backend/src/modules/sync/sync.service.ts:30-59 | in particular, a load whose snapshot is still current at its second read returns the whole document |
| `DocStorageLimits.SameMillisecondLosesUpdate` | backend/src/modules/sync/sync.service.ts:226-253 | a run in which two snapshots share a millisecond and a rebuild drops an update for good |
| `DocStorageLimits.LateIdLosesUpdate` | backend/src/modules/discovery/index-purge.service.ts:256-260 | a run in which a smaller id becomes visible late and the purge deletes a row it never read |
| `DocStorageDeletes.HardDeleteIsFinalIff` | backend/src/modules/discovery/doc-gc.service.ts:33-62 | a hard deletion is final, until somebody pushes again, exactly when no recovery and no history save is in flight, and no rebuild or purge that read the log while there was no snapshot |
| `DocStorageDeletes.OnlyLaterPushesStored` | backend/src/modules/discovery/doc-gc.service.ts:33-62 | after a final deletion snapshot, log and histories only ever hold what is pushed later, in every run |
| `DocStorageDeletes.NextKeepsCleared` | backend/src/modules/sync/sync.service.ts:231-278 | every step keeps it that way: a snapshot read before the deletion is out of date for good |
| `DocStorageLimits.HardDeleteUndone` | backend/src/modules/sync/sync.service.ts:254-273 | a run in which the first-snapshot branch brings a hard-deleted document back |
| `DocStorageLimits.HardDeleteRecovered` | backend/src/modules/doc/doc-history.service.ts:47-78 | a run in which a recovery under way brings it back |
| `DocStorageLimits.HardDeleteLeavesHistory` | backend/src/modules/doc/doc-history-scheduler.service.ts:20-65 | a run in which a history save under way leaves an old version readable |
| `DocStorageLimits.TornLoadMissesUpdates` | backend/src/modules/sync/sync.service.ts:30-40 | a run in which a rebuild between the two reads of a load makes it return nothing of a stored document |
| `DocTables.MergeAll` | backend/src/modules/sync/sync.service.ts:215-225 | the loop over snapshot and rows computes the union of everything read, in whatever order |
| `DocTables.Boundary` | backend/src/modules/discovery/index-purge.service.ts:78 | the noted boundary is the largest id read, and absent only when nothing was read |
| `DocTables.DocumentTables.InsertUpdate` | backend/src/modules/sync/sync.service.ts:123-132 | an inserted row adds its content to the document and changes nothing else |
| `DocTables.DocumentTables.PushUpdate` | backend/src/modules/sync/sync.service.ts:98-197 | a push adds its update, and at fifty rows moves the whole log into the snapshot |
| `DocTables.DocumentTables.CommitRebuild` | backend/src/modules/sync/sync.service.ts:199-292 | the in-place transaction is the rebuild step, and reports whether it wrote |
| `DocTables.DocumentTables.CommitPurge` | backend/src/modules/discovery/index-purge.service.ts:198-272 | the in-place transaction is the purge step, and reports whether it applied |
| `DocTables.DocumentTables.Recover` | backend/src/modules/doc/doc-history.service.ts:47-78 | recovery replaces snapshot and log by the history entry, or does nothing when there is none |
| `DocTables.DocumentTables.HardDelete` | backend/src/modules/discovery/doc-gc.service.ts:33-62 | hard deletion leaves the tables as for a document never seen |
| `Ledger.UnannouncedIff` | backend/src/modules/discovery/doc-meta-write.service.ts:72-139 | of all ledger and permission writers, the only write that changes lists without a bump is a create that found a row and inserts one |
| `Ledger.CasMeans` | backend/src/modules/discovery/doc-meta-write.service.ts:251-361 | a compare-and-set of title, trash or tags that meets its revision stores the value at the next one, every other field, row and grant unchanged; one that does not changes nothing |
| `Ledger.CreateMeans` | backend/src/modules/discovery/doc-meta-write.service.ts:89-138 | a new row has the title and mode given and first revisions; a row that is there stays |
| `Ledger.DeleteMeans` | backend/src/modules/discovery/doc-gc.service.ts:33-62 | a delete takes the row and just its grants, and is announced when there was a row |
| `Ledger.UpsertMetaMeans` | backend/src/modules/doc/doc.service.ts:26-55 | title and mode become what is given and stay otherwise, and nothing else changes |
| `Ledger.PublicMeans` | backend/src/modules/doc/doc.service.ts:57-75 | publishing opens the document, with the mode given unless it is empty; revoking closes it when there is a row |
| `Ledger.GrantMeans` | backend/src/modules/doc/doc.service.ts:85-101 | a grant stores exactly the role at that document and user; without a row nothing happens |
| `Ledger.RevokeMeans` | backend/src/modules/doc/doc.service.ts:103-113 | after a revoke there is no grant there; every other grant and the rows are as they were |
| `Ledger.DefaultRoleMeans` | backend/src/modules/doc/doc.service.ts:121-133 | the default role is the one given, on a blank row if there was none; nothing else changes |
| `Ledger.DirectoryRowsAre` | backend/src/modules/permission/permission.service.ts:119-155 | the directory the policy reads says what the rows say, about this workspace and no other |
| `Ledger.CurrentListShows` | backend/src/modules/discovery/discovery.service.ts:37-60 | a list shows title, tags, mode and trash as the row has them |
| `Ledger.InsertChangesListIff` | backend/src/modules/discovery/discovery.service.ts:61-92 | inserting a row changes a list exactly when the list shows the new row |
| `Ledger.CurrentListIsReadable` | backend/src/modules/discovery/discovery.service.ts:61-68 | the list built from the batched filter holds exactly the ledger documents the user may read |
| `Ledger.PolicyIsLocal` | backend/src/modules/permission/permission.service.ts:194-235 | the default role of one document has no say about another |
| `LedgerCache.NextKeepsInv` | backend/src/modules/discovery/discovery-revision.service.ts:44-65 | every interleaved step of writers, bumps and readers keeps cache coherence, also for readers half way through their reads |
| `LedgerCache.CacheCoherence` | backend/src/modules/discovery/discovery.service.ts:37-92 | in every reachable state with no writer between write and bump, a client whose revision is the server's holds exactly the current list, although rows, grants and default roles were read at different instants |
| `LedgerCache.CacheShowsReadableDocuments` | backend/src/modules/discovery/discovery.service.ts:31-93 | for the permission policy itself: the cached list is the readable part of the ledger as it is now, entry by entry |
| `LedgerCache.QuietFetch` | backend/src/modules/discovery/discovery.service.ts:31-93 | a list request nobody disturbs leaves the client the current list at the current revision |
| `LedgerCache.WriteThenBump` | backend/src/modules/discovery/discovery-revision.service.ts:44-65 | a writer has written before its bump, and the bump raises the revision by one |
| `LedgerCache.QuietCreate` | backend/src/modules/discovery/doc-meta-write.service.ts:89-138 | a create left alone writes with what its read found, and is announced when that was nothing |
| `LedgerCache.LateInsertBreaksCoherence` | backend/src/modules/discovery/doc-meta-write.service.ts:89-138 | the one excluded write breaks coherence for a client exactly when its user may see the new row |
| `LedgerCache.SwallowedBumpLeavesStaleIff` | backend/src/modules/discovery/discovery-revision.service.ts:48-62 | a swallowed bump leaves a client stale at an equal revision exactly when the write changed its list |
| `Ledger.TitleChangesListIff` | backend/src/modules/discovery/discovery.service.ts:61-92 | a new title changes exactly the lists that show the document |
| `LedgerCache.CatchesUp` | backend/src/modules/discovery/discovery-revision.service.ts:37-65 | whatever bumps were swallowed and rows inserted late, coherence is back with the next bump that succeeds |
| `LedgerLimits.LateInsertLeavesListStale` | backend/src/modules/discovery/doc-meta-write.service.ts:89-138 | a whole run, with every bump made, that ends in a stale list at an equal revision |
| `LedgerService.ReachedMeans` | backend/src/modules/discovery/discovery-revision.service.ts:90-103 | a listener is told once per registration unless it throws; nobody else misses out |
| `LedgerService.RegisteredIsTold` | backend/src/modules/discovery/discovery-revision.service.ts:75-77 | a listener that registers is told of every later change after those registered before it, unless it throws |
| `LedgerService.Service.Bump` | backend/src/modules/discovery/discovery-revision.service.ts:44-65 | a successful bump raises the revision by one and then tells the listeners, each of which finds the new revision and the new tables; a failed one does neither |
| `LedgerService.Service.CreateDoc` | backend/src/modules/discovery/doc-meta-write.service.ts:72-139 | creation is idempotent: sent again it changes neither row nor revision and tells nobody; a new row has the title and mode given, leaves all others alone, and is announced |
| `LedgerService.Service.DeleteDoc` | backend/src/modules/discovery/doc-gc.service.ts:33-62 | deletion takes the row and just its grants, and is announced exactly when there was a row |
| `LedgerService.Service.SetTitle` | backend/src/modules/discovery/doc-meta-write.service.ts:296-381 | not found, stale with the current values, unchanged without a bump, or written at the next revision, with every other field and row as it was, and announced |
| `LedgerService.Service.GrantDocUserRole` | backend/src/modules/doc/doc.service.ts:85-101 | a grant needs a ledger row, stores exactly the role given, and is then announced, changed or not |
| `LedgerService.Service.RevokeDocUserRole` | backend/src/modules/doc/doc.service.ts:103-113 | after a revocation there is no grant there, every other one and the rows are as they were, and it is announced, whether or not there was one |
| `LedgerService.Service.UpdateDocDefaultRole` | backend/src/modules/doc/doc.service.ts:121-133 | the default role is the one given, on a new row if need be, and it is announced |
| `TagWrites.NextTags` | backend/src/modules/discovery/doc-meta-write.service.ts:235-239 | the two loops compute the change applied to the tags |
| `TagWrites.ApplyMeans` | backend/src/modules/discovery/doc-meta-write.service.ts:235-239 | the tags after a change are (T - remove) + (add - remove), and no duplicate is introduced |
| `TagWrites.KeptInOrder` | backend/src/modules/discovery/doc-meta-write.service.ts:235-239 | of the old tags exactly those not removed stay, in their order |
| `TagWrites.AddedInOrder` | backend/src/modules/discovery/doc-meta-write.service.ts:235-239 | behind them come, in their own order, the first of each added tag that is neither removed nor there |
| `TagWrites.ReplayIsNoOp` | backend/src/modules/discovery/doc-meta-write.service.ts:207-212 | a change sent again changes nothing, not even the order |
| `TagWrites.OrderIrrelevantIff` | backend/src/modules/discovery/doc-meta-write.service.ts:207-212 | two changes give the same tags in either order exactly when neither removes what the other adds (the comment claims any order) |
| `TagWrites.NextKeepsInv` | backend/src/modules/discovery/doc-meta-write.service.ts:228-276 | every step of any number of concurrent tag calls keeps what each call knows about the row's history |
| `TagWrites.TagChangesLinearize` | backend/src/modules/discovery/doc-meta-write.service.ts:228-276 | the row is the fold of the committed changes in commit order, without duplicates; every ok names an instant of its call at which its change was in effect, and commits at most once, there |
| `TagWrites.GivesUpOnlyUnderContention` | backend/src/modules/discovery/doc-meta-write.service.ts:228-284 | a call gives up only if others committed to the row at least five times while it ran |
| `TagWrites.TagRow.CompareAndSet` | backend/src/modules/discovery/doc-meta-write.service.ts:251-260 | the conditional update applies only at the revision read |
| `TagWrites.TagRow.ChangeTags` | backend/src/modules/discovery/doc-meta-write.service.ts:213-285 | the retry loop: done means applied, at a revision of at least one; an undisturbed attempt succeeds; an unneeded change writes nothing once the row is owned; giving up means five foreign commits |
| `ValueWrites.NextKeepsInv` | backend/src/modules/discovery/doc-meta-write.service.ts:311-380 | every step of any number of concurrent title and trash writes keeps the single lineage of the row |
| `ValueWrites.OneValuePerRevision` | backend/src/modules/discovery/doc-meta-write.service.ts:320-335 | a revision stands for one value, at whatever two instants it is seen |
| `ValueWrites.AtMostOneWriterPerBase` | backend/src/modules/discovery/doc-meta-write.service.ts:344-361 | of all writers of a field holding the same base revision at most one changes the value |
| `ValueWrites.RepliesHoldAtOneInstant` | backend/src/modules/discovery/doc-meta-write.service.ts:328-361 | an ok with a change means that at one instant of the call that field went from another value at the base revision to the requested value at the next, and the other field stood; an ok without means the value was there; a stale reply reports the values of an instant of the call |
| `ValueWrites.OnlyAcceptedWritesChange` | backend/src/modules/discovery/doc-meta-write.service.ts:344-361 | nothing else changes the row: every change is that of one call, which was told so |
| `ValueWrites.UndisturbedWrite` | backend/src/modules/discovery/doc-meta-write.service.ts:311-361 | left alone, a write on the current revision succeeds, with a change exactly when it brings another value |
| `IndexQueue.StepKeepsPromiseIff` | backend/src/modules/search/search-index-queue.service.ts:59-95 | a step breaks the promise that equal generations mean a complete index, at once or by the mark that follows, exactly when it replaces an index by less than the body with nothing pending, or just before the mark up to the pending generation |
| `IndexQueue.QueueIsFreshIff` | backend/src/modules/search/search-index-queue.service.ts:59-95 | the promise holds throughout a run exactly when no step of it is harmful in that sense; then the indexed generation never exceeds the pending one |
| `IndexQueue.InvKeptIff` | backend/src/modules/search/search-index-queue.service.ts:59-95 | a step keeps the inductive invariant exactly when it is not harmful |
| `IndexQueue.AtomicQueueIsFresh` | backend/src/modules/search/indexer.service.ts:70-122 | with rebuilds that read and replace at once (worker and debounced timer alike) the queue keeps its promise in every run |
| `IndexQueue.MarksNeverFall` | backend/src/modules/search/search-index-queue.service.ts:79-86 | neither generation ever decreases |
| `IndexQueue.PushMeans` | backend/src/modules/sync/sync.service.ts:143-156 | a push raises the pending generation and the body by one, notes the time, and leaves every other document alone |
| `IndexQueue.WorkerRound` | backend/src/modules/search/search-index-queue.service.ts:59-95 | a round of the worker nobody disturbs indexes the whole body and marks the pending generation; a failed one changes nothing |
| `IndexQueue.TimerRound` | backend/src/modules/search/indexer.service.ts:52-68 | a timer rebuild nobody disturbs makes the index show the whole body and marks nothing |
| `IndexQueue.OvertakenRebuildLosesUpdate` | backend/src/modules/search/indexer.service.ts:52-68 | a run in which a timer rebuild that read early and replaced late leaves an update out of the index for good |
| `IndexWorker.IndexQueueService.Push` | backend/src/modules/sync/sync.service.ts:143-156 | saving an update raises the pending generation of its document only, and makes it pending |
| `IndexWorker.IndexQueueService.SelectBatch` | backend/src/modules/search/search-index-queue.service.ts:60-75 | the batch holds min(20, remaining) quiet pending documents, oldest first, with no older one left out |
| `IndexWorker.IndexQueueService.WorkOff` | backend/src/modules/search/search-index-queue.service.ts:76-94 | what succeeds is indexed up to its noted generation, what fails and everything else stays |
| `IndexWorker.IndexQueueService.Tick` | backend/src/modules/search/search-index-queue.service.ts:38-50 | a tick works off one batch unless one is running, in which case it does nothing |
| `IndexWorker.TickMakesProgress` | backend/src/modules/search/search-index-queue.service.ts:59-95 | without pushes and failures a tick takes min(20, remaining) off the quiet pending documents |
| `IndexWorker.FailingBatchBlocks` | backend/src/modules/search/search-index-queue.service.ts:76-94 | a tick changes no row exactly when its whole batch fails |
| `IndexWorker.MarkedMeans` | backend/src/modules/search/search-index-queue.service.ts:76-94 | a document of the batch that does not fail has its pending generation indexed, and no other field or document changes |
| `IndexStarvation.NeverReached` | backend/src/modules/search/search-index-queue.service.ts:60-94 | behind twenty older documents that always fail, a document is never indexed, however many ticks there are |
| `IndexStarvation.ReachedInTime` | backend/src/modules/search/search-index-queue.service.ts:60-94 | with fewer than twenty failing documents as old or older, it is indexed once the ticks, times the places the failing ones leave in a batch, add up to the healthy documents ahead |
| `IndexStarvation.ReachedIff` | backend/src/modules/search/search-index-queue.service.ts:60-94 | given that many ticks and no tie in time, a document is reached exactly when fewer than twenty failing ones are older |
| `IndexStarvation.AlwaysReachedIff` | backend/src/modules/search/search-index-queue.service.ts:60-94 | whatever order the query gives to ties, a document is sure to be reached exactly when fewer than twenty failing ones are as old or older |
| `IndexStarvation.StarvationHappens` | backend/src/modules/search/search-index-queue.service.ts:60-94 | runs of any number of ticks in which a healthy document waits for ever |
| `DocRole.FindRoleFinds` | backend/src/modules/permission/doc-role.ts:110-118 | the lookup finds a role by its name in any letter case, and fails only if there is none |
| `Text.LowerMeans` | backend/src/modules/permission/doc-role.ts:110-140 | letter case is taken off letter by letter, and every other character stays |
| `DocRole.StoredRoleIs` | backend/src/modules/permission/doc-role.ts:110-153 | a stored string stands for the role of that name in any letter case; for members no string stands for External |
| `DocRole.StoredCanIff` | backend/src/modules/permission/doc-role.ts:105-153 | what a stored string lets a member do is what the role of that name may do |
| `DocRole.WorkspaceRoleIs` | backend/src/modules/permission/doc-role.ts:126-140 | owner and admin of a workspace are Owner, member is Editor, reader is Reader, in any letter case, and nothing else is a role |
| `DocRole.MatrixIsLadder` | backend/src/modules/permission/doc-role.ts:50-107 | the role matrix is a ladder: a role may do an action exactly when it ranks at least as high as the least role for it |
| `DocRole.NamesAgreeWithMatrix` | backend/src/modules/permission/doc-role.ts:150-162 | for every stored string in any case, membership in the list of readable names is what the role matrix says |
| `DocRole.NoEscalation` | backend/src/modules/permission/doc-role.ts:195-217 | nobody can hand out an action they do not have; among member roles rank and action sets order alike |
| `Permission.FilterReadableIsFilter` | backend/src/modules/permission/permission.service.ts:194-235 | the batched queries and lookups decide document by document and keep the order of the input |
| `Permission.BatchAgreesIff` | backend/src/modules/permission/permission.service.ts:194-235 | the batched and the single decision agree exactly outside a stated condition (empty grants, the manual workspace) |
| `Permission.BatchDiffersHappens` | backend/src/modules/permission/permission.service.ts:119-235 | with an empty grant a document is in the list and cannot be opened |
| `Permission.FilterReadableIsCanRead` | backend/src/modules/permission/permission.service.ts:194-235 | outside that condition the batched filter is the order-preserving filter by the single decision |
| `Permission.OrdinaryMemberReads` | backend/src/modules/permission/permission.service.ts:119-155 | an ordinary member reads by grant, else default role, else workspace role |
| `Permission.OrdinaryMemberCan` | backend/src/modules/permission/permission.service.ts:151-170 | for every action: an ordinary member with a grant can exactly what the granted role may do, otherwise with a default role exactly what that may do, otherwise what a member or reader of the workspace may do |
| `Permission.OwnersCan` | backend/src/modules/permission/permission.service.ts:119-170 | administrators and workspace owners can do everything, whatever the document's settings say |
| `Permission.FilterOfParts` | backend/src/modules/permission/permission.service.ts:194-235 | the filter of a list is that of its parts, one after the other: nothing moves, and nothing is repeated or lost |
| `Permission.OutsidersCannot` | backend/src/modules/permission/permission.service.ts:119-170 | whatever a document's settings say, a user without a row in the workspace, or with one that names no role, can do nothing |
| `Permission.ManualIsReadOnly` | backend/src/modules/permission/permission.service.ts:100-118 | in the manual exactly administrators and people of the workspace can act, and only read |
| `SqlCondition.JoinsRead` | backend/src/modules/search/search.service.ts:384-392 | clauses joined with AND or OR, each in parentheses, read back as the conjunction or disjunction of their values |
| `SqlCondition.NegationReads` | backend/src/modules/search/search.service.ts:386-389 | NOT before a parenthesized clause negates all of it |
| `SqlCondition.ParensRead` | backend/src/modules/search/search.service.ts:368-393 | a parenthesized clause keeps its value wherever it stands |
| `SqlCondition.AllMeans` | backend/src/modules/search/search.service.ts:384-392 | a conjunction is true when all parts are and false when one is, a disjunction the other way round, and unknown otherwise |
| `SqlCondition.Precedence` | backend/src/modules/search/search.service.ts:384-392 | read as SQL does: NOT before AND before OR |
| `SearchQuery.BuildWhereClause` | backend/src/modules/search/search.service.ts:315-345 | the builder that pushes onto a shared parameter list yields the compiled clause, appends exactly its parameters, and rejects what compilation rejects |
| `SearchQuery.BuildMatchClause` | backend/src/modules/search/search.service.ts:347-366 | a match pushes one parameter and refers to it by its number |
| `SearchQuery.BuildBooleanClause` | backend/src/modules/search/search.service.ts:368-393 | the loop over subqueries compiles them one after the other onto the same list |
| `SearchQuery.CompilesIffValid` | backend/src/modules/search/search.service.ts:107-113 | a query is rejected exactly when it names a field outside the allow list |
| `SearchQuery.CompileKeepsMeaning` | backend/src/modules/search/search.service.ts:315-393 | for every query tree, the clause read with the final parameter list has the value of the query in three-valued logic, however many parameters follow |
| `SearchQuery.MatchMeans` | backend/src/modules/search/search.service.ts:347-366 | a match holds where the field has the text, by full-text search in content and title and by equality elsewhere; a missing value is unknown |
| `SearchQuery.FieldValueIs` | backend/src/modules/search/search.service.ts:84-102 | each field of the allow list reads its own column, block type and flavour the same |
| `SearchQuery.FieldsAre` | backend/src/modules/search/search.service.ts:84-113 | the allow list is these sixteen fields |
| `SearchQuery.BooleanMeans` | backend/src/modules/search/search.service.ts:368-393 | should holds when a part does, must_not when every part fails, must and the default when every part holds; and when each fails |
| `SearchQuery.OtherKindsMean` | backend/src/modules/search/search.service.ts:315-345 | a boost only weighs, existence is never unknown, and a query without what its kind needs holds of every row |
| `Search.BuildSearch` | backend/src/modules/search/search.service.ts:136-145 | the statement sent is workspace, query and permission filter over one parameter list |
| `Search.SqlAgreesIff` | backend/src/modules/permission/permission.service.ts:252-316 | the SQL filter and the single decision agree exactly outside a stated condition (empty default roles, the manual workspace) |
| `Search.SqlDiffersHappens` | backend/src/modules/permission/permission.service.ts:252-316 | with an empty default role a document can be opened and is missing from the search |
| `Search.SearchSelectsReadableMatches` | backend/src/modules/search/search.service.ts:126-175 | the whole condition is well formed and selects exactly the rows of the workspace of which the query is true and whose document the user may read |
| `Search.NegationSkipsNullIff` | backend/src/modules/search/search.service.ts:347-393 | a row is found neither by a match nor by its negation exactly when the column is NULL |
| `SearchPaging.PagesCoverAllIff` | backend/src/modules/search/search.service.ts:148-175 | sending the cursor back as skip shows every selected row once, whatever order each query gives to ties, exactly when no page ends between rows of one score |
| `SearchPaging.EqualScoresCoverIff` | backend/src/modules/search/search.service.ts:148-158 | without a full-text match that is so exactly when one page holds everything |
| `SearchPaging.SameOrderCovers` | backend/src/modules/search/search.service.ts:148-175 | when every query returns the same order, the pages are that order cut up |
| `SearchPaging.DefaultPage` | backend/src/modules/search/search.service.ts:131-158 | without a limit a page has twenty rows, without a skip it is the first |
| `SearchPaging.FollowsResponses` | backend/src/modules/search/search.service.ts:131-175 | the pages are the responses to a client that sends each cursor as the next skip |
| `SearchPaging.CursorEndsIff` | backend/src/modules/search/search.service.ts:131-175 | sending the cursor as cursor gets the first rows again every time, and ends exactly when the first page has no more |
| `SearchPaging.ZeroLimitNeverEnds` | backend/src/modules/search/search.service.ts:131-175 | with a limit of zero the cursor stands still |
| `TemplateSearch.LcsIsReached` | frontend/packages/frontend/templates/edgeless-templates.gen.ts:45-61 | the recurrence's value is the length of some common subsequence |
| `TemplateSearch.LcsIsLongest` | frontend/packages/frontend/templates/edgeless-templates.gen.ts:45-61 | no common subsequence is longer |
| `TemplateSearch.LcsIsWholeQueryIff` | frontend/packages/frontend/templates/edgeless-templates.gen.ts:84 | the length test holds exactly when the query is a subsequence of the name |
| `TemplateSearch.LcsLength` | frontend/packages/frontend/templates/edgeless-templates.gen.ts:45-61 | the table in its nested loops is filled by the recurrence |
| `TemplateSearch.Search` | frontend/packages/frontend/templates/edgeless-templates.gen.ts:73-91 | the search returns exactly the matching templates, in order |
| `TemplateSearch.MatchingMeans` | frontend/packages/frontend/templates/edgeless-templates.gen.ts:79-89 | a template is found exactly when it is in the library and its lower-cased name contains the lower-cased query as a subsequence |
| `TemplateSearch.FoundInPlace` | frontend/packages/frontend/templates/edgeless-templates.gen.ts:73-91 | each template is found or not by itself, in its place; categories follow one another |
| `Csv.SplitFields` | backend/src/modules/admin/user-csv.util.ts:20-50 | the character loop computes the fields of a record, quoted or not |
| `Csv.SplitRecords` | backend/src/modules/admin/user-csv.util.ts:66-106 | the character loop computes the records with the lines they start on |
| `Csv.FieldsOfRow` | backend/src/modules/admin/user-csv.util.ts:20-50 | for every row, with any choice of quoting each field or writing it plain, the fields are the row |
| `Csv.FieldsReadMixed` | backend/src/modules/admin/user-csv.util.ts:20-50 | quotes may open anywhere in a field, and without its closing quote a field runs to the end |
| `Csv.RecordsReadLines` | backend/src/modules/admin/user-csv.util.ts:66-106 | however the lines end, the records are the rows in order, each numbered by the line it starts on |
| `Csv.NormalizeMeans` | backend/src/modules/admin/user-csv.util.ts:83-96 | a line break of any kind becomes one newline and counts as one line |
| `Csv.NumberedAt` | backend/src/modules/admin/user-csv.util.ts:66-106 | the line of a record is one plus the line breaks written before it |
| `Csv.TableComesBack` | backend/src/modules/admin/user-csv.util.ts:20-106 | for every table, with any choice of quoting and of line endings, splitting returns every row with its physical line, line breaks inside fields as newlines |
| `Csv.ComesBackIff` | backend/src/modules/admin/user-csv.util.ts:20-106 | it returns every row as it was exactly when no field holds a carriage return |
| `Csv.ExportComesBackIff` | backend/src/modules/audit/audit-query.service.ts:107-119 | an exported table, every field in quotes, comes back exactly when no field holds a carriage return |
| `Csv.UnclosedQuoteTakesAll` | backend/src/modules/admin/user-csv.util.ts:66-106 | without its closing quote a value takes the rest of the text into one record |
| `Csv.NoFieldHoldsReturn` | backend/src/modules/admin/user-csv.util.ts:20-106 | whatever the text, no field read from it holds a carriage return |
| `UserCsv.ParseUserCsv` | backend/src/modules/admin/user-csv.util.ts:116-166 | the program computes the specified outcome, errors and row limit included |
| `UserCsv.WrittenListIsParsed` | backend/src/modules/admin/user-csv.util.ts:116-166 | a list comes back user by user however it is written (quotes, line endings, blank lines, column order, byte order mark): the cells under the three headings, address and name trimmed, the password to the letter, each with its line; or with the error its emptiness, header or length calls for |
| `UserCsv.CellIs` | backend/src/modules/admin/user-csv.util.ts:130-141 | a cell is that of the first column so named in any letter case and surrounded by any white space, and empty when column or cell is missing |
| `UserCsv.ShownMeans` | backend/src/modules/admin/user-csv.util.ts:121-141 | the records that are not blank, each once and in order |
| `Text.TrimMeans` | backend/src/modules/admin/user-csv.util.ts:119-160 | trimming takes white space from both ends and from nowhere else, until none is left there |
| `Markdown.NumberedReadsBack` | backend/src/modules/doc/yjs-doc-builder.ts:419-446 | a number printed in decimal, dot and blank is read as a numbered item with the text that follows, whatever the number |
| `Markdown.NumberedReads` | backend/src/modules/doc/yjs-doc-builder.ts:73-74 | any digits, a dot and white space begin a numbered item with the text that follows |
| `Markdown.PrefixReadsBack` | backend/src/modules/doc/yjs-doc-builder.ts:68-72 | headings of three levels, bullets and dividers are read as what they are written as |
| `Markdown.AlignedReads` | backend/src/modules/doc/yjs-doc-builder.ts:60-67 | an aligned line is the block of the rest of it with that alignment, where a block can have one |
| `Markdown.ImageReads` | backend/src/modules/doc/yjs-doc-builder.ts:168-180 | an image line gives the key, the width and the height it names |
| `Markdown.DecimalMeans` | backend/src/modules/doc/yjs-doc-builder.ts:419-446 | numbers are printed in decimal, without leading zeros, and read back |
| `Markdown.NumberMeans` | backend/src/modules/doc/yjs-doc-builder.ts:375-409 | the number of an item is its place in its run |
| `Markdown.LineRoundTripIff` | backend/src/modules/doc/yjs-doc-builder.ts:53-76 | for every line: what its block renders to parses to the same block without alignment exactly when the block is no image, no bold text or reference starts in its text, and a plain paragraph does not read as another kind of line |
| `Markdown.FilledIsTextIff` | backend/src/modules/doc/yjs-doc-builder.ts:92-139 | a text is filled in as it is exactly when at no position bold text or a reference starts |
| `Markdown.PlainIsShown` | backend/src/modules/doc/yjs-doc-builder.ts:92-139 | text without stars and opening brackets is filled in as it is, whatever follows it |
| `Markdown.BoldIsShown` | backend/src/modules/doc/yjs-doc-builder.ts:121-131 | between two pairs of stars the text is filled in without them |
| `Markdown.ReferenceIsShown` | backend/src/modules/doc/yjs-doc-builder.ts:98-118 | a reference to a document is filled in as one blank |
| `Markdown.BareLineSettledIff` | backend/src/modules/doc/yjs-doc-builder.ts:53-76 | for a line without inline markup that means: it is no image, and behind its alignment it asks for no other alignment and no image |
| `Markdown.BareIsShown` | backend/src/modules/doc/yjs-doc-builder.ts:92-139 | text without two stars or opening brackets in a row is filled in as it is |
| `Markdown.RenderKeepsText` | backend/src/modules/doc/yjs-doc-builder.ts:419-446 | rendering gives back the line but for images, alignment, inline markup and, in numbered items, the number and the gap |
| `Markdown.MarkdownToBlocks` | backend/src/modules/doc/yjs-doc-builder.ts:154-271 | the loop over lines makes one block of each, images and inline markup included |
| `Markdown.BlocksToMarkdown` | backend/src/modules/doc/yjs-doc-builder.ts:375-409 | the loop with its running counter numbers each run of numbered items from one |
| `Markdown.DocumentRoundTripIff` | backend/src/modules/doc/yjs-doc-builder.ts:326-409 | every line comes back as stated, and re-parsing gives the same blocks without alignment exactly when every block is settled |
| `Markdown.PlainTextIsKept` | backend/src/modules/doc/yjs-doc-builder.ts:326-409 | a text without inline markup, images, alignment and numbered items comes back character by character |
| `TagOrder.SameTagsIsMultisetEquality` | backend/src/modules/discovery/index-entry-safety.ts:71-76 | comparing sorted copies is exactly equality as multisets |
| `IndexPurge.JudgeIsExact` | backend/src/modules/discovery/index-entry-safety.ts:31-64 | an entry is purgeable exactly when the ledger has a row that agrees on or owns every field, and otherwise the fields at risk are named |
| `IndexPurge.SelectRemovablePages` | backend/src/modules/discovery/index-purge.service.ts:136-189 | the chosen positions rise and are exactly those of removable entries; every other one is noted with its reason |
| `IndexPurge.DeleteBackToFront` | backend/src/modules/discovery/index-purge.service.ts:113-116 | deleting back to front removes exactly the chosen positions and keeps the rest in order |
| `IndexPurge.PurgePages` | backend/src/modules/discovery/index-purge.service.ts:103-116 | selection and deletion together leave exactly the needed entries |
| `IndexPurge.NeededInPlace` | backend/src/modules/discovery/index-purge.service.ts:103-116 | each entry stays or goes by itself, and those that stay keep their order |
| `IndexPurge.NeededStays` | backend/src/modules/discovery/index-purge.service.ts:145-186 | an entry stays exactly when it was there and is not removable |
| `AttackCounter.MinutesCoverWindow` | backend/src/modules/security/attack-counter.service.ts:128-131 | whole minutes count at least the events of a span and at most those of one minute more |
| `AttackCounter.CountFromIsSize` | backend/src/modules/security/attack-counter.service.ts:116-151 | the counts these bounds speak of are numbers of events of that kind, address and time |
| `AttackCounter.CountedIsGood` | backend/src/modules/security/attack-counter.service.ts:104-112 | counting a request keeps every bucket exact, in total and for every address it lists |
| `AttackCounter.GoodBucketsHold` | backend/src/modules/security/attack-counter.service.ts:120-131 | after the horizon the buckets hold every event there is |
| `AttackCounter.Collect` | backend/src/modules/security/attack-counter.service.ts:124-139 | merged counts plus the overflow are the total, which is the events of the minutes seen; no address gets more than its own |
| `AttackCounter.ListByCount` | backend/src/modules/security/attack-counter.service.ts:141-143 | the list has every address once with its count, largest first |
| `AttackCounter.Counter.SetRetention` | backend/src/modules/security/attack-counter.service.ts:73-75 | retention is the longer span plus five minutes, and nothing is missing from it when it is set before counting begins or not widened |
| `AttackCounter.Counter.Add` | backend/src/modules/security/attack-counter.service.ts:87-113 | one request is logged against its address, or against the unknown one |
| `AttackCounter.Counter.Prune` | backend/src/modules/security/attack-counter.service.ts:154-161 | the buckets whose minute ended before the retention are dropped, and nothing that came later is missing |
| `AttackCounter.Counter.Summarize` | backend/src/modules/security/attack-counter.service.ts:116-151 | total, addresses and last event cover the last W minutes, and at most one more, for every window within the retention; if the retention was widened after buckets had been dropped, they cover what came after those |
| `SignupLimiter.Limiter.AssertSignupAllowed` | backend/src/modules/auth/auth.service.ts:125-155 | a creation is refused exactly when ten were admitted from the address in the hour before it |
| `SignupLimiter.CleanUp` | backend/src/modules/auth/auth.service.ts:147-154 | the bulk cleanup forgets nothing that can still count |
| `SignupLimiter.AdmitKeepsLimit` | backend/src/modules/auth/auth.service.ts:125-155 | admitting below the limit keeps the log within it |
| `SignupLimiter.AnyHourIsLimited` | backend/src/modules/auth/auth.service.ts:125-155 | no hour, wherever it begins, holds more than ten admissions of one address |
| `SignupLimiter.TenAnHour` | backend/src/modules/auth/auth.service.ts:125-155 | the same as a set: of the admissions of one address no more than ten lie within any hour |
| `SignupLimiter.RecentAreWithinTheHour` | backend/src/modules/auth/auth.service.ts:125-140 | what is counted against an address are its admissions in the hour before |
| `AccessCache.OwnKeysMatch` | backend/src/modules/sync/sync.gateway.ts:966-979 | the substring test of an invalidation matches every key of the document it is for |
| `AccessCache.MatchesIff` | backend/src/modules/sync/sync.gateway.ts:966-979 | among keys of names without colons it matches exactly the document's own, of the given user or of all |
| `AccessCache.StoredMeans` | backend/src/modules/sync/sync.gateway.ts:997-1017 | a stored answer stands for exactly five seconds, no other is changed, and none is lost while there is room |
| `AccessCache.InvalidatedMeans` | backend/src/modules/sync/sync.gateway.ts:966-979 | an invalidation takes what it matches and nothing else |
| `AccessCache.DocAccessCache.Store` | backend/src/modules/sync/sync.gateway.ts:1001-1017 | storing makes room first, so the map never exceeds its maximum |
| `AccessCache.DocAccessCache.Invalidate` | backend/src/modules/sync/sync.gateway.ts:966-979 | exactly the matched keys go, and all of the document's are among them |
| `AccessCache.NextKeepsInv` | backend/src/modules/sync/sync.gateway.ts:966-1018 | every interleaved step keeps what each cached or pending answer stands for, and the size limit |
| `AccessCache.StalenessIsBounded` | backend/src/modules/sync/sync.gateway.ts:987-1018 | a cached answer was the permission at some instant less than five seconds earlier, under every interleaving |
| `AccessCache.InvalidationSettlesIff` | backend/src/modules/sync/sync.gateway.ts:966-1018 | after an invalidation, and until the permission changes again, every cached answer about the document is the current permission, in every run, exactly when no check in flight holds another answer that has not run out |
| `AccessCache.InvalidationCanBeOutlived` | backend/src/modules/sync/sync.gateway.ts:966-1018 | a run in which an answer in flight is stored after the invalidation that should have ended it |

## Left out

- Yjs encoding, `diffUpdate`, state vectors and garbage collection: contents are operation sets, and a collecting document keeps tombstones.
- Several documents or workspaces at once: each step system is about one document or one workspace, whose rows no other one shares.
- PostgreSQL isolation below whole statements and transactions, and PGroonga matching, which is an uninterpreted predicate.
- `DocTables.DocumentTables.PushUpdate`: without the workspace check, the ledger timestamp and the queue row, which other modules model or which carry no claim here; interleaving is the business of `DocStorage`.
- `internal-doc.controller.ts`, imports, and workspace and member writes: they overwrite unconditionally or do not all bump, so they are outside the no-loss, lineage and coherence claims.
- `ValueWrites`: the title write of `upsertDocMeta`, which moves no revision, and deletion and re-creation of a row, which starts revisions again.
- `TagWrites`: deletion and re-creation of a row during a call, and the `not-found` answer.
- `updatedAt` and the order of lists; `tagsRevision` in list entries, which moves without a bump when a row is only claimed.
- Permission checks, audit records and validation inside the writers.
- `LedgerService`: writers one at a time with bumps that succeed; `BumpFails` is a step of `LedgerCache`.
- `IndexQueue.AtomicQueueIsFresh`: the two body reads of a rebuild are one read here and its delete and insert one replace, so a rebuild that another one overtakes between them is not covered.
- `SearchQuery.CompileKeepsMeaning`: every column compares as a string; `workspaceId`, `createdAt` and `updatedAt` are uuid and timestamp columns, for which the database rejects a text parameter.
- Index deletion on hard delete, the two body reads and the delete-and-insert inside one index rebuild (one read and one replace here), and how an index row is made from blocks.
- `aggregateWithDSL`, select lists, highlights, boost scores and sort keys of search, negative limits; a cursor stands for the number it spells; inherited property names such as `toString` as field names.
- `Text.Lower`: letter case of ASCII letters only, for role names and column titles; the template search takes any lower-casing.
- `csvCell`, which adds a quote character on purpose, and the lines of the audit export other than `quote`.
- Markdown attributes of text (bold, the document a reference names), nested children, block ids, the blocks around a page, and blocks no line makes (quotes, code, to-do items); alignment is parsed but, as in the code, never rendered.
- `IndexPurge.PurgePages`: not the dry run, the `spaces` map and the counters of the result.
- `SignupLimiter`: sign-in failures and account lockout, which work alike on other maps.
- `AccessCache`: a permission check reads the permission at one instant; in the program it takes several queries.
- The order in which equal counts are listed, and `reset`.
- Wiring, guards, GraphQL models, tokens, mail, files, backups, rooms and awareness: I/O or thin wrappers.
