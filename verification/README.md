# API server caches, selectors, codec and graph: a verified model

This project models the hard core of the API server in Dafny and proves what it promises.

* **Object store** (`StoreModel`, `ObjectStore`, `DeleteQueue`, `SnapshotCollection`, `LiveMap`): the revisioned
  store behind the cache, with saved copies for snapshots, tombstones in a heap, and quota-limited purging.
  `StoreModel` gives each operation as a function of the whole state; `ObjectStore` has the store as it works, with
  objects, maps and an array heap updated in place, and proves it against those functions.
* **Runs of the store** (`SnapshotIsolation`, `Phantoms`, `CopyRecords`, `SnapshotLimits`, `DuplicateDelivery`,
  `Resync`, `Rollback`): theorems over every run, schedule or state.
* **Staging buffers** (`OverlayModel`, `CommitModel`, `StagingOverlay`, `NoLostUpdate`): the overlay over the cache,
  its view, its commit, and consistent updates as a state machine in which other writers interleave freely.
* **Label selectors** (`SelectorModel`, `SelectorRoundTrip`, `SelectorLists`, `Selector`): printer, lexer and parser.
* **Wire codec** (`WireModel`, `WireRoundTrip`, `WireBytes`, `WireCodec`, `WireReader`): the Protocol Buffers encoding
  of `Spec`, `Filter` and `WatchSpec`, with 64-bit wrap-around, 32-bit field numbers and panics written out.
* **Reference graph** (`ReferenceGraph`, `ReferenceTree`), **configuration order** (`TopologicalSort`) and **watch
  batching** (`WatchBatching`).

`dafny verify dfyconfig.toml` checks the whole project.

## Where the code falls short of a stronger promise

Each of these is shown on a concrete input or family of inputs, and the condition that separates the cases is proved
in both directions.

* A snapshot shows a *phantom* exactly for a key created after it and written again before the next snapshot
  (`PhantomExample`, `ShownIffWrittenAgain`). Rollback brings exactly such keys back as well (`RollbackRestores`).
* A write at or below the revision of a snapshot changes what it shows, and a write above it loses what it shows
  exactly while the last snapshot is that of revision 0 (`WriteKeepsReadIff`, `RevisionZeroExample`).
* A delete at revision 0 takes the key out of earlier snapshots (`DeleteZeroExample`); what any other delete keeps is
  told by its revision (`DeleteKeepsReadIff`).
* A write at a lower revision than one before moves the last version back, and a snapshot taken then lacks exactly
  the live keys above it for which nothing was saved (`LowerWriteExample`, `StartShowsIff`, `SnapshotShowsIff`).
* A snapshot deleted and taken again before a write cannot be read (`RestartExample`, `StartReadableIff`).
* Collecting a newer snapshot before an older one loses answers of the older (`NewerFirstExample`, `CollectSafeIff`).
* Deleting and collecting the newest snapshot first leaves the store saving copies for a snapshot the table has lost;
  no collection finds them (`NewestFirstExample`), which happens exactly in that case (`UnreachableIff`) and never
  when snapshots are deleted oldest first (`RunTidy`).
* A replayed event can move the last version back below a snapshot that keys have saved for; exactly then a snapshot
  makes a later write panic (`SnapshotCrashesIff`, `ReplayThenSnapshotCrashes`).
* A delete is undone by a late replay exactly if it had revision 0 (`ReplayRevivesIff`).
* Sweep takes queue and map out of step exactly if a queued object is under its prefix (`Sweep`), and a later purge
  can then remove a live key (`SweepThenPurgeLosesKey`), which it does exactly if a queued object that is old enough
  has a live key (`PurgeDeleted`).
* A staged operation that fails still uses up the buffer's limit (`CreatePrimary`, `UpdatePrimary`, `DeletePrimary`).
* An update can be lost exactly while the cache has an outdated object under the version of the backend (`LosesIff`),
  so a touch is safe exactly if the cache had the object up to date (`TouchSafeIff`, `LostUpdateRun`). Of several consistent updates of one key only the last counts (`LaterItemWins`). A delete staged
  over a consistent update is undone by the commit (`StagedDeleteKeptIff`).
* A staged object is read with the version of the cached one and listed with its own (`Get`, `List`).
* A set written with an even number of empty values at its end is refused (`WrittenSelector`).
* Constructible selectors whose print is refused, or is parsed into another selector, are told apart from the others
  (`RoundTripIff`): a set match with one value, an exact match with the empty value, an odd number of empty values
  alone, and repeated values.

## Modelling choices

* A panic ends an operation where it happens; the callbacks deferred until then still fire.
* Keys are strings, and revisions and versions natural numbers. An object has a name, a kind, a body and a version.
* Time is a parameter of the operations that read the clock. Locks are left out, since every operation runs under one.
* The backend is a versioned map with transactions that are compared and committed as a whole. A key that is absent
  has version 0 for comparators; an update or a delete in a transaction needs a present key, a create an absent one.
* The trie of the store is a map, iterated in any order; sets of values are sorted lists without repetition.
* Slices are shorter than 2^63 bytes; strings on the wire are bytes.
* The graph database is a set of edges: adding one that is there, or deleting one that is not, is an error the caller
  ignores. The graph does not change during a walk, which holds the lock.
* Where comments and code disagree the code is followed: the overlay's update and delete succeed on a key whose
  staged entry is itself a delete.

## Model

| member | source | states |
|---|---|---|
| SnapshotIsolation.SnapshotIsolated | api/cache/store.go:323-346 | In every run of sets, deletes at a non-zero revision, snapshots, oldest-first snapshot deletions and quota-limited purges, where each write is at or above the last version and above every snapshot so far, a snapshot that is still live returns for every key live when it was taken the object the key had then |
| SnapshotIsolation.SnapshotIsolatedForever | api/cache/store.go:684-696 | In runs that delete no snapshot this holds for every snapshot taken, across any number of later ones, without assuming that it stays live |
| SnapshotIsolation.AbsentUnlessPhantom | api/cache/store.go:150-173 | A key that was not live when the snapshot was taken reads as missing from it exactly unless its entry holds, for that snapshot, a copy of a later object |
| Phantoms.ShownIffWrittenAgain | api/cache/store.go:124-140 | Told from the operations of the run: a live snapshot shows a key that was not live when it was taken exactly if the key was created after the snapshot and written again, by a set or a delete, before another snapshot became the last |
| Phantoms.StepTracks | api/cache/store.go:233-300 | Each operation keeps the entry of a key in step with whether it was created and written again since the snapshot |
| SnapshotIsolation.RunOk | api/cache/store.go:124-140 | Every state of every run keeps the order of saved copies, the table of snapshots and the bound of every revision; no write panics |
| SnapshotIsolation.StepKeeps | api/cache/store.go:233-300 | Each operation keeps what a live snapshot returns for a key |
| SnapshotIsolation.KeepsReads | api/cache/store.go:150-173 | The scan for a version finds the copy that the invariant says is saved |
| SnapshotIsolation.KeepsWritten | api/cache/store.go:124-140 | A write saves the object before it for the last snapshot, or that is not needed |
| SnapshotIsolation.KeepsCollected | api/cache/store.go:142-148 | Dropping the copies of deleted snapshots, oldest first, leaves the copies of newer live ones |
| SnapshotIsolation.IgnoresReads | api/cache/store.go:323-346 | What a live snapshot returns for a key it must ignore |
| SnapshotIsolation.SetOk | api/cache/store.go:233-300 | A set in order succeeds and keeps the invariant |
| SnapshotIsolation.DeleteOk | api/cache/store.go:368-432 | A delete in order does not panic and keeps the invariant |
| SnapshotIsolation.StartOk | api/cache/store.go:684-696 | Taking a snapshot keeps the invariant and moves the last snapshot to the last version |
| SnapshotIsolation.SnapshotErrors | api/cache/store.go:323-346 | Without a live snapshot nothing is read; a key never stored, or deleted at or before the snapshot, is not found |
| SnapshotIsolation.DeletedCopyNotFound | api/cache/store.go:323-346 | A key whose copy for the snapshot is of a deleted object is not found in it |
| CopyRecords.RunTidy | api/cache/store.go:250-264 | In every run of snapshot isolation an object holds a copy for a snapshot exactly if the snapshot is in the table and the key recorded with it, and the snapshot that copies are saved for is in the table |
| CopyRecords.RunRecorded | api/cache/store.go:250-264 | In every run, whatever the order in which snapshots are deleted, with marks and sweeps in between, every copy of a snapshot in the table is recorded with it |
| CopyRecords.RunBounded | api/cache/store.go:124-140 | In these runs too nothing is ahead of the last version and no write panics |
| CopyRecords.WrittenAt | api/cache/store.go:390-406 | A write saves a copy and records it exactly if it reaches an entry that has none for the last snapshot; the copy is recorded exactly if that snapshot is in the table |
| CopyRecords.SavedAndRecorded | api/cache/store.go:250-264 | The record of a copy carries the revision of the copy |
| CopyRecords.CompleteCollection | api/cache/store.go:560-601 | While the records are exact, a collection not cut short leaves only live snapshots in the table and only their copies |
| CopyRecords.NothingHeldBack | api/cache/store.go:602-624 | In every run, once every snapshot is deleted and collected, no tombstone is held back: it may go exactly when it is old enough |
| CopyRecords.UnreachableIff | api/cache/store.go:250-264 | A write leaves a copy that no collection will find exactly if it saves for a last snapshot that the table has lost |
| CopyRecords.NewestFirstExample | api/cache/store.go:560-601 | The newest snapshot deleted and collected first: the next delete leaves a tombstone that is never removed |
| SnapshotLimits.PhantomExample | api/cache/store.go:250-300 | A key created after a snapshot and written again before the next one is read from the earlier snapshot |
| SnapshotLimits.WriteKeepsReadIff | api/cache/store.go:250-300 | For every live snapshot, that of revision 0 included: a write above it keeps its answer exactly if the last snapshot is not of revision 0, a write at or below it exactly if it writes the same object |
| SnapshotLimits.EqualRevisionExample | api/cache/store.go:250-300 | A write at the revision of a snapshot changes what the snapshot shows |
| SnapshotLimits.DeleteKeepsReadIff | api/cache/store.go:368-432 | For every live snapshot and every delete of a key whose present object it shows, at any revision: a delete that takes effect keeps the answer exactly if it is above the snapshot and the last snapshot is not of revision 0, so never at revision 0; any other delete keeps it |
| SnapshotLimits.DeleteZeroExample | api/cache/store.go:368-432 | A delete at revision 0 makes the earlier snapshot lose the key |
| SnapshotLimits.StartShowsIff | api/cache/store.go:684-696 | A new snapshot shows a live key without saved copies exactly if the key is not above the last version |
| SnapshotLimits.LowerWriteExample | api/cache/store.go:684-696 | After a write below the last version a new snapshot lacks a live key |
| SnapshotLimits.RevisionZeroExample | api/cache/store.go:124-140 | The snapshot of revision 0 loses its answer at the next write, and keeps it if another snapshot was taken before that write |
| SnapshotLimits.StartReadableIff | api/cache/store.go:684-696 | Taking a snapshot gives a readable one exactly unless the table holds a deleted one of that revision |
| SnapshotLimits.RestartExample | api/cache/store.go:684-708 | A snapshot deleted and taken again before a write is handed out and cannot be read |
| SnapshotLimits.CollectKeepsReadIff | api/cache/store.go:560-601 | Any collection keeps the answer of a live snapshot exactly if it keeps the first copy saved at or after it |
| SnapshotLimits.CollectSafeIff | api/cache/store.go:560-601 | A collection not cut short by the quota keeps the answer of a live snapshot exactly if the first copy saved at or after it is of a snapshot that was not deleted before the collection |
| SnapshotLimits.RunCollectSafeIff | api/cache/store.go:560-601 | The same in every state that a run reaches, whatever the order in which it deletes snapshots, without any hypothesis on records |
| SnapshotLimits.NewerFirstExample | api/cache/store.go:560-601 | Deleting and collecting a newer snapshot first turns the answer of an older one into nil |
| DuplicateDelivery.DuplicateDeliveryConverges | api/cache/cache.go:521-563 | For every interleaving of the write path and the backend watch, each in order, with snapshots taken in between, a key holds the state after the furthest operation delivered, the callbacks fired for it are one per operation in order of revision, and no write panics |
| DuplicateDelivery.AlwaysOk | api/cache/cache.go:937-1092 | The invariant of every schedule of deliveries |
| DuplicateDelivery.ApplyOnce | api/cache/store.go:233-300 | The next operation of a history takes effect and calls back; one delivered before does neither |
| DuplicateDelivery.EventsAt | api/cache/store.go:283-299 | The callbacks of a key are as many as operations delivered and their revisions strictly increase |
| DuplicateDelivery.SnapshotCrashesIff | api/cache/store.go:684-696 | After every such schedule, taking one more snapshot makes some later write panic exactly if the last version has no snapshot, is not 0, and is older than a snapshot some key has saved for |
| DuplicateDelivery.StartCrashesIff | api/cache/store.go:124-140 | The same for every store in which no write panics yet |
| DuplicateDelivery.SnapshotShowsIff | api/cache/store.go:684-696 | After every such schedule, one more snapshot shows a key whose furthest operation delivered is a put, and for which nothing was saved, exactly if that put is not above the last version |
| DuplicateDelivery.ReplayThenSnapshotCrashes | api/cache/store.go:233-300 | A concrete run: a replay moves the last version back, and a snapshot taken then makes a later write panic |
| DuplicateDelivery.ReplayRevivesIff | api/cache/store.go:368-432 | For every live key and every delete of it that succeeds, a late replay of the put before it makes the key live again exactly if the delete had revision 0 |
| DuplicateDelivery.ZeroRevisionDeleteUndone | api/cache/store.go:368-432 | A concrete input of it |
| Resync.ResyncExact | api/cache/store.go:531-557 | After mark, any run of sets and deletes in order, and sweep, the entries under the prefix are exactly the keys set since the mark and not deleted afterwards, with their latest revision and value, and all other entries are as without mark and sweep |
| Resync.RunAgreesAt | api/cache/cache.go:469-480 | Between mark and sweep a key under the prefix is live exactly if a plain revisioned map has it, with the same value |
| Resync.RunSameAt | api/cache/cache.go:529-538 | Stores that agree on a key agree on it after the same operations |
| Resync.PrefixMeans | api/cache/store.go:531-541 | A key is under a prefix exactly if it is the prefix and something behind it |
| LiveMap.SetRefines | api/cache/store.go:233-300 | Set is refused below the stored revision and changes nothing; otherwise the live map gets the object, the entry the revision and the time, the callback fires exactly for a newer revision, with the object before, and no other entry changes |
| LiveMap.DeleteRefines | api/cache/store.go:368-432 | Which of the three outcomes a delete has; one that succeeds removes its key alone from the live map, leaves a tombstone with the time of the delete and the object at its revision, and calls back with that object |
| LiveMap.PanicFires | api/cache/store.go:233-247 | A write that panics changes no entry, and its deferred callback fires |
| LiveMap.TombstoneAges | api/cache/store.go:602-624 | A tombstone that no snapshot holds back may go exactly when the given time has passed since the delete |
| LiveMap.PurgedKeepsLive | api/cache/store.go:560-624 | A purge never changes the live map |
| LiveMap.RemovedKeepsLiveIff | api/cache/store.go:602-624 | Taking keys out of the map keeps the live map exactly if none of them is live |
| DeleteQueue.CacheObj.SaveVersion | api/cache/store.go:124-140 | Saving a copy makes the entry the one the specification gives, or panics, exactly when the snapshot is older than one saved for, and changes nothing |
| DeleteQueue.CacheObj.DropVersion | api/cache/store.go:142-148 | The copy of one snapshot is gone and all else is kept |
| DeleteQueue.CacheObj.FindVersion | api/cache/store.go:150-173 | The loop over the list of copies finds what the specification reads |
| DeleteQueue.DelPendingHeap.Swap | api/cache/store.go:195-202 | Two objects change places and each knows its position |
| DeleteQueue.DelPendingHeap.Push | api/cache/store.go:204-210 | The queue holds one object more, in heap order, each object at the position it records |
| DeleteQueue.DelPendingHeap.Pop | api/cache/store.go:212-221 | The first object is taken out and the rest stays in heap order, each object at the position it records |
| DeleteQueue.DelPendingHeap.Remove | api/cache/store.go:271-282 | An object is taken out from any position and the rest stays in heap order |
| DeleteQueue.DelPendingHeap.Fix | api/cache/store.go:414-429 | After one object changed its time the queue is in heap order again, with the same objects |
| DeleteQueue.FirstIsLeast | api/cache/store.go:185-193 | The first object of the queue was updated no later than any other |
| ObjectStore.Store.Set | api/cache/store.go:233-300 | The store as it works does what the specification of Set says, keeps the queue in heap order, and keeps queue and tombstones in step |
| ObjectStore.Store.Delete | api/cache/store.go:368-432 | The same for Delete; what is deleted is queued |
| ObjectStore.Store.Get | api/cache/store.go:303-321 | The live object of a key |
| ObjectStore.Store.GetFromSnapshot | api/cache/store.go:323-366 | The object a snapshot shows, or which error |
| ObjectStore.Store.StartSnapshot | api/cache/store.go:684-696 | A snapshot of the last version, taken only if the table has none for it |
| ObjectStore.Store.DeleteSnapshot | api/cache/store.go:698-708 | The snapshot is marked, or reported missing |
| ObjectStore.Store.Mark | api/cache/store.go:531-541 | Every entry under the prefix is marked and no other |
| ObjectStore.Store.Sweep | api/cache/store.go:544-557 | The tombstones under the prefix are removed and nothing else; the queue is not changed, so queue and map stay in step exactly if no queued object is under the prefix |
| ObjectStore.Store.CollectDead | api/cache/store.go:560-601 | Copies of deleted snapshots are dropped, oldest snapshot first, all of them unless the quota is used up, which takes more records than the quota; with exact records only copies of live snapshots are then left; nothing else changes |
| ObjectStore.Store.Reap | api/cache/store.go:602-624 | At most quota plus one objects leave the queue, all expired tombstones without saved copies, and nothing is left due unless the quota is used up |
| ObjectStore.Store.PurgeDeleted | api/cache/store.go:560-624 | With queue and map in step a purge does what the specification says, at most quota plus one keys go, and the live map stays. In any case, when the queued objects old enough are within the quota and have no saved copies, exactly those leave the queue, and the live map stays exactly if none of their keys was live before. When the records of deleted snapshots are within the quota and exact, only copies of live snapshots are left |
| ObjectStore.Store.AllDueTaken | api/cache/store.go:602-624 | Objects old enough, within the quota and without copies, all leave the queue, since the oldest is always first |
| ObjectStore.SweepThenPurgeLosesKey | api/cache/store.go:544-557 | Sweep leaves a swept tombstone queued; the key set again afterwards is live, and the next purge removes it |
| Rollback.MakePlan | api/cache/cache.go:1681-1739 | One operation for each key under the root the walk plans something for, and none else |
| Rollback.ApplyPlan | api/cache/cache.go:1681-1739 | A plan with distinct keys that fits the backend is carried out with no operation rejected |
| Rollback.PlanReconciles | api/cache/store.go:710-734 | A plan carried out leaves every key of a saved kind with its object at the snapshot or without one, and other keys as they were |
| Rollback.RollbackTo | api/cache/cache.go:1681-1739 | Rollback fails, changing nothing, exactly if the snapshot is not live; otherwise every planned operation is legal and the live map on saved kinds becomes that of the snapshot |
| Rollback.RollbackRestores | api/cache/cache.go:1681-1739 | Rolling back to a snapshot of a run restores what each key of a saved kind held when the snapshot was taken; a key that was not live then is there exactly if it was created after the snapshot and written again before the next |
| Rollback.NotRolledBack | api/cache/cache.go:1692-1720 | Keys outside the root and objects of kinds that are not saved are as they were |
| Rollback.NotSavedKinds | api/utils/apiutils.go:38 | The twelve operational kinds, and no other, are not saved |
| OverlayModel.StagedView | api/cache/overlay.go:920-959 | Staging an object shows it in the view, staging a delete hides the key, and no other key changes |
| OverlayModel.CommitRealisesView | api/cache/overlay.go:1399-1483 | What a commit of a buffer that fits its base leaves is what the buffer showed |
| OverlayModel.WholeBufferCommitted | api/cache/overlay.go:1399-1440 | The operations of a buffer, sent in any order of its keys, have the effect of the buffer as a whole |
| OverlayModel.OpsSent | api/cache/overlay.go:1408-1440 | A touch is sent alone; any other primary operation comes with the removal of what is persisted of it, unless the buffer is ephemeral |
| OverlayModel.LegalOps | api/cache/cache.go:636-650 | The backend takes the operations of some keys exactly if each fits it and has its persisted copy there |
| OverlayModel.ExistenceAccepted | api/cache/overlay.go:1316-1325 | That an object exists is met exactly by one in the backend or one the buffer creates; no other comparator is waived |
| OverlayModel.ComparedOnce | api/requirement/reference.go:146-152 | A version is below, at or above that of a key, exactly one of them; an absent key is at 0 |
| CommitModel.SmallCommitShows | api/cache/overlay.go:1399-1483 | A commit in one transaction leaves in the backend what the buffer showed over it |
| CommitModel.SmallCommitIsStep | api/cache/overlay.go:1462-1483 | A commit that succeeds in one transaction is a step of the state machine of consistent updates, whatever the history |
| CommitModel.SmallCommitStoresUpdate | api/requirement/consistent_update.go:49-75 | So no update is lost in it: each deciding update is that of the object the backend held |
| CommitModel.SmallCommitChecks | api/requirement/consistent_update.go:49-75 | It has found in the backend, for every consistent update, the version that the update names, or else the one that was read |
| CommitModel.WholeSent | api/cache/overlay.go:1399-1470 | The gathered operations with the comparators sent are taken exactly if every operation fits and every comparator is met or redundant, and then as a whole |
| CommitModel.AllSent | api/cache/overlay.go:1436-1460 | Parts sent one after the other within the limit leave what the whole buffer showed |
| StagingOverlay.Cache.Commit | api/cache/cache.go:636-707 | A transaction is applied as a whole to backend and cache at one revision, exactly if its operations are legal and its comparators hold |
| StagingOverlay.Overlay.CreatePrimary | api/cache/overlay.go:1097-1118 | Create succeeds exactly if the view lacks the key and the operation limit allows, and then the view has the object; create entries stay on keys the base lacks; a create that fails below the limit is counted all the same |
| StagingOverlay.Overlay.UpdatePrimary | api/cache/overlay.go:1120-1143 | Update succeeds exactly if base or buffer has an entry and the limit allows, and then the view has the object; an update that fails below the limit is counted all the same |
| StagingOverlay.Overlay.DeletePrimary | api/cache/overlay.go:1145-1167 | Delete succeeds exactly if base or buffer has an entry and the limit allows, and then the view lacks the key; it hands back what the view had; a delete that fails below the limit is counted all the same |
| StagingOverlay.Overlay.Admit | api/cache/overlay.go:1097-1118 | An operation is admitted, and counted, exactly below the limit |
| StagingOverlay.Overlay.Get | api/cache/overlay.go:920-959 | Get finds exactly the keys of the view, with the content of the view, at the version of the cached object, or 0 if the cache has none |
| StagingOverlay.Overlay.Stat | api/cache/overlay.go:1592-1613 | Stat reports valid exactly the keys Get finds |
| StagingOverlay.Overlay.List | api/cache/overlay.go:990-1090 | List over a prefix returns exactly one object for each key with that prefix that Get finds, as it was staged or as the cache has it, version included |
| StagingOverlay.Overlay.PrepareItems | api/requirement/consistent_update.go:49-75 | Every consistent update is applied to the object in the cache and guarded by the version read |
| StagingOverlay.Overlay.Comparators | api/cache/overlay.go:1303-1345 | Every comparator is sent once, except that an object the buffer creates exists |
| StagingOverlay.Overlay.SendBatches | api/cache/overlay.go:1399-1460 | The loop over a large buffer: whenever it reaches the limit a part is sent, no transaction is above the limit but for touches, and the rest is pending |
| StagingOverlay.Overlay.Gather | api/cache/overlay.go:1399-1446 | The loop over a buffer for one transaction: it collects the operations of each key once; a buffer below the limit is never refused, one with that many operations besides touches always |
| StagingOverlay.Overlay.CommitDirect | api/cache/overlay.go:1290-1484 | A commit in one transaction, below the limit, succeeds exactly if the buffer can be prepared, every operation fits the backend, and every comparator is met; it then leaves backend and cache with the buffer as a whole, and refused it leaves them as they were. A large buffer goes out in parts. Either way a success leaves in the backend what the prepared buffer showed, and an empty buffer |
| StagingOverlay.Overlay.ValidCommits | api/cache/overlay.go:1290-1484 | A buffer of primary operations alone succeeds on an unchanged base, a small one if there is room, and nothing of it stays persisted |
| NoLostUpdate.NoUpdateLost | api/cache/overlay.go:1387-1430 | Under any interleaving of other writers, touches, the cache following and commits tried again, a commit that succeeds has stored for each consistent update the update of the object that was in the backend just before, unless its key was touched earlier while the cache had it out of date |
| NoLostUpdate.RunCoherent | api/cache/overlay.go:1510-1525 | In every run, for a key that was not touched while out of date in the cache, a version identifies one object in the backend, in the cache and in what was read |
| NoLostUpdate.CommitStoresUpdate | api/requirement/consistent_update.go:49-75 | The comparator on the version read makes the update apply to the object in the backend |
| NoLostUpdate.EveryItemCompared | api/requirement/consistent_update.go:49-75 | Every consistent update brings a comparator, on the version it names or else the one read |
| NoLostUpdate.PreparedOthers | api/requirement/consistent_update.go:49-75 | Preparing changes no entry without a consistent update, and what is primary stays primary |
| NoLostUpdate.LosesIff | api/cache/cache.go:676-687 | In every world, reachable or not: some update function of a key can be lost exactly if the cache has another content than the backend under the same version |
| NoLostUpdate.TouchSafeIff | api/cache/cache.go:676-687 | Right after a touch no update of the key can be lost, whatever its function, exactly if the cache had the object with the content of the backend |
| NoLostUpdate.LostUpdateRun | api/cache/cache.go:676-687 | A concrete run of the whole system: put, follow, put, touch, and a committed update that puts the first object back |
| NoLostUpdate.CommittedView | api/cache/overlay.go:1399-1483 | What a commit leaves in the backend is what the prepared buffer showed over it |
| NoLostUpdate.LaterItemWins | api/requirement/consistent_update.go:49-75 | For every list of consistent updates: an item decides what is staged for its key, whatever functions the other items have, exactly if no later item has its key |
| NoLostUpdate.LastItemStaged | api/requirement/consistent_update.go:49-75 | The update staged for a key is that of the last item on it |
| NoLostUpdate.StagedDeleteKeptIff | api/cache/overlay.go:1387-1430 | A staged delete deletes the key exactly if the buffer holds no consistent update for it; otherwise the key hidden by the view is updated and stays |
| SelectorRoundTrip.RoundTripIff | api/labels/selector.go:122-144 | For every selector of requirements the constructor can make: its print is refused exactly if an exact match has the empty value, a set match one value, or a set match an odd number of empty values and no other; otherwise it is parsed with each value once, which is the selector itself exactly if no value is repeated |
| SelectorRoundTrip.SingleValueRefused | api/labels/selector.go:122-144 | Under any key and value a set match of one value is refused |
| SelectorRoundTrip.EmptyValueRefused | api/labels/selector.go:587-599 | Under any key an exact match of the empty value is refused |
| SelectorRoundTrip.OddEmptiesRefused | api/labels/selector.go:567-579 | Under any key an odd number of empty values, and no other, is refused |
| SelectorRoundTrip.RepeatedValueExample | api/labels/selector.go:51-75 | Under any key a value given twice comes back once |
| SelectorRoundTrip.SelectorStep | api/labels/selector.go:185-191 | The print of a selector is lexed into the tokens of its requirements, whatever characters its keys and values are made of |
| SelectorRoundTrip.SelectorParses | api/labels/selector.go:434-465 | These tokens parse into the requirements, each value once, or are refused if one is not parseable |
| SelectorRoundTrip.IdentifierListParses | api/labels/selector.go:551-584 | A list of words is parsed into the same values, each once |
| SelectorRoundTrip.EmptiesParse | api/labels/selector.go:551-584 | A list that starts with empty values: commas are taken in pairs, so that an odd number of empty values alone is refused |
| SelectorRoundTrip.MadeAgain | api/labels/selector.go:51-75 | The constructor accepts a well-formed requirement unchanged, and also without its repeated values |
| SelectorLists.WrittenSelector | api/labels/selector.go:434-465 | Every selector of set-based requirements as it may be written, values in any order and empty ones anywhere: refused exactly if a set has an even, non-zero number of empty values at its end, its first value not counted; otherwise each requirement has exactly the values written, sorted and once each |
| SelectorLists.SetParsed | api/labels/selector.go:525-547 | A list in parentheses, in any order, is parsed into the set of its values or refused, and nothing in parentheses is the empty value |
| SelectorLists.AtComma | api/labels/selector.go:567-579 | At a comma in a list the rest is refused exactly if an even number of empty values is left at its end |
| SelectorLists.CollectIsSet | api/labels/selector.go:551-584 | The values collected are sorted and are exactly those written |
| SelectorLists.NothingElseFollows | api/labels/selector.go:434-465 | Behind a requirement the text ends or a comma and a word follow; anything else is refused |
| SelectorLists.DocumentedExample | api/labels/selector.go:619-620 | The example of the documentation is parsed into the two requirements it stands for |
| SelectorLists.ExactExample | api/labels/selector.go:506-522 | The exact operators, for every key and value |
| SelectorRoundTrip.BlanksIgnored | api/labels/selector.go:351-359 | White space in front of anything changes nothing |
| SelectorRoundTrip.ZeroSeparates | api/labels/selector.go:299-319 | A zero byte ends a word and goes with it, and is the end of the text where a word would begin |
| Selector.ConstructorMakesWellFormed | api/labels/selector.go:51-75 | What the constructor makes is well formed: its values sorted, repeated ones kept |
| Selector.ConstructorRefuses | api/labels/selector.go:51-75 | The constructor takes valid keys and values, one value for an exact match and at least one for a set, and nothing else |
| SelectorModel.NextShrinks | api/labels/selector.go:362-373 | Every token but the end takes something from the text |
| Selector.Lexer.Lex | api/labels/selector.go:362-373 | The lexer working on a position returns the token, and leaves the text, that the specification says |
| Selector.Lexer.ScanIDOrKeyword | api/labels/selector.go:299-319 | The longest word, with a zero byte behind it consumed |
| Selector.Lexer.ScanSpecialSymbol | api/labels/selector.go:322-348 | The longest operator |
| Selector.Lexer.SkipWhiteSpaces | api/labels/selector.go:351-359 | The first character that is not white space |
| Selector.Lexer.Read | api/labels/selector.go:284-291 | The next character, or zero at the end |
| Selector.TokenizeTerminated | api/labels/selector.go:422-430 | The end of the text is the last item and only the last |
| Selector.Parser.Lookahead | api/labels/selector.go:396-405 | The item at hand is within the list |
| Selector.Parser.Consume | api/labels/selector.go:408-418 | Only the end of the text leaves nothing to read |
| Selector.Parser.Scan | api/labels/selector.go:422-430 | The items are the tokens of the text |
| Selector.Parser.ParseIdentifiersList | api/labels/selector.go:551-584 | The loop over the items computes the specified list and never reads past the end |
| Selector.Parser.ParseValues | api/labels/selector.go:525-547 | The same for a list in parentheses |
| Selector.Parser.ParseExactValue | api/labels/selector.go:587-599 | The same for a single value |
| Selector.Parser.ParseOperator | api/labels/selector.go:506-522 | The operator of an item, if it is one |
| Selector.Parser.ParseKey | api/labels/selector.go:491-502 | A valid key, words of operators included |
| Selector.Parser.ParseRequirement | api/labels/selector.go:467-488 | The same for a requirement |
| Selector.Parser.Parse | api/labels/selector.go:434-465 | The same for a whole text |
| SelectorRoundTrip.InsertSorts | api/labels/selector.go:525-584 | A set of values stays sorted, with each value once |
| Selector.ParsedCanonical | api/labels/selector.go:434-465 | Every requirement that is parsed is valid, with its values sorted and once each |
| Selector.OrderUnique | api/labels/selector.go:38-42 | With one requirement for a key there is only one order by key |
| Selector.SortByKey | api/labels/selector.go:629-639 | The requirements in an order of their keys |
| Selector.Parse | api/labels/selector.go:629-639 | Parse returns the requirements of the text, valid, with sorted distinct values and ordered by key; for the print of a selector with distinct sorted keys that is the selector without repeated values, or an error, and the selector itself exactly if it is printable |
| WireRoundTrip.VarintReads | api/common.pb.go:280-288 | A number of 64 bits is read back from what is written for it, whatever follows |
| WireRoundTrip.FieldSkips | api/common.pb.go:734-832 | A legal field of any wire type, groups within groups included, is skipped exactly, whatever follows |
| WireRoundTrip.GroupSkips | api/common.pb.go:793-821 | The fields of a group up to its end tag are skipped exactly |
| WireRoundTrip.KnownFieldReads | api/common.pb.go:406-486 | A length-delimited field that is known is handed to the message and the rest left |
| WireRoundTrip.UnknownFieldReads | api/common.pb.go:406-486 | A field that is not known changes nothing |
| WireRoundTrip.FieldsRead | api/common.pb.go:406-486 | A message of legal fields is read as its known fields in order |
| WireRoundTrip.SpecReads | api/common.pb.go:487-623 | A Spec is read from its fields whatever unknown fields stand anywhere between them |
| WireRoundTrip.FilterReads | api/common.pb.go:406-486 | A Filter is read from its fields whatever unknown fields stand in it or in any of its specs |
| WireRoundTrip.WatchSpecReads | api/common.pb.go:624-733 | The same for a WatchSpec |
| WireRoundTrip.SpecRoundTrip | api/common.pb.go:199-242 | Reading what is written for a Spec into a fresh message gives the Spec |
| WireRoundTrip.FilterRoundTrip | api/common.pb.go:169-197 | The same for a Filter |
| WireRoundTrip.WatchSpecRoundTrip | api/common.pb.go:244-278 | The same for a WatchSpec |
| WireBytes.VarintAny | api/common.pb.go:410-426 | Any bytes read as a number: those up to the first that is not continued make it, in 64 bits; ten continued ones overflow, and without an end it is cut off |
| WireBytes.SpecFieldsRead | api/common.pb.go:487-623 | Legal fields in any order and any number, read into any Spec: of key and operator the last occurrence counts, every value is added in order |
| WireBytes.FilterFieldsRead | api/common.pb.go:406-486 | The same for a Filter: its specs are all of them, in order |
| WireBytes.WatchSpecFieldsRead | api/common.pb.go:624-733 | The same for a WatchSpec: the last version, all specs in order |
| WireBytes.MessageCut | api/common.pb.go:406-486 | A message cut off anywhere is refused as cut off, unless the cut is between two of its fields |
| WireBytes.SpecCut | api/common.pb.go:199-242 | The same for an encoded Spec |
| WireBytes.FilterCut | api/common.pb.go:169-197 | The same for an encoded Filter |
| WireBytes.WatchSpecCut | api/common.pb.go:244-278 | The same for an encoded WatchSpec |
| WireBytes.SpecBytes | api/common.pb.go:209-242 | The bytes of a Spec: tags 0x0A, 0x12 and 0x1A, each with length and bytes, the first two only if not empty |
| WireBytes.MessageBytes | api/common.pb.go:179-278 | The bytes of a Filter and of a WatchSpec |
| WireBytes.UnexpectedTag | api/common.pb.go:426-438 | The end of a group not begun, a field number that is not positive in 32 bits, and a known field of another wire type are refused, each with its error |
| WireBytes.UnknownWireType | api/common.pb.go:827-828 | A field of a wire type that does not exist is refused |
| WireBytes.PayloadOutcome | api/common.pb.go:439-462 | The length of a field is refused above 63 bits and beyond the bytes left, and panics where its end overflows |
| WireBytes.UnknownLength | api/common.pb.go:772-791 | The same for a field that is skipped |
| WireBytes.LeftBehind | api/common.pb.go:406-486 | The fields read before a failure are in the message |
| WireBytes.BadSpecLeft | api/common.pb.go:460-463 | A spec that is not understood is left in the message with what could be read of it, behind those before it |
| WireCodec.Sov | api/common.pb.go:343-352 | The number of bytes of a number |
| WireCodec.SpecSize | api/common.pb.go:307-325 | The size of a Spec is the number of bytes it is written in |
| WireCodec.FilterSize | api/common.pb.go:295-305 | The same for a Filter |
| WireCodec.WatchSpecSize | api/common.pb.go:327-341 | The same for a WatchSpec |
| WireCodec.EncodeVarint | api/common.pb.go:280-288 | The bytes of the number are put in at the offset and nothing else of the buffer changes |
| WireCodec.MarshalSpecTo | api/common.pb.go:209-242 | Exactly the bytes of the Spec are put in at the offset and nothing else of the buffer changes |
| WireCodec.MarshalFilterTo | api/common.pb.go:179-197 | The same for a Filter |
| WireCodec.MarshalWatchSpecTo | api/common.pb.go:254-278 | The same for a WatchSpec |
| WireCodec.MarshalSpec | api/common.pb.go:199-207 | A buffer of the message's size is filled to its end with its encoding |
| WireCodec.MarshalFilter | api/common.pb.go:169-177 | The same for a Filter |
| WireCodec.MarshalWatchSpec | api/common.pb.go:244-252 | The same for a WatchSpec |
| WireReader.ReadVarint | api/common.pb.go:410-426 | The loop over the bytes reads the number, in 64 bits, or reports which error |
| WireReader.Skip | api/common.pb.go:734-832 | The end of a field, past the end of the bytes or wrapped around where the sum overflows, or which error |
| WireReader.SkipGroup | api/common.pb.go:793-821 | The end of a group, found field by field |
| WireReader.SkipBounds | api/common.pb.go:734-832 | In a slice a field is skipped forwards or its end has wrapped around below zero |
| WireReader.ReadPayload | api/common.pb.go:440-463 | The bytes of a length-delimited field, or which error, or a panic where the end overflows |
| WireReader.ReadField | api/common.pb.go:406-486 | The next field, or which error |
| WireReader.SpecMessage.Unmarshal | api/common.pb.go:487-623 | Any bytes at all are read into the message as the specification says, or fail with the same error, leaving the message with the fields read until then |
| WireReader.FilterMessage.Unmarshal | api/common.pb.go:406-486 | The same for a Filter, with the spec that failed left half read, or empty if the panic came before it was read |
| WireReader.WatchSpecMessage.Unmarshal | api/common.pb.go:624-733 | The same for a WatchSpec |
| ReferenceGraph.SetDiff | api/graph/cayley.go:74-94 | What is in one list and not in the other, both ways |
| ReferenceGraph.GetDiff | api/graph/cayley.go:96-177 | For every field the references to add and to delete, strict and weak as sets, a selector replaced only if it differs |
| ReferenceGraph.DiffReconciles | api/graph/cayley.go:264-294 | Applying the difference leaves an edge exactly if it is asked for |
| ReferenceGraph.StaysOneSelector | api/graph/cayley.go:264-294 | Reconciling keeps at most one, non-empty selector for a field of a node |
| ReferenceGraph.ReferencesAreRequested | api/graph/cayley.go:179-214 | What is read of a node after it is updated is what was asked for |
| ReferenceGraph.ReadsEdges | api/graph/cayley.go:179-214 | Forwards a node lists the targets of its edges, backwards the subjects |
| ReferenceGraph.BackAndForth | api/graph/cayley.go:179-214 | One object refers to another exactly if the other lists it backwards |
| ReferenceGraph.Store.GetNode | api/graph/cayley.go:179-214 | For every field with edges the far ends of those edges, each once, and nothing for a node without edges |
| ReferenceGraph.Store.UpdateNode | api/graph/cayley.go:264-294 | The edges from the node become exactly the requested ones, no edge from another node changes, and the condition on selectors is kept |
| ReferenceTree.Walker.GetVertex | api/graph/cayley.go:216-252 | The walk ends on every finite graph; what was visited is kept, each new vertex has all its edges and is reached from this one |
| ReferenceTree.Walker.Tree | api/graph/cayley.go:328-338 | Exactly one vertex for each object reached through strict or weak edges, each with lists of exactly the vertices its stored edges lead to |
| ReferenceTree.FollowsEdges | api/graph/cayley.go:216-252 | The walk follows strict and weak edges from subject to target, backwards the other way, and no selectors |
| ReferenceTree.AllReached | api/graph/cayley.go:216-252 | A set of finished vertices with the root holds every object that is reached |
| TopologicalSort.Sort | mbt/utils.py:130-150 | The sort raises exactly when the graph's own nodes depend on each other in a circle, leaving only nodes that depend on what is left; otherwise every node is listed once with its dependencies, after all those in the graph |
| TopologicalSort.Pass | mbt/utils.py:137-148 | A pass takes out nodes that depend on nothing left, or finds every node stuck |
| TopologicalSort.OrderedIsAcyclic | mbt/utils.py:130-150 | A graph that can be ordered has no cycle |
| TopologicalSort.StuckIsCyclic | mbt/utils.py:147-148 | Nodes that all depend on one another of them hold a cycle |
| WatchBatching.NothingLost | api/listerwatcher/aggwatch.go:21-118 | After any actions the batches sent and then what is pending are, in order, the control events received and the transformed changes, while the loop ran; no batch is longer than the batch size; while the loop runs the timer is on whenever an event is pending |
| WatchBatching.PendingIsFlushed | api/listerwatcher/aggwatch.go:110-114 | When the timer has fired and the stream takes the batch, everything accepted has been sent |
| WatchBatching.StepKeeps | api/listerwatcher/aggwatch.go:36-56 | Each action keeps the invariant and the flow of events |
| WatchBatching.ReceiveAdds | api/listerwatcher/aggwatch.go:62-108 | A control event adds itself and a change its transformed form; a change that cannot be transformed, or an error, adds nothing and ends the loop; an event of unknown type does nothing |
| WatchBatching.SentExactlyWhenDue | api/listerwatcher/aggwatch.go:28-56 | All that is pending goes out in one batch exactly when the timer has fired or the batch is full, and the stream takes it |
| WatchBatching.EndsExactly | api/listerwatcher/aggwatch.go:58-118 | The loop ends exactly with its watch or context, with an event that cannot be passed on, or with a batch refused |
| WatchBatching.TimerRuns | api/listerwatcher/aggwatch.go:36-56 | An event starts a timer that is off, a full batch starts it anew, and only its value being taken stops it |
| WatchBatching.Watch.AddEvent | api/listerwatcher/aggwatch.go:36-56 | Adding an event, with a batch sent and the timer started anew when it is full; the timer's channel is read only when it holds a value |
| WatchBatching.Watch.SendToStream | api/listerwatcher/aggwatch.go:28-35 | A batch that is sent is no longer pending; one that is not stays |
| WatchBatching.Watch.Loop | api/listerwatcher/aggwatch.go:58-118 | The loop over any actions ends in the state the specification gives, with nothing lost |

## Left out

- Field selectors, label matching (`Matches`), and the printing of selectors as SQL.
- Filtered listing from store, snapshot and overlay, and sorting of lists.
- Reading and writing snapshots as JSON, and restoring the cache from the backend.
- Verification of a staging buffer, restoring one from the backend, and clearing part of one.
- Secondary (dry-run) operations on the overlay; only primary operations are staged.
- The check that a buffer was verified as a whole before it is committed (`verVer`).
- Outcome reporting and the retry count of a commit; a commit may be tried again any number of times.
- The watch queues and event filters between the store's callbacks and the watchers.
- DeleteNode, IsIsolated and Referrers of the graph; they would only add easy members.
- The other generated codecs, which repeat the pattern of this one, and messages with nil elements in a list.
- DeleteQueue.DelPendingHeap.Fix: the library heap's reordering is modelled as sift-up and sift-down on an array of objects; its own source is not part of this model.
- WireReader.FilterMessage.Unmarshal: the specs in a message are values, not shared objects.
- WireReader.WatchSpecMessage.Unmarshal: the same holds for this message.
- SnapshotLimits.CollectSafeIff: takes it that copies are recorded with the snapshots in the table, which `RunRecorded` proves of every run; `RunCollectSafeIff` is free of it.
- CopyRecords.RunRecorded: as in the runs of snapshot isolation, deletes have a revision that is not 0.
- CommitModel.SmallCommitIsStep: a touch of a key that the cache lacks ends the process right after the transaction and is excluded.
- TopologicalSort.Sort: the caller's dictionary, which the code empties as it goes, is the second result; the nodes of a pass are taken in any order, of which the dictionary's own is one.
- Selector.SortByKey: requirements with equal keys are left in an order that is not specified, as the library sort does.
- WatchBatching.Watch.Loop: the transformation and the packing of an event are one parameter, the event they yield or none.
