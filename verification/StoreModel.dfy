/**
 The revisioned object store as a value: what every key holds, the revisions of the
 last write and the last snapshot, and the table of snapshots. Each operation of the
 store is a function on this value; class `ObjectStore.Store` implements them in place.
 Revisions are unbounded: the store only compares and copies them.
 */
module StoreModel {
  import opened Wrappers

  type Key = string

  /**
   A configuration object. `name` is the key its metadata makes, `version` the resource
   version in its metadata.
   */
  datatype Object = Object(name: Key, kind: string, body: string, version: nat)

  /** An object as content, without the version the backend gives it. */
  function Bare(o: Object): Object {
    o.(version := 0)
  }

  /** A copy saved for a snapshot. `obj` is absent in the zero value only. */
  datatype Mvcc = Mvcc(deleted: bool, obj: Option<Object>, snapshotRev: nat, objRev: nat)

  datatype Entry = Entry(
    revision: nat,
    obj: Object,
    lastUpd: nat,
    deleted: bool,
    snapshots: map<nat, Mvcc>,
    snapshotList: seq<nat>,
    lastSnapshot: nat)

  datatype Snapshot = Snapshot(keys: map<Key, nat>, deleted: bool)

  datatype Db = Db(
    objs: map<Key, Entry>,
    lastVer: nat,
    lastSnapshot: nat,
    snapshots: map<nat, Snapshot>)

  const EmptyDb := Db(map[], 0, 0, map[])

  datatype Outcome = Done | RevBackpedals | NotCorrectRev | NotFound | Panicked

  datatype Callback = Callback(key: Key, obj: Object, prev: Option<Object>)

  datatype Write = Write(db: Db, outcome: Outcome, callback: Option<Callback>)

  /** What a read at a snapshot returns; `Read(None)` is a nil object without an error. */
  datatype SnapshotRead = Read(obj: Option<Object>) | ReadNotFound | ReadNoSnapshot

  // ---- The live contents ----

  predicate IsLive(db: Db, key: Key) {
    key in db.objs && !db.objs[key].deleted
  }

  function Live(db: Db): map<Key, Object> {
    map k | k in db.objs && !db.objs[k].deleted :: db.objs[k].obj
  }

  function Get(db: Db, key: Key): Option<Object> {
    if IsLive(db, key) then Some(db.objs[key].obj) else None
  }

  // ---- Versions kept for snapshots ----

  const ZeroMvcc := Mvcc(false, None, 0, 0)

  /** The saved copy for a snapshot, or the zero value when there is none. */
  function Saved(e: Entry, rev: nat): Mvcc {
    if rev in e.snapshots then e.snapshots[rev] else ZeroMvcc
  }

  /** Saving a copy for a snapshot older than one already saved for is a crash. */
  predicate Backpedals(e: Entry, snapshotVer: nat) {
    snapshotVer != 0 && e.lastSnapshot > snapshotVer
  }

  predicate NeedsVersion(e: Entry, snapshotVer: nat) {
    snapshotVer != 0 && e.lastSnapshot != snapshotVer
  }

  function AddVersion(e: Entry, snapshotVer: nat): Entry {
    if NeedsVersion(e, snapshotVer) then
      e.(snapshots := e.snapshots[snapshotVer := Mvcc(e.deleted, Some(e.obj), snapshotVer, e.revision)],
         lastSnapshot := snapshotVer,
         snapshotList := e.snapshotList + [snapshotVer])
    else e
  }

  /** A key that saved a copy is recorded with the snapshot, if that is still in the table. */
  function RecordKey(db: Db, key: Key, e: Entry): map<nat, Snapshot> {
    if NeedsVersion(e, db.lastSnapshot) && db.lastSnapshot in db.snapshots then
      var ss := db.snapshots[db.lastSnapshot];
      db.snapshots[db.lastSnapshot := ss.(keys := ss.keys[key := e.revision])]
    else db.snapshots
  }

  /** The scan for the best match from position `i`, with the last copy passed so far. */
  function BestMatch(e: Entry, rev: nat, i: nat, prev: Option<Mvcc>): Option<Mvcc>
    requires i <= |e.snapshotList|
    decreases |e.snapshotList| - i
  {
    if i == |e.snapshotList| then None
    else
      var at := Saved(e, e.snapshotList[i]);
      if e.snapshotList[i] > rev then
        if at.objRev <= rev then Some(at) else prev
      else BestMatch(e, rev, i + 1, Some(at))
  }

  function GetVersion(e: Entry, rev: nat): Option<Mvcc> {
    if rev in e.snapshots then Some(e.snapshots[rev]) else BestMatch(e, rev, 0, None)
  }

  predicate LiveSnapshot(db: Db, rev: nat) {
    rev in db.snapshots && !db.snapshots[rev].deleted
  }

  predicate DeadSnapshot(db: Db, rev: nat) {
    rev in db.snapshots && db.snapshots[rev].deleted
  }

  function ReadEntry(e: Entry, rev: nat): SnapshotRead {
    if e.revision <= rev then
      if e.deleted then ReadNotFound else Read(Some(e.obj))
    else
      match GetVersion(e, rev)
      case None => ReadNoSnapshot
      case Some(v) => if v.deleted then ReadNotFound else Read(v.obj)
  }

  function GetFromSnapshot(db: Db, rev: nat, key: Key): SnapshotRead {
    if !LiveSnapshot(db, rev) then ReadNoSnapshot
    else if key !in db.objs then ReadNotFound
    else ReadEntry(db.objs[key], rev)
  }

  // ---- Writes ----

  /** The key's object saved for the last snapshot, if that has no copy yet. */
  function SavedFor(db: Db, key: Key): Db
    requires key in db.objs
  {
    db.(objs := db.objs[key := AddVersion(db.objs[key], db.lastSnapshot)],
        snapshots := RecordKey(db, key, db.objs[key]))
  }

  function NewEntry(rev: nat, obj: Object, now: nat): Entry {
    Entry(rev, obj, now, false, map[], [], 0)
  }

  /** Set on a key that is in the map, at a revision that is not older. The callback is deferred: a panic fires it too. */
  function Overwrite(db: Db, key: Key, rev: nat, obj: Object, now: nat): Write
    requires key in db.objs
  {
    var e := db.objs[key];
    var prev := if e.deleted then None else Some(e.obj);
    var callback := if e.revision < rev then Some(Callback(key, obj, prev)) else None;
    if Backpedals(e, db.lastSnapshot) then Write(db, Panicked, callback)
    else
      var db1 := SavedFor(db, key);
      var e1 := db1.objs[key].(obj := obj, revision := rev, deleted := false, lastUpd := now);
      Write(db1.(objs := db1.objs[key := e1], lastVer := rev), Done, callback)
  }

  function Set(db: Db, key: Key, rev: nat, obj: Object, now: nat): Write {
    if key !in db.objs then
      Write(db.(objs := db.objs[key := NewEntry(rev, obj, now)], lastVer := rev),
            Done, Some(Callback(key, obj, None)))
    else if rev < db.objs[key].revision then Write(db, RevBackpedals, None)
    else Overwrite(db, key, rev, obj, now)
  }

  /** The tombstone carries the revision of the delete, unless that is 0. */
  function Tombstone(e: Entry, rev: nat, now: nat): Entry {
    e.(obj := e.obj.(version := rev),
       revision := if rev != 0 then rev else e.revision,
       deleted := true,
       lastUpd := now)
  }

  /** Delete of a key that is in the map, once its revision has been found in order. */
  function Bury(db: Db, key: Key, rev: nat, now: nat): Write
    requires key in db.objs
  {
    var e := db.objs[key];
    if Backpedals(e, db.lastSnapshot) then Write(db, Panicked, Some(Callback(key, e.obj, None)))
    else
      var db1 := SavedFor(db, key);
      if e.deleted then Write(db1, NotFound, None)
      else
        var e1 := Tombstone(db1.objs[key], rev, now);
        Write(db1.(objs := db1.objs[key := e1]), Done, Some(Callback(key, e1.obj, None)))
  }

  function Delete(db: Db, key: Key, rev: nat, now: nat): Write {
    if key !in db.objs then Write(db, NotFound, None)
    else if rev == 0 then Bury(db, key, rev, now)
    else if rev <= db.objs[key].revision then Write(db, NotCorrectRev, None)
    else Bury(db.(lastVer := rev), key, rev, now)
  }

  // ---- Snapshots ----

  /** A snapshot of the last written revision is taken only if the table has none for it. */
  function StartSnapshot(db: Db): Db {
    if db.lastVer in db.snapshots then db
    else db.(snapshots := db.snapshots[db.lastVer := Snapshot(map[], false)],
             lastSnapshot := db.lastVer)
  }

  function DeleteSnapshot(db: Db, rev: nat): Db {
    if LiveSnapshot(db, rev) then
      db.(snapshots := db.snapshots[rev := db.snapshots[rev].(deleted := true)])
    else db
  }

  // ---- Purging ----

  function WithoutCopy(db: Db, snap: nat, key: Key): Db
    requires snap in db.snapshots && key in db.objs
  {
    var e, ss := db.objs[key], db.snapshots[snap];
    db.(objs := db.objs[key := e.(snapshots := e.snapshots - {snap})],
        snapshots := db.snapshots[snap := ss.(keys := ss.keys - {key})])
  }

  /** An object holds a copy for a snapshot; its key is recorded with a snapshot in the table. */
  predicate HasCopy(db: Db, key: Key, snap: nat) {
    key in db.objs && snap in db.objs[key].snapshots
  }

  predicate RecordedAt(db: Db, key: Key, snap: nat) {
    snap in db.snapshots && key in db.snapshots[snap].keys
  }

  /** Copies and records go together. */
  ghost predicate TakenTogether(db: Db, db': Db) {
    && (forall k, s | k in db.objs && RecordedAt(db, k, s) && !RecordedAt(db', k, s) :: !HasCopy(db', k, s))
    && (forall k, s | HasCopy(db, k, s) && !HasCopy(db', k, s) :: !RecordedAt(db', k, s))
  }

  /** `e'` is `e` without some of the copies saved for dead snapshots. */
  ghost predicate EntryCollected(db: Db, e: Entry, e': Entry) {
    && e' == e.(snapshots := e'.snapshots)
    && e'.snapshots.Keys <= e.snapshots.Keys
    && (forall s <- e'.snapshots :: e'.snapshots[s] == e.snapshots[s])
    && (forall s <- e.snapshots :: s !in e'.snapshots ==> DeadSnapshot(db, s))
  }

  /** Some copies of dead snapshots, and some dead snapshots, are gone; all else is as it was. */
  ghost predicate Collected(db: Db, db': Db) {
    && db'.lastVer == db.lastVer
    && db'.objs.Keys == db.objs.Keys
    && (forall k <- db.objs :: EntryCollected(db, db.objs[k], db'.objs[k]))
    && db'.snapshots.Keys <= db.snapshots.Keys
    && (forall s <- db'.snapshots ::
          && db'.snapshots[s].deleted == db.snapshots[s].deleted
          && db'.snapshots[s].keys.Keys <= db.snapshots[s].keys.Keys
          && (!db.snapshots[s].deleted ==> db'.snapshots[s] == db.snapshots[s]))
    && (forall s <- db.snapshots :: s !in db'.snapshots ==> db.snapshots[s].deleted)
    && db'.lastSnapshot == (if db'.snapshots == map[] && db.snapshots != map[] then 0 else db.lastSnapshot)
    && TakenTogether(db, db')
  }

  /** Every copy recorded with a snapshot is gone; it stays only for keys that are gone themselves. */
  ghost predicate Cleared(db: Db, db': Db, snap: nat)
    requires snap in db.snapshots
  {
    && (forall k <- db.snapshots[snap].keys :: k in db'.objs ==> snap !in db'.objs[k].snapshots)
    && (snap in db'.snapshots ==>
          db'.snapshots[snap].keys != map[] && forall k <- db'.snapshots[snap].keys :: k !in db'.objs)
  }

  /** Nothing of a snapshot has been collected. */
  ghost predicate Intact(db: Db, db': Db, snap: nat)
    requires snap in db.snapshots
  {
    && snap in db'.snapshots && db'.snapshots[snap] == db.snapshots[snap]
    && (forall k <- db'.objs :: k in db.objs && snap in db.objs[k].snapshots ==> snap in db'.objs[k].snapshots)
  }

  /** No dead snapshot is touched before the older ones are cleared. */
  ghost predicate OldestFirst(db: Db, db': Db) {
    forall s, t | DeadSnapshot(db, s) && DeadSnapshot(db, t) && s < t :: Cleared(db, db', s) || Intact(db, db', t)
  }

  ghost predicate AllCleared(db: Db, db': Db) {
    forall s | DeadSnapshot(db, s) :: Cleared(db, db', s)
  }

  const DelayedDelPurgeQuanta: nat := 100

  /** A tombstone the purge may remove. */
  predicate Expired(e: Entry, now: int, past: int) {
    e.deleted && e.snapshots == map[] && now - e.lastUpd >= past
  }

  /** At most `quanta + 1` expired tombstones without saved copies are gone. */
  ghost predicate Reaped(db: Db, db': Db, now: int, past: int, quanta: nat) {
    && db' == db.(objs := db'.objs)
    && db'.objs.Keys <= db.objs.Keys
    && (forall k <- db'.objs :: db'.objs[k] == db.objs[k])
    && (forall k <- db.objs :: k !in db'.objs ==> Expired(db.objs[k], now, past))
    && |db.objs.Keys - db'.objs.Keys| <= quanta + 1
  }

  ghost predicate Purged(db: Db, db': Db, now: int, past: int, quanta: nat) {
    exists mid :: Collected(db, mid) && OldestFirst(db, mid) && Reaped(mid, db', now, past, quanta)
  }

  // ---- Resynchronisation ----

  predicate HasPrefix(prefix: Key, key: Key) {
    prefix <= key
  }

  function Mark(db: Db, prefix: Key): Db {
    db.(objs := map k | k in db.objs ::
          if HasPrefix(prefix, k) then db.objs[k].(deleted := true) else db.objs[k])
  }

  function Sweep(db: Db, prefix: Key): Db {
    db.(objs := map k | k in db.objs && !(HasPrefix(prefix, k) && db.objs[k].deleted) :: db.objs[k])
  }
}
