/**
 Snapshot isolation over whole runs of the store: writes, snapshots taken, snapshots
 deleted oldest first, and purges that collect them.
 */
module SnapshotIsolation {
  import opened Wrappers
  import opened StoreModel

  datatype Op =
    | SetOp(key: Key, rev: nat, obj: Object, now: nat)
    | DeleteOp(key: Key, rev: nat, now: nat)
    | StartOp
    | DropOp(snapshot: nat)
    | PurgeOp(at: int, past: int, quanta: nat)

  /** A write moves forward: not below the last write and above every snapshot still known. */
  ghost predicate Forward(db: Db, rev: nat) {
    && rev >= db.lastVer
    && (db.lastSnapshot != 0 ==> rev > db.lastSnapshot)
    && (forall s <- db.snapshots :: rev > s)
  }

  /** Only the oldest live snapshot may be deleted. */
  ghost predicate OldestLive(db: Db, rev: nat) {
    forall s <- db.snapshots :: !db.snapshots[s].deleted ==> rev <= s
  }

  ghost predicate Step(db: Db, op: Op, db': Db) {
    match op
    case SetOp(key, rev, obj, now) => Forward(db, rev) && db' == Set(db, key, rev, obj, now).db
    case DeleteOp(key, rev, now) => rev != 0 && Forward(db, rev) && db' == Delete(db, key, rev, now).db
    case StartOp => db' == StartSnapshot(db)
    case DropOp(rev) => OldestLive(db, rev) && db' == DeleteSnapshot(db, rev)
    case PurgeOp(at, past, quanta) => Purged(db, db', at, past, quanta)
  }

  ghost predicate IsRun(run: seq<Db>, ops: seq<Op>) {
    && |run| == |ops| + 1
    && run[0] == EmptyDb
    && forall i | 0 <= i < |ops| :: StepAt(run, ops, i)
  }

  ghost predicate StepAt(run: seq<Db>, ops: seq<Op>, i: nat)
    requires i < |ops| && |run| == |ops| + 1
  {
    Step(run[i], ops[i], run[i + 1])
  }

  // ---- The invariant of every run ----

  ghost predicate EntryOk(e: Entry, lastVer: nat, lastSnapshot: nat) {
    && e.revision <= lastVer
    && (forall i, j | 0 <= i < j < |e.snapshotList| :: e.snapshotList[i] < e.snapshotList[j])
    && (forall i | 0 <= i < |e.snapshotList| :: 0 < e.snapshotList[i] <= e.lastSnapshot)
    && (e.lastSnapshot != 0 ==> e.lastSnapshot in e.snapshotList)
    && (e.lastSnapshot != 0 ==> e.lastSnapshot < lastVer)
    && (lastSnapshot != 0 ==> e.lastSnapshot <= lastSnapshot)
    && (forall s <- e.snapshots :: s in e.snapshotList && e.snapshots[s].obj.Some?)
  }

  /** Nothing is ahead of the last version, and no snapshot in the table ahead of the last one. */
  ghost predicate Bounded(db: Db) {
    && db.lastSnapshot <= db.lastVer
    && (forall s <- db.snapshots :: s <= db.lastSnapshot)
    && (forall k <- db.objs :: EntryOk(db.objs[k], db.lastVer, db.lastSnapshot))
  }

  ghost predicate DeadFirst(db: Db) {
    forall s, t | DeadSnapshot(db, s) && LiveSnapshot(db, t) :: s < t
  }

  ghost predicate Ok(db: Db) {
    Bounded(db) && DeadFirst(db)
  }

  lemma AddVersionOk(e: Entry, db: Db, rev: nat)
    requires Bounded(db) && EntryOk(e, db.lastVer, db.lastSnapshot) && Forward(db, rev)
    ensures !Backpedals(e, db.lastSnapshot)
    ensures EntryOk(AddVersion(e, db.lastSnapshot), rev, db.lastSnapshot)
  {
  }

  lemma DeadFirstKept(db: Db, db': Db)
    requires DeadFirst(db) && db'.snapshots.Keys == db.snapshots.Keys
    requires forall s <- db.snapshots :: db'.snapshots[s].deleted == db.snapshots[s].deleted
    ensures DeadFirst(db')
  {
    forall s, t | DeadSnapshot(db', s) && LiveSnapshot(db', t) ensures s < t {
      assert DeadSnapshot(db, s) && LiveSnapshot(db, t);
    }
  }

  lemma RecordKeyKeeps(db: Db, key: Key, e: Entry)
    ensures RecordKey(db, key, e).Keys == db.snapshots.Keys
    ensures forall s <- db.snapshots :: RecordKey(db, key, e)[s].deleted == db.snapshots[s].deleted
  {
  }

  /** A write changes no snapshot but for the keys noted in it. */
  ghost predicate SameSnapshots(db: Db, db': Db) {
    && db'.snapshots.Keys == db.snapshots.Keys && db'.lastSnapshot == db.lastSnapshot
    && forall s <- db.snapshots :: db'.snapshots[s].deleted == db.snapshots[s].deleted
  }

  lemma SetSameSnapshots(db: Db, key: Key, rev: nat, obj: Object, now: nat)
    ensures SameSnapshots(db, Set(db, key, rev, obj, now).db)
  {
    if key in db.objs { RecordKeyKeeps(db, key, db.objs[key]); }
  }

  lemma BurySameSnapshots(db: Db, key: Key, rev: nat, now: nat)
    requires key in db.objs
    ensures SameSnapshots(db, Bury(db, key, rev, now).db)
  {
    RecordKeyKeeps(db, key, db.objs[key]);
  }

  lemma DeleteSameSnapshots(db: Db, key: Key, rev: nat, now: nat)
    ensures SameSnapshots(db, Delete(db, key, rev, now).db)
  {
    if key in db.objs {
      BurySameSnapshots(db, key, rev, now);
      BurySameSnapshots(db.(lastVer := rev), key, rev, now);
    }
  }

  lemma SetBounded(db: Db, key: Key, rev: nat, obj: Object, now: nat)
    requires Bounded(db) && Forward(db, rev)
    ensures var w := Set(db, key, rev, obj, now); w.outcome == Done && Bounded(w.db) && w.db.lastVer == rev
  {
    var db' := Set(db, key, rev, obj, now).db;
    SetSameSnapshots(db, key, rev, obj, now);
    if key in db.objs { AddVersionOk(db.objs[key], db, rev); }
    forall k <- db'.objs ensures EntryOk(db'.objs[k], db'.lastVer, db'.lastSnapshot) {
      if k in db.objs { assert EntryOk(db.objs[k], db.lastVer, db.lastSnapshot); }
    }
  }

  lemma SetOk(db: Db, key: Key, rev: nat, obj: Object, now: nat)
    requires Ok(db) && Forward(db, rev)
    ensures var w := Set(db, key, rev, obj, now); w.outcome == Done && Ok(w.db) && w.db.lastVer == rev
  {
    SetBounded(db, key, rev, obj, now);
    SetSameSnapshots(db, key, rev, obj, now);
    DeadFirstKept(db, Set(db, key, rev, obj, now).db);
  }

  lemma DeleteBounded(db: Db, key: Key, rev: nat, now: nat)
    requires Bounded(db) && rev != 0 && Forward(db, rev)
    ensures var w := Delete(db, key, rev, now); w.outcome != Panicked && Bounded(w.db)
  {
    var db' := Delete(db, key, rev, now).db;
    DeleteSameSnapshots(db, key, rev, now);
    forall k <- db'.objs ensures EntryOk(db'.objs[k], db'.lastVer, db'.lastSnapshot) {
      DeleteEntryOk(db, key, rev, now, k);
    }
    if key in db.objs { AddVersionOk(db.objs[key], db, rev); }
  }

  lemma DeleteOk(db: Db, key: Key, rev: nat, now: nat)
    requires Ok(db) && rev != 0 && Forward(db, rev)
    ensures var w := Delete(db, key, rev, now); w.outcome != Panicked && Ok(w.db)
  {
    DeleteBounded(db, key, rev, now);
    DeleteSameSnapshots(db, key, rev, now);
    DeadFirstKept(db, Delete(db, key, rev, now).db);
  }

  /** What a delete in order makes of the entry of its key. */
  function Buried(e: Entry, s: nat, rev: nat, now: nat): Entry {
    if e.deleted then AddVersion(e, s) else Tombstone(AddVersion(e, s), rev, now)
  }

  lemma DeleteObjs(db: Db, key: Key, rev: nat, now: nat)
    requires rev != 0 && key in db.objs && rev > db.objs[key].revision && !Backpedals(db.objs[key], db.lastSnapshot)
    ensures var db' := Delete(db, key, rev, now).db;
            db'.objs == db.objs[key := Buried(db.objs[key], db.lastSnapshot, rev, now)] && db'.lastVer == rev
  {
  }

  lemma BuriedOk(e: Entry, s: nat, rev: nat, now: nat)
    requires EntryOk(AddVersion(e, s), rev, s) && rev != 0 && s < rev
    ensures EntryOk(Buried(e, s, rev, now), rev, s)
  {
  }

  lemma DeleteEntryOk(db: Db, key: Key, rev: nat, now: nat, k: Key)
    requires Bounded(db) && rev != 0 && Forward(db, rev)
    ensures var db' := Delete(db, key, rev, now).db;
            k in db'.objs ==> EntryOk(db'.objs[k], db'.lastVer, db'.lastSnapshot)
  {
    DeleteSameSnapshots(db, key, rev, now);
    if k in db.objs { assert EntryOk(db.objs[k], db.lastVer, db.lastSnapshot); }
    if key in db.objs && rev > db.objs[key].revision {
      AddVersionOk(db.objs[key], db, rev);
      DeleteObjs(db, key, rev, now);
      BuriedOk(db.objs[key], db.lastSnapshot, rev, now);
    }
  }

  lemma StartBounded(db: Db)
    requires Bounded(db)
    ensures Bounded(StartSnapshot(db)) && StartSnapshot(db).lastSnapshot == db.lastVer
  {
    var db' := StartSnapshot(db);
    forall k <- db'.objs ensures EntryOk(db'.objs[k], db'.lastVer, db'.lastSnapshot) {
      assert EntryOk(db.objs[k], db.lastVer, db.lastSnapshot);
    }
  }

  lemma StartOk(db: Db)
    requires Ok(db)
    ensures Ok(StartSnapshot(db))
    ensures StartSnapshot(db).lastSnapshot == db.lastVer
  {
    var db' := StartSnapshot(db);
    StartBounded(db);
    forall s, t | DeadSnapshot(db', s) && LiveSnapshot(db', t) ensures s < t {
      assert DeadSnapshot(db, s);
      if t in db.snapshots { assert LiveSnapshot(db, t); }
    }
  }

  lemma DropOk(db: Db, rev: nat)
    requires Ok(db) && OldestLive(db, rev)
    ensures Ok(DeleteSnapshot(db, rev))
  {
    var db' := DeleteSnapshot(db, rev);
    forall s, t | DeadSnapshot(db', s) && LiveSnapshot(db', t) ensures s < t {
      assert LiveSnapshot(db, t);
      if s != rev || !LiveSnapshot(db, rev) { assert DeadSnapshot(db, s); }
    }
  }

  lemma CollectBounded(db: Db, mid: Db)
    requires Bounded(db) && Collected(db, mid)
    ensures Bounded(mid)
  {
    forall k <- mid.objs ensures EntryOk(mid.objs[k], mid.lastVer, mid.lastSnapshot) {
      assert EntryOk(db.objs[k], db.lastVer, db.lastSnapshot);
      assert EntryCollected(db, db.objs[k], mid.objs[k]);
    }
  }

  lemma CollectOk(db: Db, mid: Db)
    requires Ok(db) && Collected(db, mid)
    ensures Ok(mid)
  {
    CollectBounded(db, mid);
    forall s, t | DeadSnapshot(mid, s) && LiveSnapshot(mid, t) ensures s < t {
      assert DeadSnapshot(db, s) && LiveSnapshot(db, t);
    }
  }

  lemma ReapOk(mid: Db, db': Db, at: int, past: int, quanta: nat)
    requires Ok(mid) && Reaped(mid, db', at, past, quanta)
    ensures Ok(db')
  {
    DeadFirstKept(mid, db');
  }

  lemma StepOk(db: Db, op: Op, db': Db)
    requires Ok(db) && Step(db, op, db')
    ensures Ok(db')
  {
    match op
    case SetOp(key, rev, obj, now) => SetOk(db, key, rev, obj, now);
    case DeleteOp(key, rev, now) => DeleteOk(db, key, rev, now);
    case StartOp => StartOk(db);
    case DropOp(rev) => DropOk(db, rev);
    case PurgeOp(at, past, quanta) =>
      var mid :| Collected(db, mid) && OldestFirst(db, mid) && Reaped(mid, db', at, past, quanta);
      CollectOk(db, mid);
      ReapOk(mid, db', at, past, quanta);
  }

  /** The invariant holds in every state of every run, so no write of a run crashes. */
  lemma {:induction false} RunOk(run: seq<Db>, ops: seq<Op>, i: nat)
    requires IsRun(run, ops) && i < |run|
    ensures Ok(run[i])
  {
    if i > 0 {
      RunOk(run, ops, i - 1);
      assert StepAt(run, ops, i - 1);
      StepOk(run[i - 1], ops[i - 1], run[i]);
    }
  }

  // ---- Keys live when the snapshot was taken ----

  /** The first snapshot at or after `r` that the entry saved a copy for is at position `i`. */
  ghost predicate FirstFrom(e: Entry, r: nat, i: nat) {
    && i < |e.snapshotList|
    && r <= e.snapshotList[i]
    && (forall j | 0 <= j < i :: e.snapshotList[j] < r)
  }

  /** The entry still is what the snapshot saw, or the copy the read will find is. */
  ghost predicate Keeps(e: Entry, r: nat, obj: Object) {
    || (&& e.revision <= r && !e.deleted && e.obj == obj
        && (forall j | 0 <= j < |e.snapshotList| :: e.snapshotList[j] < r))
    || (&& e.revision > r
        && exists i: nat :: FirstFrom(e, r, i) && HoldsCopy(e, r, i, obj))
  }

  ghost predicate HoldsCopy(e: Entry, r: nat, i: nat, obj: Object)
    requires i < |e.snapshotList|
  {
    var s := e.snapshotList[i];
    s in e.snapshots && var v := e.snapshots[s]; !v.deleted && v.obj == Some(obj) && v.objRev <= r
  }

  /** The scan passes everything before `r` and stops at the first position from there on. */
  lemma {:induction false} ScanStops(e: Entry, r: nat, i: nat, at: nat, prev: Option<Mvcc>)
    requires FirstFrom(e, r, i) && at <= i && e.snapshotList[i] != r
    ensures var v := Saved(e, e.snapshotList[i]); v.objRev <= r ==> BestMatch(e, r, at, prev) == Some(v)
    ensures var v := Saved(e, e.snapshotList[i]); v.objRev > r && at == i ==> BestMatch(e, r, at, prev) == prev
    decreases i - at
  {
    if at < i { ScanStops(e, r, i, at + 1, Some(Saved(e, e.snapshotList[at]))); }
  }

  lemma KeepsReads(e: Entry, r: nat, obj: Object, lastVer: nat, lastSnapshot: nat)
    requires EntryOk(e, lastVer, lastSnapshot) && Keeps(e, r, obj)
    ensures ReadEntry(e, r) == Read(Some(obj))
  {
    if e.revision > r {
      var i: nat :| FirstFrom(e, r, i) && HoldsCopy(e, r, i, obj);
      if e.snapshotList[i] != r {
        assert r !in e.snapshotList;
        ScanStops(e, r, i, 0, None);
      }
    }
  }

  /** Without the snapshot nothing is read; with it, a key that was never stored, or is gone since, is not found. */
  lemma SnapshotErrors(db: Db, r: nat, key: Key)
    ensures !LiveSnapshot(db, r) ==> GetFromSnapshot(db, r, key) == ReadNoSnapshot
    ensures LiveSnapshot(db, r) && key !in db.objs ==> GetFromSnapshot(db, r, key) == ReadNotFound
    ensures LiveSnapshot(db, r) && key in db.objs && db.objs[key].revision <= r ==>
              GetFromSnapshot(db, r, key) == if db.objs[key].deleted then ReadNotFound else Read(Some(db.objs[key].obj))
  {
  }

  /** A key that was deleted when the copy for the snapshot was saved is not found in it. */
  lemma DeletedCopyNotFound(db: Db, r: nat, key: Key)
    requires LiveSnapshot(db, r) && HasCopy(db, key, r) && db.objs[key].revision > r && db.objs[key].snapshots[r].deleted
    ensures GetFromSnapshot(db, r, key) == ReadNotFound
  {
  }

  /** `e'` is `e` after a write at `rev` while `s` is the last snapshot. */
  ghost predicate Rewritten(e: Entry, e': Entry, s: nat, rev: nat) {
    var e1 := AddVersion(e, s);
    && e'.snapshots == e1.snapshots && e'.snapshotList == e1.snapshotList
    && (e'.revision == rev || (e.deleted && e' == e1))
  }

  lemma KeepsWritten(e: Entry, e': Entry, r: nat, obj: Object, lastVer: nat, s: nat, rev: nat)
    requires EntryOk(e, lastVer, s) && 0 < r <= s < rev && Rewritten(e, e', s, rev)
    requires Keeps(e, r, obj)
    ensures Keeps(e', r, obj)
  {
    if e.revision <= r {
      assert NeedsVersion(e, s);
      assert FirstFrom(e', r, |e.snapshotList|) && HoldsCopy(e', r, |e.snapshotList|, obj);
    } else {
      var i: nat :| FirstFrom(e, r, i) && HoldsCopy(e, r, i, obj);
      assert FirstFrom(e', r, i) && HoldsCopy(e', r, i, obj);
    }
  }

  lemma KeepsCollected(e: Entry, e': Entry, r: nat, obj: Object, db: Db)
    requires Ok(db) && LiveSnapshot(db, r) && EntryCollected(db, e, e') && Keeps(e, r, obj)
    ensures Keeps(e', r, obj)
  {
    if e.revision > r {
      var i: nat :| FirstFrom(e, r, i) && HoldsCopy(e, r, i, obj);
      assert !DeadSnapshot(db, e.snapshotList[i]);
      assert FirstFrom(e', r, i) && HoldsCopy(e', r, i, obj);
    }
  }

  lemma SetAt(db: Db, k: Key, rev: nat, obj: Object, now: nat, key: Key)
    requires Bounded(db) && Forward(db, rev)
    ensures var db' := Set(db, k, rev, obj, now).db;
            && (key in db.objs ==>
                  && key in db'.objs
                  && (db'.objs[key] == db.objs[key] || Rewritten(db.objs[key], db'.objs[key], db.lastSnapshot, rev)))
            && (key in db'.objs && key !in db.objs ==> db'.objs[key] == NewEntry(rev, obj, now))
  {
    if key in db.objs { AddVersionOk(db.objs[key], db, rev); }
  }

  lemma DeleteAt(db: Db, k: Key, rev: nat, now: nat, key: Key)
    requires Bounded(db) && rev != 0 && Forward(db, rev)
    ensures var db' := Delete(db, k, rev, now).db;
            && (key in db.objs <==> key in db'.objs)
            && (key in db.objs ==>
                  (db'.objs[key] == db.objs[key] || Rewritten(db.objs[key], db'.objs[key], db.lastSnapshot, rev)))
  {
    if k in db.objs && rev > db.objs[k].revision {
      AddVersionOk(db.objs[k], db, rev);
      DeleteObjs(db, k, rev, now);
    }
  }

  /** What a write does to the entry of one key. */
  lemma WriteAt(db: Db, op: Op, db': Db, key: Key)
    requires Ok(db) && Step(db, op, db') && (op.SetOp? || op.DeleteOp?)
    ensures key in db.objs ==>
              && key in db'.objs
              && (db'.objs[key] == db.objs[key] || Rewritten(db.objs[key], db'.objs[key], db.lastSnapshot, op.rev))
    ensures key in db'.objs && key !in db.objs ==> op.SetOp? && db'.objs[key] == NewEntry(op.rev, op.obj, op.now)
  {
    match op
    case SetOp(k, rev, obj, now) => SetAt(db, k, rev, obj, now, key);
    case DeleteOp(k, rev, now) => DeleteAt(db, k, rev, now, key);
  }

  ghost predicate KeyKept(db: Db, r: nat, key: Key, obj: Object) {
    key in db.objs && Keeps(db.objs[key], r, obj)
  }

  lemma PurgeKeeps(db: Db, db': Db, at: int, past: int, quanta: nat, r: nat, key: Key, obj: Object)
    requires Ok(db) && Purged(db, db', at, past, quanta) && LiveSnapshot(db, r) && KeyKept(db, r, key, obj)
    ensures KeyKept(db', r, key, obj)
  {
    var mid :| Collected(db, mid) && OldestFirst(db, mid) && Reaped(mid, db', at, past, quanta);
    assert EntryCollected(db, db.objs[key], mid.objs[key]);
    KeepsCollected(db.objs[key], mid.objs[key], r, obj, db);
    assert !Expired(mid.objs[key], at, past);
  }

  lemma StepKeeps(db: Db, op: Op, db': Db, r: nat, key: Key, obj: Object)
    requires Ok(db) && Step(db, op, db') && r > 0 && LiveSnapshot(db, r)
    requires KeyKept(db, r, key, obj)
    ensures KeyKept(db', r, key, obj)
  {
    var e := db.objs[key];
    assert EntryOk(e, db.lastVer, db.lastSnapshot);
    if op.SetOp? || op.DeleteOp? {
      WriteAt(db, op, db', key);
      if db'.objs[key] != e {
        KeepsWritten(e, db'.objs[key], r, obj, db.lastVer, db.lastSnapshot, op.rev);
      }
    } else if op.PurgeOp? {
      PurgeKeeps(db, db', op.at, op.past, op.quanta, r, key, obj);
    }
  }

  lemma StartKeeps(db: Db, key: Key)
    requires Ok(db) && IsLive(db, key) && db.lastVer > 0
    ensures KeyKept(StartSnapshot(db), db.lastVer, key, db.objs[key].obj)
  {
    assert EntryOk(db.objs[key], db.lastVer, db.lastSnapshot);
  }

  /** The snapshot that operation `i` of the run took is live in every state from there to `j`. */
  ghost predicate TakenAndLive(run: seq<Db>, ops: seq<Op>, i: nat, j: nat)
    requires IsRun(run, ops)
  {
    && i < j < |run| && ops[i].StartOp?
    && forall m | i < m <= j :: LiveSnapshot(run[m], run[i + 1].lastSnapshot)
  }

  lemma Advance(run: seq<Db>, ops: seq<Op>, j: nat, r: nat, key: Key, obj: Object)
    requires IsRun(run, ops) && j < |ops| && r > 0 && LiveSnapshot(run[j], r)
    requires KeyKept(run[j], r, key, obj)
    ensures KeyKept(run[j + 1], r, key, obj)
  {
    RunOk(run, ops, j);
    assert StepAt(run, ops, j);
    StepKeeps(run[j], ops[j], run[j + 1], r, key, obj);
  }

  lemma Begin(run: seq<Db>, ops: seq<Op>, i: nat, key: Key)
    requires IsRun(run, ops) && i < |ops| && ops[i].StartOp?
    requires run[i + 1].lastSnapshot > 0 && IsLive(run[i], key)
    ensures KeyKept(run[i + 1], run[i + 1].lastSnapshot, key, run[i].objs[key].obj)
  {
    assert StepAt(run, ops, i);
    RunOk(run, ops, i);
    StartOk(run[i]);
    StartKeeps(run[i], key);
  }

  lemma {:induction false} KeptFrom(run: seq<Db>, ops: seq<Op>, i: nat, j: nat, key: Key)
    requires IsRun(run, ops) && TakenAndLive(run, ops, i, j)
    requires run[i + 1].lastSnapshot > 0 && IsLive(run[i], key)
    ensures KeyKept(run[j], run[i + 1].lastSnapshot, key, run[i].objs[key].obj)
  {
    if j == i + 1 {
      Begin(run, ops, i, key);
    } else {
      KeptFrom(run, ops, i, j - 1, key);
      Advance(run, ops, j - 1, run[i + 1].lastSnapshot, key, run[i].objs[key].obj);
    }
  }

  /**
   Snapshot isolation. Whatever is written, whatever snapshots are taken, deleted oldest
   first and collected by purges, a snapshot that is still live returns for every key that
   was live when it was taken the object that key had then.
   */
  lemma SnapshotIsolated(run: seq<Db>, ops: seq<Op>, i: nat, j: nat, key: Key)
    requires IsRun(run, ops) && TakenAndLive(run, ops, i, j)
    requires run[i + 1].lastSnapshot > 0 && IsLive(run[i], key)
    ensures GetFromSnapshot(run[j], run[i + 1].lastSnapshot, key) == Read(Get(run[i], key))
  {
    KeptFrom(run, ops, i, j, key);
    RunOk(run, ops, j);
    KeepsReads(run[j].objs[key], run[i + 1].lastSnapshot, run[i].objs[key].obj, run[j].lastVer, run[j].lastSnapshot);
  }

  // ---- Runs that delete no snapshot ----

  ghost predicate NoneDead(db: Db) {
    forall s <- db.snapshots :: !db.snapshots[s].deleted
  }

  lemma StepAllLive(db: Db, op: Op, db': Db)
    requires Ok(db) && Step(db, op, db') && !op.DropOp? && NoneDead(db)
    ensures NoneDead(db') && forall s <- db.snapshots :: s in db'.snapshots
  {
    match op
    case SetOp(key, rev, obj, now) => SetSameSnapshots(db, key, rev, obj, now);
    case DeleteOp(key, rev, now) => DeleteSameSnapshots(db, key, rev, now);
    case StartOp =>
    case PurgeOp(at, past, quanta) =>
  }

  lemma NextAllLive(run: seq<Db>, ops: seq<Op>, j: nat)
    requires IsRun(run, ops) && j < |ops| && !ops[j].DropOp? && NoneDead(run[j])
    ensures NoneDead(run[j + 1]) && forall s <- run[j].snapshots :: s in run[j + 1].snapshots
  {
    RunOk(run, ops, j);
    assert StepAt(run, ops, j);
    StepAllLive(run[j], ops[j], run[j + 1]);
  }

  lemma {:induction false} AllLive(run: seq<Db>, ops: seq<Op>, j: nat)
    requires IsRun(run, ops) && j < |run| && (forall op <- ops :: !op.DropOp?)
    ensures NoneDead(run[j])
  {
    if j > 0 {
      AllLive(run, ops, j - 1);
      NextAllLive(run, ops, j - 1);
    }
  }

  lemma {:induction false} Stays(run: seq<Db>, ops: seq<Op>, i: nat, j: nat, s: nat)
    requires IsRun(run, ops) && i <= j < |run| && (forall op <- ops :: !op.DropOp?)
    requires s in run[i].snapshots
    ensures LiveSnapshot(run[j], s)
  {
    AllLive(run, ops, j);
    if i < j {
      Stays(run, ops, i, j - 1, s);
      AllLive(run, ops, j - 1);
      NextAllLive(run, ops, j - 1);
    }
  }

  /** Without deletions every snapshot taken stays readable for the rest of the run. */
  lemma SnapshotIsolatedForever(run: seq<Db>, ops: seq<Op>, i: nat, j: nat, key: Key)
    requires IsRun(run, ops) && (forall op <- ops :: !op.DropOp?)
    requires i < j < |run| && ops[i].StartOp?
    requires run[i + 1].lastSnapshot > 0 && IsLive(run[i], key)
    ensures GetFromSnapshot(run[j], run[i + 1].lastSnapshot, key) == Read(Get(run[i], key))
  {
    RunOk(run, ops, i);
    assert StepAt(run, ops, i);
    StartOk(run[i]);
    forall m | i < m <= j ensures LiveSnapshot(run[m], run[i + 1].lastSnapshot) {
      Stays(run, ops, i + 1, m, run[i + 1].lastSnapshot);
    }
    SnapshotIsolated(run, ops, i, j, key);
  }

  // ---- Keys absent or deleted when the snapshot was taken ----

  /** A copy saved for `r` of an object that was written only after `r`. */
  predicate Phantom(db: Db, r: nat, key: Key) {
    && key in db.objs
    && var e := db.objs[key];
       e.revision > r && r in e.snapshots && !e.snapshots[r].deleted && e.snapshots[r].objRev > r
  }

  ghost predicate HoldsTombstone(e: Entry, r: nat, i: nat)
    requires i < |e.snapshotList|
  {
    var s := e.snapshotList[i];
    s in e.snapshots && e.snapshots[s].deleted && e.snapshots[s].objRev <= r
  }

  /** Created after `r`: no copies yet, or the first one saved is of a later object. */
  ghost predicate BornAfter(e: Entry, r: nat) {
    && e.revision > r
    && (|e.snapshotList| > 0 ==>
          var s := e.snapshotList[0]; s >= r && s in e.snapshots && e.snapshots[s].objRev > r)
  }

  ghost predicate Ignores(e: Entry, r: nat) {
    || BornAfter(e, r)
    || (e.revision <= r && e.deleted && forall i: nat | FirstFrom(e, r, i) :: HoldsTombstone(e, r, i))
    || (e.revision > r && exists i: nat :: FirstFrom(e, r, i) && HoldsTombstone(e, r, i))
  }

  ghost predicate KeyIgnored(db: Db, r: nat, key: Key) {
    key in db.objs ==> Ignores(db.objs[key], r)
  }

  lemma IgnoresReads(db: Db, r: nat, key: Key)
    requires Ok(db) && LiveSnapshot(db, r) && KeyIgnored(db, r, key)
    ensures GetFromSnapshot(db, r, key).Read? <==> Phantom(db, r, key)
  {
    if key in db.objs {
      var e := db.objs[key];
      assert EntryOk(e, db.lastVer, db.lastSnapshot);
      if BornAfter(e, r) {
        if |e.snapshotList| > 0 && e.snapshotList[0] != r {
          assert FirstFrom(e, r, 0);
          ScanStops(e, r, 0, 0, None);
        }
      } else if e.revision > r {
        var i: nat :| FirstFrom(e, r, i) && HoldsTombstone(e, r, i);
        if e.snapshotList[i] != r {
          assert r !in e.snapshotList;
          ScanStops(e, r, i, 0, None);
        }
      }
    }
  }

  lemma {:induction false} FirstExists(e: Entry, r: nat, i: nat)
    requires i < |e.snapshotList| && r <= e.snapshotList[i]
    ensures exists j: nat :: FirstFrom(e, r, j)
  {
    if j: nat :| j < i && r <= e.snapshotList[j] {
      FirstExists(e, r, j);
    } else {
      assert FirstFrom(e, r, i);
    }
  }

  lemma BornAfterWritten(e: Entry, e': Entry, r: nat, s: nat, rev: nat)
    requires r <= s < rev && BornAfter(e, r) && Rewritten(e, e', s, rev)
    requires |e.snapshotList| == 0 || s != e.snapshotList[0] || e.lastSnapshot == s
    ensures BornAfter(e', r)
  {
  }

  lemma TombstoneWritten(e: Entry, e': Entry, r: nat, s: nat, rev: nat, i: nat)
    requires r <= s < rev && FirstFrom(e, r, i) && HoldsTombstone(e, r, i) && Rewritten(e, e', s, rev)
    requires e.lastSnapshot == s || s !in e.snapshotList
    ensures FirstFrom(e', r, i) && HoldsTombstone(e', r, i)
  {
  }

  lemma IgnoresWritten(e: Entry, e': Entry, r: nat, lastVer: nat, s: nat, rev: nat)
    requires EntryOk(e, lastVer, s) && 0 < r <= s < rev && Rewritten(e, e', s, rev)
    requires Ignores(e, r)
    ensures Ignores(e', r)
  {
    assert e.lastSnapshot != s ==> s !in e.snapshotList;
    if BornAfter(e, r) {
      BornAfterWritten(e, e', r, s, rev);
    } else if i: nat :| FirstFrom(e, r, i) && HoldsTombstone(e, r, i) {
      TombstoneWritten(e, e', r, s, rev, i);
      if e'.revision <= r {
        forall j: nat | FirstFrom(e', r, j) ensures HoldsTombstone(e', r, j) {
          assert j == i;
        }
      }
    } else {
      var n := |e.snapshotList|;
      if j: nat :| j < n && r <= e.snapshotList[j] { FirstExists(e, r, j); }
      assert FirstFrom(e', r, n) && HoldsTombstone(e', r, n);
    }
  }

  lemma IgnoresCollected(e: Entry, e': Entry, r: nat, db: Db)
    requires Ok(db) && LiveSnapshot(db, r) && EntryCollected(db, e, e') && Ignores(e, r)
    ensures Ignores(e', r)
  {
    forall s <- e.snapshots | s >= r ensures s in e'.snapshots {
      assert !DeadSnapshot(db, s);
    }
    if BornAfter(e, r) {
      assert BornAfter(e', r);
    } else {
      forall i: nat | FirstFrom(e, r, i) && HoldsTombstone(e, r, i)
        ensures FirstFrom(e', r, i) && HoldsTombstone(e', r, i) {}
    }
  }

  lemma StepIgnores(db: Db, op: Op, db': Db, r: nat, key: Key)
    requires Ok(db) && Step(db, op, db') && r > 0 && LiveSnapshot(db, r)
    requires KeyIgnored(db, r, key)
    ensures KeyIgnored(db', r, key)
  {
    if op.SetOp? || op.DeleteOp? {
      WriteAt(db, op, db', key);
      if key in db.objs {
        assert EntryOk(db.objs[key], db.lastVer, db.lastSnapshot);
        if db'.objs[key] != db.objs[key] {
          IgnoresWritten(db.objs[key], db'.objs[key], r, db.lastVer, db.lastSnapshot, op.rev);
        }
      } else if key in db'.objs {
        assert BornAfter(db'.objs[key], r);
      }
    } else if op.PurgeOp? && key in db'.objs {
      var mid :| Collected(db, mid) && OldestFirst(db, mid) && Reaped(mid, db', op.at, op.past, op.quanta);
      assert EntryCollected(db, db.objs[key], mid.objs[key]);
      IgnoresCollected(db.objs[key], mid.objs[key], r, db);
    }
  }

  lemma BeginIgnored(run: seq<Db>, ops: seq<Op>, i: nat, key: Key)
    requires IsRun(run, ops) && i < |ops| && ops[i].StartOp? && !IsLive(run[i], key)
    ensures KeyIgnored(run[i + 1], run[i + 1].lastSnapshot, key)
  {
    assert StepAt(run, ops, i);
    RunOk(run, ops, i);
    StartOk(run[i]);
  }

  lemma AdvanceIgnored(run: seq<Db>, ops: seq<Op>, j: nat, r: nat, key: Key)
    requires IsRun(run, ops) && j < |ops| && r > 0 && LiveSnapshot(run[j], r)
    requires KeyIgnored(run[j], r, key)
    ensures KeyIgnored(run[j + 1], r, key)
  {
    RunOk(run, ops, j);
    assert StepAt(run, ops, j);
    StepIgnores(run[j], ops[j], run[j + 1], r, key);
  }

  lemma {:induction false} IgnoredFrom(run: seq<Db>, ops: seq<Op>, i: nat, j: nat, key: Key)
    requires IsRun(run, ops) && TakenAndLive(run, ops, i, j)
    requires run[i + 1].lastSnapshot > 0 && !IsLive(run[i], key)
    ensures KeyIgnored(run[j], run[i + 1].lastSnapshot, key)
  {
    if j == i + 1 {
      BeginIgnored(run, ops, i, key);
    } else {
      IgnoredFrom(run, ops, i, j - 1, key);
      AdvanceIgnored(run, ops, j - 1, run[i + 1].lastSnapshot, key);
    }
  }

  /**
   A key that was not live when the snapshot was taken reads as missing from it exactly
   when its entry is no phantom: no copy of a later object was saved for the snapshot.
   */
  lemma AbsentUnlessPhantom(run: seq<Db>, ops: seq<Op>, i: nat, j: nat, key: Key)
    requires IsRun(run, ops) && TakenAndLive(run, ops, i, j)
    requires run[i + 1].lastSnapshot > 0 && !IsLive(run[i], key)
    ensures GetFromSnapshot(run[j], run[i + 1].lastSnapshot, key).Read?
            <==> Phantom(run[j], run[i + 1].lastSnapshot, key)
  {
    IgnoredFrom(run, ops, i, j, key);
    RunOk(run, ops, j);
    IgnoresReads(run[j], run[i + 1].lastSnapshot, key);
  }
}
