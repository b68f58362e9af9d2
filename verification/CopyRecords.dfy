/**
 Saved copies and the records through which a collection finds them. A copy is of use to
 snapshots only; one that no record leads to is never collected, and a tombstone that has
 it is never removed.
 */
module CopyRecords {
  import opened Wrappers
  import opened StoreModel
  import opened SnapshotIsolation

  /** Every copy of a snapshot in the table is recorded with it, and no copy is of the last version. */
  ghost predicate Recorded(db: Db) {
    forall k, s: nat | HasCopy(db, k, s) :: s < db.lastVer && (s in db.snapshots ==> RecordedAt(db, k, s))
  }

  /** The copies are exactly what the records say. */
  ghost predicate Exact(db: Db) {
    forall k, s: nat :: HasCopy(db, k, s) <==> RecordedAt(db, k, s)
  }

  /** The snapshot that copies are saved for, if any, is in the table. */
  predicate LastKnown(db: Db) {
    db.lastSnapshot != 0 ==> db.lastSnapshot in db.snapshots
  }

  // ---- What a write saves and records ----

  /** A write to a key that is there saves one copy and records it, with the revision of the copy, or neither. */
  lemma SavedAndRecorded(db: Db, key: Key, k: Key, s: nat)
    requires key in db.objs
    ensures var saves := k == key && s == db.lastSnapshot && NeedsVersion(db.objs[key], s);
            && (HasCopy(SavedFor(db, key), k, s) <==> HasCopy(db, k, s) || saves)
            && (RecordedAt(SavedFor(db, key), k, s) <==> RecordedAt(db, k, s) || (saves && s in db.snapshots))
            && (saves && s in db.snapshots ==>
                  SavedFor(db, key).snapshots[s].keys[k] == SavedFor(db, key).objs[k].snapshots[s].objRev)
  {
  }

  /** Whether a write reaches the entry of a key that is there. */
  predicate Saves(db: Db, op: Op) {
    && (op.SetOp? || op.DeleteOp?) && op.key in db.objs && !Backpedals(db.objs[op.key], db.lastSnapshot)
    && (op.SetOp? ==> op.rev >= db.objs[op.key].revision)
    && (op.DeleteOp? ==> op.rev == 0 || op.rev > db.objs[op.key].revision)
  }

  function Written(db: Db, op: Op): Db
    requires op.SetOp? || op.DeleteOp?
  {
    if op.SetOp? then Set(db, op.key, op.rev, op.obj, op.now).db else Delete(db, op.key, op.rev, op.now).db
  }

  lemma WrittenAt(db: Db, op: Op, k: Key, s: nat)
    requires op.SetOp? || op.DeleteOp?
    ensures var saves := Saves(db, op) && k == op.key && s == db.lastSnapshot && NeedsVersion(db.objs[k], s);
            && (HasCopy(Written(db, op), k, s) <==> HasCopy(db, k, s) || saves)
            && (RecordedAt(Written(db, op), k, s) <==> RecordedAt(db, k, s) || (saves && s in db.snapshots))
  {
    if op.key in db.objs { SavedAndRecorded(db, op.key, k, s); }
  }

  // ---- Runs in which snapshots are deleted in any order, with resynchronisation ----

  datatype AnyOp = Ordinary(op: Op) | MarkOp(prefix: Key) | SweepOp(prefix: Key)

  /** As in the runs of snapshot isolation, but any snapshot may be deleted. */
  ghost predicate AnyStep(db: Db, a: AnyOp, db': Db) {
    match a
    case MarkOp(prefix) => db' == Mark(db, prefix)
    case SweepOp(prefix) => db' == Sweep(db, prefix)
    case Ordinary(DropOp(rev)) => db' == DeleteSnapshot(db, rev)
    case Ordinary(op) => Step(db, op, db')
  }

  ghost predicate IsAnyRun(run: seq<Db>, ops: seq<AnyOp>) {
    && |run| == |ops| + 1
    && run[0] == EmptyDb
    && forall i | 0 <= i < |ops| :: AnyStepAt(run, ops, i)
  }

  ghost predicate AnyStepAt(run: seq<Db>, ops: seq<AnyOp>, i: nat)
    requires i < |ops| && |run| == |ops| + 1
  {
    AnyStep(run[i], ops[i], run[i + 1])
  }

  lemma WriteRecorded(db: Db, op: Op)
    requires Recorded(db) && (op.SetOp? || op.DeleteOp?) && Forward(db, op.rev)
    ensures Recorded(Written(db, op))
  {
    var db' := Written(db, op);
    forall k, s: nat | HasCopy(db', k, s) ensures s < db'.lastVer && (s in db'.snapshots ==> RecordedAt(db', k, s)) {
      WrittenAt(db, op, k, s);
    }
  }

  lemma CollectRecorded(db: Db, mid: Db)
    requires Recorded(db) && Collected(db, mid)
    ensures Recorded(mid)
  {
    forall k, s: nat | HasCopy(mid, k, s) ensures s < mid.lastVer && (s in mid.snapshots ==> RecordedAt(mid, k, s)) {
      assert EntryCollected(db, db.objs[k], mid.objs[k]);
      assert HasCopy(db, k, s);
    }
  }

  lemma StartRecorded(db: Db)
    requires Recorded(db)
    ensures Recorded(StartSnapshot(db))
  {
    var db' := StartSnapshot(db);
    assert forall k, s: nat :: HasCopy(db', k, s) == HasCopy(db, k, s);
    assert forall k, s: nat | s != db.lastVer :: RecordedAt(db', k, s) == RecordedAt(db, k, s);
  }

  lemma DropRecorded(db: Db, rev: nat)
    requires Recorded(db)
    ensures Recorded(DeleteSnapshot(db, rev))
  {
    var db' := DeleteSnapshot(db, rev);
    assert forall k, s: nat :: HasCopy(db', k, s) == HasCopy(db, k, s) && RecordedAt(db', k, s) == RecordedAt(db, k, s);
  }

  lemma MarkSweepRecorded(db: Db, prefix: Key)
    requires Recorded(db)
    ensures Recorded(Mark(db, prefix)) && Recorded(Sweep(db, prefix))
  {
    assert forall k, s: nat :: HasCopy(Mark(db, prefix), k, s) == HasCopy(db, k, s);
    assert forall k, s: nat :: HasCopy(Sweep(db, prefix), k, s) ==> HasCopy(db, k, s);
    assert forall k, s: nat :: RecordedAt(Mark(db, prefix), k, s) == RecordedAt(db, k, s) == RecordedAt(Sweep(db, prefix), k, s);
  }

  lemma ReapRecorded(mid: Db, db': Db, at: int, past: int, quanta: nat)
    requires Recorded(mid) && Reaped(mid, db', at, past, quanta)
    ensures Recorded(db')
  {
    assert forall k, s: nat :: HasCopy(db', k, s) ==> HasCopy(mid, k, s);
    assert forall k, s: nat :: RecordedAt(db', k, s) == RecordedAt(mid, k, s);
  }

  lemma OrdinaryRecorded(db: Db, op: Op, db': Db)
    requires Recorded(db) && Step(db, op, db')
    ensures Recorded(db')
  {
    match op
    case SetOp(_, _, _, _) => WriteRecorded(db, op);
    case DeleteOp(_, _, _) => WriteRecorded(db, op);
    case StartOp => StartRecorded(db);
    case DropOp(rev) => DropRecorded(db, rev);
    case PurgeOp(at, past, quanta) =>
      var mid :| Collected(db, mid) && OldestFirst(db, mid) && Reaped(mid, db', at, past, quanta);
      CollectRecorded(db, mid);
      ReapRecorded(mid, db', at, past, quanta);
  }

  lemma AnyStepRecorded(db: Db, a: AnyOp, db': Db)
    requires Recorded(db) && AnyStep(db, a, db')
    ensures Recorded(db')
  {
    match a
    case MarkOp(prefix) => MarkSweepRecorded(db, prefix);
    case SweepOp(prefix) => MarkSweepRecorded(db, prefix);
    case Ordinary(op) =>
      if op.DropOp? { DropRecorded(db, op.snapshot); } else { OrdinaryRecorded(db, op, db'); }
  }

  /** In every run, whatever the order in which snapshots are deleted, copies of the snapshots in the table are recorded. */
  lemma {:induction false} RunRecorded(run: seq<Db>, ops: seq<AnyOp>, i: nat)
    requires IsAnyRun(run, ops) && i < |run|
    ensures Recorded(run[i])
  {
    if i > 0 {
      RunRecorded(run, ops, i - 1);
      assert AnyStepAt(run, ops, i - 1);
      AnyStepRecorded(run[i - 1], ops[i - 1], run[i]);
    }
  }

  lemma MarkSweepBounded(db: Db, prefix: Key)
    requires Bounded(db)
    ensures Bounded(Mark(db, prefix)) && Bounded(Sweep(db, prefix))
  {
    forall k <- db.objs ensures EntryOk(Mark(db, prefix).objs[k], db.lastVer, db.lastSnapshot) {
      assert EntryOk(db.objs[k], db.lastVer, db.lastSnapshot);
    }
  }

  lemma OrdinaryBounded(db: Db, op: Op, db': Db)
    requires Bounded(db) && Step(db, op, db')
    ensures Bounded(db')
  {
    match op
    case SetOp(key, rev, obj, now) => SetBounded(db, key, rev, obj, now);
    case DeleteOp(key, rev, now) => DeleteBounded(db, key, rev, now);
    case StartOp => StartBounded(db);
    case DropOp(rev) =>
    case PurgeOp(at, past, quanta) =>
      var mid :| Collected(db, mid) && OldestFirst(db, mid) && Reaped(mid, db', at, past, quanta);
      CollectBounded(db, mid);
      ReapBounded(mid, db', at, past, quanta);
  }

  lemma ReapBounded(mid: Db, db': Db, at: int, past: int, quanta: nat)
    requires Bounded(mid) && Reaped(mid, db', at, past, quanta)
    ensures Bounded(db')
  {
  }

  lemma AnyStepBounded(db: Db, a: AnyOp, db': Db)
    requires Bounded(db) && AnyStep(db, a, db')
    ensures Bounded(db')
  {
    match a
    case MarkOp(prefix) => MarkSweepBounded(db, prefix);
    case SweepOp(prefix) => MarkSweepBounded(db, prefix);
    case Ordinary(op) =>
      if !op.DropOp? { OrdinaryBounded(db, op, db'); }
  }

  /** The bounds hold in these runs too, so no write of theirs crashes either. */
  lemma {:induction false} RunBounded(run: seq<Db>, ops: seq<AnyOp>, i: nat)
    requires IsAnyRun(run, ops) && i < |run|
    ensures Bounded(run[i])
  {
    if i > 0 {
      RunBounded(run, ops, i - 1);
      assert AnyStepAt(run, ops, i - 1);
      AnyStepBounded(run[i - 1], ops[i - 1], run[i]);
    }
  }

  // ---- Runs in which snapshots are deleted oldest first ----

  /** The copies are what the records say, and the next copy will be recorded. */
  ghost predicate Tidy(db: Db) {
    Exact(db) && LastKnown(db)
  }

  lemma WriteTidy(db: Db, op: Op)
    requires Tidy(db) && (op.SetOp? || op.DeleteOp?)
    ensures Tidy(Written(db, op))
  {
    var db' := Written(db, op);
    if op.SetOp? { SetSameSnapshots(db, op.key, op.rev, op.obj, op.now); }
    else { DeleteSameSnapshots(db, op.key, op.rev, op.now); }
    forall k, s: nat ensures HasCopy(db', k, s) <==> RecordedAt(db', k, s) {
      WrittenAt(db, op, k, s);
    }
  }

  lemma StartTidy(db: Db)
    requires Tidy(db)
    ensures Tidy(StartSnapshot(db))
  {
    var db' := StartSnapshot(db);
    assert forall k, s: nat :: HasCopy(db', k, s) == HasCopy(db, k, s);
    forall k, s: nat ensures RecordedAt(db', k, s) == RecordedAt(db, k, s) {}
  }

  lemma DropTidy(db: Db, rev: nat)
    requires Tidy(db)
    ensures Tidy(DeleteSnapshot(db, rev))
  {
    var db' := DeleteSnapshot(db, rev);
    assert forall k, s: nat :: HasCopy(db', k, s) == HasCopy(db, k, s) && RecordedAt(db', k, s) == RecordedAt(db, k, s);
  }

  lemma CollectExact(db: Db, mid: Db)
    requires Exact(db) && Collected(db, mid)
    ensures Exact(mid)
  {
    forall k, s: nat ensures HasCopy(mid, k, s) <==> RecordedAt(mid, k, s) {
      if k in db.objs { assert EntryCollected(db, db.objs[k], mid.objs[k]); }
      if RecordedAt(mid, k, s) { assert RecordedAt(db, k, s); }
    }
  }

  /** While the records are exact a dead snapshot that is cleared is gone from the table. */
  lemma ClearedIsGone(db: Db, mid: Db, snap: nat)
    requires Exact(db) && Collected(db, mid) && DeadSnapshot(db, snap) && Cleared(db, mid, snap)
    ensures snap !in mid.snapshots
  {
    forall k <- db.snapshots[snap].keys ensures k in mid.objs { assert RecordedAt(db, k, snap); }
  }

  lemma CollectLastKnown(db: Db, mid: Db)
    requires Ok(db) && Tidy(db) && Collected(db, mid) && OldestFirst(db, mid)
    ensures LastKnown(mid)
  {
    var last := db.lastSnapshot;
    if mid.snapshots != map[] && last != 0 && last !in mid.snapshots {
      assert DeadSnapshot(db, last);
      var s :| s in mid.snapshots;
      assert !LiveSnapshot(db, s) && DeadSnapshot(db, s) && s < last;
      assert !Intact(db, mid, last);
      ClearedIsGone(db, mid, s);
    }
  }

  lemma ReapTidy(mid: Db, db': Db, at: int, past: int, quanta: nat)
    requires Tidy(mid) && Reaped(mid, db', at, past, quanta)
    ensures Tidy(db')
  {
    assert forall k, s: nat :: RecordedAt(db', k, s) == RecordedAt(mid, k, s);
    forall k, s: nat ensures HasCopy(db', k, s) == HasCopy(mid, k, s) {
      if k in mid.objs && k !in db'.objs { assert Expired(mid.objs[k], at, past); }
    }
  }

  lemma StepTidy(db: Db, op: Op, db': Db)
    requires Ok(db) && Tidy(db) && Step(db, op, db')
    ensures Tidy(db')
  {
    match op
    case SetOp(_, _, _, _) => WriteTidy(db, op);
    case DeleteOp(_, _, _) => WriteTidy(db, op);
    case StartOp => StartTidy(db);
    case DropOp(rev) => DropTidy(db, rev);
    case PurgeOp(at, past, quanta) =>
      var mid :| Collected(db, mid) && OldestFirst(db, mid) && Reaped(mid, db', at, past, quanta);
      CollectExact(db, mid);
      CollectLastKnown(db, mid);
      ReapTidy(mid, db', at, past, quanta);
  }

  /**
   In every run of snapshot isolation an object holds a copy for a snapshot exactly if the
   snapshot is in the table and the key recorded with it: no copy is out of reach.
   */
  lemma {:induction false} RunTidy(run: seq<Db>, ops: seq<Op>, i: nat)
    requires IsRun(run, ops) && i < |run|
    ensures Tidy(run[i])
  {
    if i > 0 {
      RunTidy(run, ops, i - 1);
      NextTidy(run, ops, i - 1);
    }
  }

  lemma NextTidy(run: seq<Db>, ops: seq<Op>, i: nat)
    requires IsRun(run, ops) && i < |ops| && Tidy(run[i])
    ensures Tidy(run[i + 1])
  {
    RunOk(run, ops, i);
    assert StepAt(run, ops, i);
    StepTidy(run[i], ops[i], run[i + 1]);
  }

  /** After a collection that is not cut short only live snapshots are in the table, and only they have copies. */
  ghost predicate OnlyLive(db: Db) {
    && (forall s <- db.snapshots :: LiveSnapshot(db, s))
    && (forall k, s: nat | HasCopy(db, k, s) :: LiveSnapshot(db, s))
  }

  /** Some entries are gone, and nothing else is changed. */
  ghost predicate Shrunk(db: Db, db': Db) {
    db' == db.(objs := db'.objs) && forall k <- db'.objs :: k in db.objs && db'.objs[k] == db.objs[k]
  }

  lemma OnlyLiveShrunk(db: Db, db': Db)
    requires OnlyLive(db) && Shrunk(db, db')
    ensures OnlyLive(db')
  {
    assert forall k, s: nat :: HasCopy(db', k, s) ==> HasCopy(db, k, s);
  }

  lemma CompleteCollection(db: Db, mid: Db)
    requires Exact(db) && Collected(db, mid) && AllCleared(db, mid)
    ensures OnlyLive(mid)
  {
    CollectExact(db, mid);
    forall s <- mid.snapshots ensures LiveSnapshot(mid, s) {
      if DeadSnapshot(db, s) { ClearedIsGone(db, mid, s); }
    }
    forall k, s: nat | HasCopy(mid, k, s) ensures LiveSnapshot(mid, s) {
      assert RecordedAt(mid, k, s);
    }
  }

  /** Then, if no snapshot is live, no object has a copy, so that every tombstone may go when it is old enough. */
  lemma NothingHeldBack(run: seq<Db>, ops: seq<Op>, i: nat, mid: Db, key: Key, now: int, past: int)
    requires IsRun(run, ops) && i < |run| && Collected(run[i], mid) && AllCleared(run[i], mid)
    requires (forall s <- run[i].snapshots :: run[i].snapshots[s].deleted) && key in mid.objs
    ensures mid.snapshots == map[] && (Expired(mid.objs[key], now, past) <==>
                                       mid.objs[key].deleted && now - mid.objs[key].lastUpd >= past)
  {
    RunTidy(run, ops, i);
    CompleteCollection(run[i], mid);
    assert forall s: nat :: s !in mid.snapshots;
    assert forall s <- mid.objs[key].snapshots :: HasCopy(mid, key, s);
  }

  // ---- Copies out of reach ----

  /** A write leaves a copy that no record leads to exactly if it saves for a snapshot that the table has lost. */
  lemma UnreachableIff(db: Db, op: Op)
    requires Exact(db) && (op.SetOp? || op.DeleteOp?)
    ensures !Exact(Written(db, op)) <==>
            Saves(db, op) && NeedsVersion(db.objs[op.key], db.lastSnapshot) && db.lastSnapshot !in db.snapshots
  {
    var db' := Written(db, op);
    forall k, s: nat ensures HasCopy(db', k, s) != RecordedAt(db', k, s) <==>
        && Saves(db, op) && k == op.key && s == db.lastSnapshot && NeedsVersion(db.objs[k], s) && s !in db.snapshots
    {
      WrittenAt(db, op, k, s);
    }
    if Saves(db, op) && NeedsVersion(db.objs[op.key], db.lastSnapshot) && db.lastSnapshot !in db.snapshots {
      assert HasCopy(db', op.key, db.lastSnapshot) != RecordedAt(db', op.key, db.lastSnapshot);
    }
  }

  /** Two snapshots were taken, and the newer one is deleted and collected. */
  function NewestGone(x: Object, y: Object): (Db, Db) {
    var db1 := StartSnapshot(Set(EmptyDb, "/a", 1, x, 0).db);
    var db2 := DeleteSnapshot(StartSnapshot(Set(db1, "/b", 2, y, 0).db), 2);
    (db2, db2.(snapshots := db2.snapshots - {2}))
  }

  lemma NewestCollected(x: Object, y: Object)
    ensures var (db, db') := NewestGone(x, y); Collected(db, db') && AllCleared(db, db')
    ensures var db := NewestGone(x, y).1;
            && db.lastSnapshot == 2 && db.snapshots == map[1 := Snapshot(map[], false)] && "/a" in db.objs
            && db.objs["/a"] == NewEntry(1, x, 0)
  {
    assert "/a"[1] != "/b"[1];
    assert 1 in NewestGone(x, y).1.snapshots;
  }

  /** Then a key is deleted, and the older snapshot too, which is collected. */
  function AllGone(db: Db): (Db, Db) {
    var db1 := DeleteSnapshot(Delete(db, "/a", 3, 0).db, 1);
    (db1, db1.(snapshots := map[], lastSnapshot := 0))
  }

  /**
   The newest snapshot deleted and collected first: the next write saves a copy for it that
   stays when every snapshot is gone, and keeps the tombstone of its key for ever.
   */
  lemma NewestFirstExample(x: Object, y: Object, now: int, past: int)
    ensures var (db, db') := AllGone(NewestGone(x, y).1);
            && Collected(db, db') && AllCleared(db, db') && db'.snapshots == map[]
            && "/a" in db'.objs && db'.objs["/a"].deleted && !Expired(db'.objs["/a"], now, past)
  {
    NewestCollected(x, y);
    var db := NewestGone(x, y).1;
    assert 2 in Delete(db, "/a", 3, 0).db.objs["/a"].snapshots;
  }
}
