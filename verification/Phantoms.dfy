/**
 Which keys a snapshot shows that were not there when it was taken, told from the operations
 alone: those created after it and written again before the next snapshot.
 */
module Phantoms {
  import opened StoreModel
  import opened SnapshotIsolation

  ghost predicate Creates(db: Db, op: Op, key: Key) {
    op.SetOp? && op.key == key && key !in db.objs
  }

  /** A set, or a delete that is not refused, of a key that is in the map. */
  ghost predicate WritesAgain(db: Db, op: Op, key: Key) {
    && key in db.objs
    && ((op.SetOp? && op.key == key) || (op.DeleteOp? && op.key == key && op.rev > db.objs[key].revision))
  }

  ghost predicate BornBy(run: seq<Db>, ops: seq<Op>, i: nat, j: nat, key: Key)
    requires j < |run| == |ops| + 1
  {
    exists m: nat :: i < m < j && CreatedAt(run, ops, m, key)
  }

  ghost predicate CreatedAt(run: seq<Db>, ops: seq<Op>, m: nat, key: Key)
    requires m < |ops| && |run| == |ops| + 1
  {
    Creates(run[m], ops[m], key)
  }

  /** Written again at `m`, while the snapshot `r` was the last one. */
  ghost predicate AgainAt(run: seq<Db>, ops: seq<Op>, m: nat, r: nat, key: Key)
    requires m < |ops| && |run| == |ops| + 1
  {
    WritesAgain(run[m], ops[m], key) && run[m].lastSnapshot == r
  }

  ghost predicate WrittenAgain(run: seq<Db>, ops: seq<Op>, i: nat, j: nat, r: nat, key: Key)
    requires j < |run| == |ops| + 1
  {
    exists m: nat :: i < m < j && BornBy(run, ops, i, m, key) && AgainAt(run, ops, m, r, key)
  }

  // ---- What the state shows of it ----

  ghost predicate Newborn(e: Entry, r: nat) {
    e.revision > r && !e.deleted && e.lastSnapshot != r && r !in e.snapshots
  }

  /** The entry of a key shows whether it was born since the snapshot, and whether it was written again. */
  ghost predicate Tracks(db: Db, r: nat, key: Key, born: bool, again: bool) {
    && (again <==> Phantom(db, r, key)) && (again ==> born)
    && (key in db.objs ==> var e := db.objs[key];
          r in e.snapshots && !e.snapshots[r].deleted && e.snapshots[r].objRev > r ==> e.revision > r)
    && (db.lastSnapshot == r ==>
          if born then key in db.objs && (again || Newborn(db.objs[key], r))
          else key in db.objs ==> db.objs[key].deleted || db.objs[key].lastSnapshot == r)
  }

  lemma SetObjs(db: Db, key: Key, rev: nat, obj: Object, now: nat)
    requires Ok(db) && Forward(db, rev) && key in db.objs
    ensures var db' := Set(db, key, rev, obj, now).db;
            && db'.lastSnapshot == db.lastSnapshot
            && db'.objs == db.objs[key := AddVersion(db.objs[key], db.lastSnapshot).(
                 obj := obj, revision := rev, deleted := false, lastUpd := now)]
  {
    AddVersionOk(db.objs[key], db, rev);
  }

  /** Saving a copy for the last snapshot, then writing: what that makes of the tracked entry. */
  lemma RewriteTracks(db: Db, db': Db, r: nat, key: Key, born: bool, again: bool, rev: nat)
    requires Ok(db) && 0 < r <= db.lastSnapshot < rev && key in db.objs && Tracks(db, r, key, born, again)
    requires db'.lastSnapshot == db.lastSnapshot && key in db'.objs
    requires var e, e' := db.objs[key], db'.objs[key];
             var e1 := AddVersion(e, db.lastSnapshot);
             && e'.snapshots == e1.snapshots && e'.lastSnapshot == e1.lastSnapshot
             && (e'.revision == rev || (e.deleted && e' == e1))
    ensures Tracks(db', r, key, born, again || (born && db.lastSnapshot == r))
  {
    var e := db.objs[key];
    assert EntryOk(e, db.lastVer, db.lastSnapshot);
    assert r in e.snapshots ==> r in e.snapshotList && r <= e.lastSnapshot;
  }

  lemma SetTracks(db: Db, op: Op, db': Db, r: nat, key: Key, born: bool, again: bool)
    requires Ok(db) && Step(db, op, db') && op.SetOp? && r > 0 && LiveSnapshot(db, r) && Tracks(db, r, key, born, again)
    ensures Tracks(db', r, key, born || Creates(db, op, key), again || (born && AgainNow(db, op, r, key)))
  {
    if op.key == key && key in db.objs {
      SetObjs(db, key, op.rev, op.obj, op.now);
      RewriteTracks(db, db', r, key, born, again, op.rev);
    } else if op.key != key {
      SetSameSnapshots(db, op.key, op.rev, op.obj, op.now);
      SetAt(db, op.key, op.rev, op.obj, op.now, key);
    }
  }

  ghost predicate AgainNow(db: Db, op: Op, r: nat, key: Key) {
    WritesAgain(db, op, key) && db.lastSnapshot == r
  }

  lemma DeleteTracks(db: Db, op: Op, db': Db, r: nat, key: Key, born: bool, again: bool)
    requires Ok(db) && Step(db, op, db') && op.DeleteOp? && r > 0 && LiveSnapshot(db, r) && Tracks(db, r, key, born, again)
    ensures Tracks(db', r, key, born, again || (born && AgainNow(db, op, r, key)))
  {
    DeleteSameSnapshots(db, op.key, op.rev, op.now);
    if op.key in db.objs && op.rev > db.objs[op.key].revision {
      AddVersionOk(db.objs[op.key], db, op.rev);
      DeleteObjs(db, op.key, op.rev, op.now);
      if op.key == key { RewriteTracks(db, db', r, key, born, again, op.rev); }
    }
  }

  lemma PurgeTracks(db: Db, op: Op, db': Db, r: nat, key: Key, born: bool, again: bool)
    requires Ok(db) && Step(db, op, db') && op.PurgeOp? && r > 0 && LiveSnapshot(db, r) && Tracks(db, r, key, born, again)
    ensures Tracks(db', r, key, born, again)
  {
    var mid :| Collected(db, mid) && OldestFirst(db, mid) && Reaped(mid, db', op.at, op.past, op.quanta);
    CollectTracks(db, mid, r, key, born, again);
    ReapTracks(mid, db', op.at, op.past, op.quanta, r, key, born, again);
  }

  lemma CollectTracks(db: Db, db': Db, r: nat, key: Key, born: bool, again: bool)
    requires Collected(db, db') && LiveSnapshot(db, r) && Tracks(db, r, key, born, again)
    ensures Tracks(db', r, key, born, again)
  {
    assert r in db'.snapshots && db'.lastSnapshot == db.lastSnapshot;
    if key in db.objs {
      assert EntryCollected(db, db.objs[key], db'.objs[key]);
      assert !DeadSnapshot(db, r);
      assert r in db.objs[key].snapshots ==> r in db'.objs[key].snapshots;
    }
  }

  /** What has a copy saved, and what is live, is not reaped. */
  lemma ReapTracks(db: Db, db': Db, now: int, past: int, quanta: nat, r: nat, key: Key, born: bool, again: bool)
    requires Reaped(db, db', now, past, quanta) && Tracks(db, r, key, born, again)
    ensures Tracks(db', r, key, born, again)
  {
    if key in db.objs && key !in db'.objs { assert Expired(db.objs[key], now, past); }
  }

  lemma StepTracks(db: Db, op: Op, db': Db, r: nat, key: Key, born: bool, again: bool)
    requires Ok(db) && Step(db, op, db') && r > 0 && LiveSnapshot(db, r) && Tracks(db, r, key, born, again)
    ensures Tracks(db', r, key, born || Creates(db, op, key), again || (born && AgainNow(db, op, r, key)))
  {
    match op
    case SetOp(_, _, _, _) => SetTracks(db, op, db', r, key, born, again);
    case DeleteOp(_, _, _) => DeleteTracks(db, op, db', r, key, born, again);
    case StartOp => StartOk(db);
    case DropOp(_) =>
    case PurgeOp(_, _, _) => PurgeTracks(db, op, db', r, key, born, again);
  }

  lemma StartTracks(db: Db, key: Key)
    requires Ok(db) && !IsLive(db, key) && db.lastVer > 0
    ensures Tracks(StartSnapshot(db), db.lastVer, key, false, false)
  {
    StartOk(db);
    if key in db.objs { assert EntryOk(db.objs[key], db.lastVer, db.lastSnapshot); }
  }

  // ---- Along a run ----

  lemma BornNext(run: seq<Db>, ops: seq<Op>, i: nat, j: nat, key: Key)
    requires i < j < |ops| && |run| == |ops| + 1
    ensures BornBy(run, ops, i, j + 1, key) <==> BornBy(run, ops, i, j, key) || Creates(run[j], ops[j], key)
  {
    assert CreatedAt(run, ops, j, key) <==> Creates(run[j], ops[j], key);
    if BornBy(run, ops, i, j + 1, key) {
      var m: nat :| i < m < j + 1 && CreatedAt(run, ops, m, key);
    }
  }

  lemma AgainNext(run: seq<Db>, ops: seq<Op>, i: nat, j: nat, r: nat, key: Key)
    requires i < j < |ops| && |run| == |ops| + 1
    ensures WrittenAgain(run, ops, i, j + 1, r, key) <==>
            WrittenAgain(run, ops, i, j, r, key) || (BornBy(run, ops, i, j, key) && AgainNow(run[j], ops[j], r, key))
  {
    assert AgainAt(run, ops, j, r, key) <==> AgainNow(run[j], ops[j], r, key);
    if WrittenAgain(run, ops, i, j + 1, r, key) {
      var m: nat :| i < m < j + 1 && BornBy(run, ops, i, m, key) && AgainAt(run, ops, m, r, key);
    }
  }

  ghost predicate TracksAt(run: seq<Db>, ops: seq<Op>, i: nat, j: nat, r: nat, key: Key)
    requires j < |run| == |ops| + 1
  {
    Tracks(run[j], r, key, BornBy(run, ops, i, j, key), WrittenAgain(run, ops, i, j, r, key))
  }

  lemma TracksBegin(run: seq<Db>, ops: seq<Op>, i: nat, key: Key)
    requires IsRun(run, ops) && i < |ops| && ops[i].StartOp?
    requires run[i + 1].lastSnapshot > 0 && !IsLive(run[i], key)
    ensures TracksAt(run, ops, i, i + 1, run[i + 1].lastSnapshot, key)
  {
    RunOk(run, ops, i);
    assert StepAt(run, ops, i);
    StartOk(run[i]);
    StartTracks(run[i], key);
  }

  lemma TracksNext(run: seq<Db>, ops: seq<Op>, i: nat, j: nat, r: nat, key: Key)
    requires IsRun(run, ops) && i < j < |ops| && r > 0 && LiveSnapshot(run[j], r) && TracksAt(run, ops, i, j, r, key)
    ensures TracksAt(run, ops, i, j + 1, r, key)
  {
    RunOk(run, ops, j);
    assert StepAt(run, ops, j);
    StepTracks(run[j], ops[j], run[j + 1], r, key, BornBy(run, ops, i, j, key), WrittenAgain(run, ops, i, j, r, key));
    BornNext(run, ops, i, j, key);
    AgainNext(run, ops, i, j, r, key);
  }

  lemma {:induction false} TracksFrom(run: seq<Db>, ops: seq<Op>, i: nat, j: nat, key: Key)
    requires IsRun(run, ops) && TakenAndLive(run, ops, i, j)
    requires run[i + 1].lastSnapshot > 0 && !IsLive(run[i], key)
    ensures TracksAt(run, ops, i, j, run[i + 1].lastSnapshot, key)
  {
    if j == i + 1 {
      TracksBegin(run, ops, i, key);
    } else {
      TracksFrom(run, ops, i, j - 1, key);
      TracksNext(run, ops, i, j - 1, run[i + 1].lastSnapshot, key);
    }
  }

  /**
   Exactly the phantoms. In every run, a live snapshot returns an object for a key that was
   not live when the snapshot was taken exactly if the key was created after the snapshot
   and written again, by a set or a delete, before another snapshot became the last one.
   */
  lemma ShownIffWrittenAgain(run: seq<Db>, ops: seq<Op>, i: nat, j: nat, key: Key)
    requires IsRun(run, ops) && TakenAndLive(run, ops, i, j)
    requires run[i + 1].lastSnapshot > 0 && !IsLive(run[i], key)
    ensures var r := run[i + 1].lastSnapshot;
            GetFromSnapshot(run[j], r, key).Read? <==> WrittenAgain(run, ops, i, j, r, key)
  {
    TracksFrom(run, ops, i, j, key);
    AbsentUnlessPhantom(run, ops, i, j, key);
  }
}
