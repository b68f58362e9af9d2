/**
 Where snapshot isolation ends: for each hypothesis of the isolation theorem, a run
 that breaks it and the exact condition under which one step keeps a snapshot's answers.
 */
module SnapshotLimits {
  import opened Wrappers
  import opened StoreModel
  import opened SnapshotIsolation
  import opened CopyRecords

  /** A key created after the snapshot and written again shows up in the snapshot. */
  lemma PhantomExample(x: Object, y: Object, z: Object)
    ensures var db1 := Set(EmptyDb, "/a", 1, x, 0).db;
            var db2 := Set(StartSnapshot(db1), "/b", 2, y, 0).db;
            var db3 := Set(db2, "/b", 3, z, 0).db;
            !IsLive(db1, "/b") && Phantom(db3, 1, "/b") && GetFromSnapshot(db3, 1, "/b") == Read(Some(y))
  {
    assert "/a"[1] != "/b"[1];
  }

  lemma NothingSavedAtZero(db: Db, r: nat, key: Key)
    requires Ok(db) && LiveSnapshot(db, r) && db.lastSnapshot == 0
    requires key in db.objs && Keeps(db.objs[key], r, db.objs[key].obj) && db.objs[key].revision <= r
    ensures r == 0 && db.objs[key].snapshotList == [] && db.objs[key].snapshots == map[]
  {
    var e := db.objs[key];
    NoneBelow(e.snapshotList);
    assert EntryOk(e, db.lastVer, db.lastSnapshot) && r == 0;
    assert forall s :: s !in e.snapshots;
  }

  lemma NoneBelow(l: seq<nat>)
    ensures (forall j | 0 <= j < |l| :: l[j] < 0) ==> l == []
  {
    if l != [] { assert !(l[0] < 0); }
  }

  /** A write at the revision of a snapshot changes what the snapshot shows. */
  lemma EqualRevisionExample(x: Object, y: Object)
    ensures var db := StartSnapshot(Set(EmptyDb, "/a", 1, x, 0).db);
            && GetFromSnapshot(db, 1, "/a") == Read(Some(x))
            && GetFromSnapshot(Set(db, "/a", 1, y, 0).db, 1, "/a") == Read(Some(y))
  {
  }

  /**
   A write above a live snapshot keeps its answer exactly if the last snapshot is not that of
   revision 0, for which nothing is saved; a write at or below it only by writing the same.
   */
  lemma WriteKeepsReadIff(db: Db, r: nat, key: Key, rev: nat, obj: Object, now: nat)
    requires Ok(db) && LiveSnapshot(db, r) && rev >= db.lastVer
    requires IsLive(db, key) && KeyKept(db, r, key, db.objs[key].obj) && db.objs[key].revision <= r
    requires !Backpedals(db.objs[key], db.lastSnapshot)
    ensures GetFromSnapshot(Set(db, key, rev, obj, now).db, r, key) == Read(Some(db.objs[key].obj))
            <==> if rev > r then db.lastSnapshot != 0 else obj == db.objs[key].obj
  {
    var e, e' := db.objs[key], Set(db, key, rev, obj, now).db.objs[key];
    assert EntryOk(e, db.lastVer, db.lastSnapshot);
    RecordKeyKeeps(db, key, e);
    if db.lastSnapshot == 0 {
      NothingSavedAtZero(db, r, key);
    } else if rev > r {
      var n := |e.snapshotList|;
      assert NeedsVersion(e, db.lastSnapshot);
      assert FirstFrom(e', r, n) && HoldsCopy(e', r, n, e.obj);
      if e'.snapshotList[n] != r {
        assert forall s <- e.snapshots :: s in e.snapshotList;
        ScanStops(e', r, n, 0, None);
      }
    }
  }

  /** The snapshot of revision 0 loses its answer at the next write exactly if no other has been taken since. */
  lemma RevisionZeroExample(x: Object, y: Object)
    ensures var db1 := StartSnapshot(Set(EmptyDb, "/a", 0, x, 0).db);
            var db2 := Set(db1, "/a", 1, y, 0).db;
            && db1.lastSnapshot == 0 && GetFromSnapshot(db1, 0, "/a") == Read(Some(x))
            && GetFromSnapshot(db2, 0, "/a") == ReadNoSnapshot
    ensures var db1 := StartSnapshot(Set(EmptyDb, "/a", 0, x, 0).db);
            var db2 := StartSnapshot(Set(db1, "/b", 1, y, 0).db);
            GetFromSnapshot(Set(db2, "/a", 2, y, 0).db, 0, "/a") == Read(Some(x))
  {
    assert "/a"[1] != "/b"[1];
    var db1 := StartSnapshot(Set(EmptyDb, "/a", 0, x, 0).db);
    var db2 := StartSnapshot(Set(db1, "/b", 1, y, 0).db);
    var e' := Set(db2, "/a", 2, y, 0).db.objs["/a"];
    assert e'.snapshotList == [1] && e'.snapshots == map[1 := Mvcc(false, Some(x), 1, 0)];
    ScanStops(e', 0, 0, 0, None);
  }

  /**
   A delete that succeeds keeps the answer of a live snapshot exactly if its revision is above
   the snapshot and the last snapshot is not that of revision 0; so one at revision 0, which
   leaves the revision of the object, never does. A delete that is refused changes nothing.
   */
  lemma DeleteKeepsReadIff(db: Db, r: nat, key: Key, rev: nat, now: nat)
    requires Ok(db) && LiveSnapshot(db, r)
    requires IsLive(db, key) && KeyKept(db, r, key, db.objs[key].obj) && db.objs[key].revision <= r
    requires !Backpedals(db.objs[key], db.lastSnapshot)
    ensures GetFromSnapshot(Delete(db, key, rev, now).db, r, key) == Read(Some(db.objs[key].obj))
            <==> if rev == 0 || rev > db.objs[key].revision then rev > r && db.lastSnapshot != 0 else true
  {
    var e, db' := db.objs[key], Delete(db, key, rev, now).db;
    assert EntryOk(e, db.lastVer, db.lastSnapshot);
    DeleteSameSnapshots(db, key, rev, now);
    assert LiveSnapshot(db', r);
    if db.lastSnapshot == 0 {
      NothingSavedAtZero(db, r, key);
    } else if rev > r {
      DeleteObjs(db, key, rev, now);
      var e', n := db'.objs[key], |e.snapshotList|;
      assert NeedsVersion(e, db.lastSnapshot);
      assert FirstFrom(e', r, n) && HoldsCopy(e', r, n, e.obj);
      if e'.snapshotList[n] != r {
        assert forall s <- e.snapshots :: s in e.snapshotList;
        ScanStops(e', r, n, 0, None);
      }
    }
  }

  /** A delete at revision 0 hides the key in a snapshot taken before it. */
  lemma DeleteZeroExample(x: Object)
    ensures var db := StartSnapshot(Set(EmptyDb, "/a", 1, x, 0).db);
            && GetFromSnapshot(db, 1, "/a") == Read(Some(x))
            && GetFromSnapshot(Delete(db, "/a", 0, 0).db, 1, "/a") == ReadNotFound
  {
  }

  /**
   A new snapshot shows a live key without saved copies exactly if the key is not above the
   last version; it is above only after a write at a lower revision than one before.
   */
  lemma StartShowsIff(db: Db, key: Key)
    requires IsLive(db, key) && db.objs[key].snapshots == map[] && db.objs[key].snapshotList == []
    requires db.lastVer !in db.snapshots
    ensures GetFromSnapshot(StartSnapshot(db), db.lastVer, key) ==
            if db.objs[key].revision <= db.lastVer then Read(Get(db, key)) else ReadNoSnapshot
  {
  }

  /** A write below the last version, then a snapshot: it lacks a live key. */
  lemma LowerWriteExample(x: Object, y: Object)
    ensures var db1 := Set(Set(EmptyDb, "/c", 1, x, 0).db, "/a", 2, y, 0).db;
            var db2 := StartSnapshot(Set(db1, "/c", 1, x, 0).db);
            db2.lastSnapshot == 1 && Get(db2, "/a") == Some(y) && GetFromSnapshot(db2, 1, "/a") == ReadNoSnapshot
  {
    assert "/a"[1] != "/c"[1];
  }

  /** Taking a snapshot gives a readable one unless the table holds a deleted one of that revision. */
  lemma StartReadableIff(db: Db)
    requires Ok(db)
    ensures LiveSnapshot(StartSnapshot(db), StartSnapshot(db).lastSnapshot) <==> !DeadSnapshot(db, db.lastVer)
  {
    StartOk(db);
  }

  /** A snapshot deleted and taken again before any write is returned but cannot be read. */
  lemma RestartExample(x: Object)
    ensures var db1 := StartSnapshot(Set(EmptyDb, "/a", 1, x, 0).db);
            var db2 := StartSnapshot(DeleteSnapshot(db1, 1));
            db2.lastSnapshot == 1 && GetFromSnapshot(db2, 1, "/a") == ReadNoSnapshot
  {
  }

  /**
   Collecting copies, in whatever order snapshots were deleted, keeps the answer of a live
   snapshot exactly when the first copy saved at or after it is kept.
   */
  lemma CollectKeepsReadIff(db: Db, db': Db, r: nat, key: Key, obj: Object, i: nat)
    requires LiveSnapshot(db, r) && Collected(db, db') && KeyKept(db, r, key, obj)
    requires EntryOk(db.objs[key], db.lastVer, db.lastSnapshot)
    requires db.objs[key].revision > r && FirstFrom(db.objs[key], r, i)
    ensures GetFromSnapshot(db', r, key) == Read(Some(obj))
            <==> db.objs[key].snapshotList[i] in db'.objs[key].snapshots
  {
    var e, e' := db.objs[key], db'.objs[key];
    assert EntryCollected(db, e, e');
    assert LiveSnapshot(db', r);
    var n: nat :| FirstFrom(e, r, n) && HoldsCopy(e, r, n, obj);
    assert n == i && FirstFrom(e', r, i);
    if e.snapshotList[i] != r {
      assert r !in e.snapshotList;
      ScanStops(e', r, i, 0, None);
    } else {
      assert !DeadSnapshot(db, r);
    }
  }

  /**
   Before a collection one can tell: one that the quota does not cut short keeps the answer of
   a live snapshot exactly if the first copy saved at or after it is of a snapshot that is not
   deleted. The copies of a snapshot are found through the keys recorded with it.
   */
  lemma CollectSafeIff(db: Db, db': Db, r: nat, key: Key, obj: Object, i: nat)
    requires LiveSnapshot(db, r) && KeyKept(db, r, key, obj) && Collected(db, db') && AllCleared(db, db')
    requires EntryOk(db.objs[key], db.lastVer, db.lastSnapshot)
    requires db.objs[key].revision > r && FirstFrom(db.objs[key], r, i)
    requires Recorded(db)
    ensures GetFromSnapshot(db', r, key) == Read(Some(obj)) <==> !DeadSnapshot(db, db.objs[key].snapshotList[i])
  {
    var e := db.objs[key];
    var s := e.snapshotList[i];
    CollectKeepsReadIff(db, db', r, key, obj, i);
    if DeadSnapshot(db, s) {
      assert Cleared(db, db', s);
      if s in e.snapshots { assert HasCopy(db, key, s); }
    } else {
      assert EntryCollected(db, e, db'.objs[key]);
      var n: nat :| FirstFrom(e, r, n) && HoldsCopy(e, r, n, obj);
      assert n == i;
    }
  }

  /** In a state that a run reaches, whatever the order in which it deletes snapshots, nothing is to be known of records. */
  lemma RunCollectSafeIff(run: seq<Db>, ops: seq<AnyOp>, m: nat, db': Db, r: nat, key: Key, obj: Object, i: nat)
    requires IsAnyRun(run, ops) && m < |run| && Collected(run[m], db') && AllCleared(run[m], db')
    requires LiveSnapshot(run[m], r) && KeyKept(run[m], r, key, obj)
    requires run[m].objs[key].revision > r && FirstFrom(run[m].objs[key], r, i)
    ensures GetFromSnapshot(db', r, key) == Read(Some(obj)) <==> !DeadSnapshot(run[m], run[m].objs[key].snapshotList[i])
  {
    RunRecorded(run, ops, m);
    RunBounded(run, ops, m);
    assert EntryOk(run[m].objs[key], run[m].lastVer, run[m].lastSnapshot);
    CollectSafeIff(run[m], db', r, key, obj, i);
  }

  /** Deleting and collecting a newer snapshot first turns an older answer into nil. */
  lemma NewerFirstExample(x: Object, y: Object, z: Object)
    ensures var db1 := StartSnapshot(Set(EmptyDb, "/a", 1, x, 0).db);
            var db2 := StartSnapshot(Set(db1, "/b", 2, y, 0).db);
            var db3 := DeleteSnapshot(Set(db2, "/a", 3, z, 0).db, 2);
            && GetFromSnapshot(db3, 1, "/a") == Read(Some(x))
            && exists db4 :: Collected(db3, db4) && GetFromSnapshot(db4, 1, "/a") == Read(None)
  {
    assert "/a"[1] != "/b"[1];
    var db1 := StartSnapshot(Set(EmptyDb, "/a", 1, x, 0).db);
    var db2 := StartSnapshot(Set(db1, "/b", 2, y, 0).db);
    var db3 := DeleteSnapshot(Set(db2, "/a", 3, z, 0).db, 2);
    var e := db3.objs["/a"];
    assert e.snapshotList == [2] && e.snapshots == map[2 := Mvcc(false, Some(x), 2, 1)];
    ScanStops(e, 1, 0, 0, None);
    var db4 := db3.(objs := db3.objs["/a" := e.(snapshots := map[])], snapshots := db3.snapshots - {2});
    assert 1 in db4.snapshots;
    ScanStops(db4.objs["/a"], 1, 0, 0, None);
    assert Collected(db3, db4);
  }
}
