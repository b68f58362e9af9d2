/**
 The store itself: a map from keys to cache objects that are updated in place, and the
 queue of deleted objects shared with it. Every method is proved against the function of
 the same name on the store's contents.
 */
module ObjectStore {
  import M = StoreModel
  import opened Wrappers
  import opened StoreModel
  import opened DeleteQueue
  import opened SnapshotCollection
  import CopyRecords
  import LiveMap

  class Store {
    var objs: map<Key, CacheObj>
    const delPending: DelPendingHeap
    var lastVer: nat
    var lastSnapshot: nat
    var snapshots: map<nat, Snapshot>

    constructor ()
      ensures Valid() && Synced() && Contents() == EmptyDb && fresh(delPending) && delPending.l == []
    {
      objs, lastVer, lastSnapshot, snapshots := map[], 0, 0, map[];
      delPending := new DelPendingHeap();
    }

    ghost function Footprint(): set<CacheObj>
      reads `objs, delPending`l
    {
      objs.Values + delPending.Items()
    }

    ghost function Entries(): map<Key, Entry>
      reads `objs, objs.Values`entry
    {
      map k | k in objs :: objs[k].entry
    }

    ghost function Contents(): Db
      reads `objs, `lastVer, `lastSnapshot, `snapshots, objs.Values`entry
    {
      Db(Entries(), lastVer, lastSnapshot, snapshots)
    }

    ghost predicate Keyed()
      reads `objs
    {
      forall k <- objs :: objs[k].key == k
    }

    ghost predicate Queued()
      reads `objs, objs.Values`inDelQ, delPending`l
    {
      forall k <- objs :: objs[k].inDelQ <==> objs[k] in delPending.l
    }

    /** The queue is a heap of deleted objects, and every object knows whether it is in it. */
    ghost predicate Valid()
      reads `objs, objs.Values, delPending, delPending.l
    {
      && Keyed() && Queued() && delPending.Valid()
      && (forall o <- delPending.l :: o.entry.deleted)
    }

    /** The queue holds exactly the tombstones of the map. */
    ghost predicate Synced()
      reads `objs, objs.Values, delPending, delPending.l
    {
      && (forall o <- delPending.l :: o.key in objs && objs[o.key] == o)
      && (forall k <- objs :: objs[k].entry.deleted ==> objs[k] in delPending.l)
    }

    /** Takes an object that is no longer deleted out of the queue. */
    method Unqueue(o: CacheObj)
      requires Keyed() && Queued() && o in objs.Values
      requires delPending.Positioned() && (forall x <- delPending.l :: x.inDelQ && (x != o ==> x.entry.deleted))
      requires o !in delPending.l ==> Ordered(delPending.Times())
      requires o in delPending.l ==> OrderedBut(delPending.Times(), o.delQId)
      modifies delPending`l, delPending.Items()`delQId, o`inDelQ
      ensures Valid() && delPending.Items() == old(delPending.Items()) - {o}
    {
      if o.inDelQ {
        var _ := delPending.Remove(o.delQId);
      }
      assert forall x :: x in delPending.l <==> x in delPending.Items();
      assert forall x :: x in old(delPending.l) <==> x in old(delPending.Items());
    }

    /** The contents when only the object of one key has changed. */
    twostate lemma ChangedAt(key: Key)
      requires objs == old(objs) && key in objs
      requires forall k <- objs :: k != key ==> objs[k].entry == old(objs[k].entry)
      ensures Entries() == old(Entries())[key := objs[key].entry]
    {
    }

    /** Changing only the saved copies of one key's object disturbs neither queue nor map. */
    twostate lemma CopiesChangedAt(key: Key)
      requires old(Valid()) && objs == old(objs) && key in objs && delPending.l == old(delPending.l)
      requires objs[key].entry.deleted == old(objs[key].entry.deleted)
      requires objs[key].entry.lastUpd == old(objs[key].entry.lastUpd)
      requires forall o <- objs.Values + delPending.Items() ::
                 o.inDelQ == old(o.inDelQ) && o.delQId == old(o.delQId) && (o != objs[key] ==> o.entry == old(o.entry))
      ensures Valid() && (old(Synced()) ==> Synced()) && Entries() == old(Entries())[key := objs[key].entry]
    {
      ChangedAt(key);
      assert forall x <- delPending.l :: x in delPending.Items();
      assert delPending.Times() == old(delPending.Times());
    }

    /** Saves the object of a key for the last snapshot, if that has no copy yet. */
    method SaveForSnapshot(key: Key) returns (panicked: bool)
      requires Valid() && key in objs
      modifies `snapshots, {objs[key]}`entry
      ensures Valid() && (old(Synced()) ==> Synced())
      ensures panicked == Backpedals(old(Contents()).objs[key], lastSnapshot)
      ensures Contents() == if panicked then old(Contents()) else M.SavedFor(old(Contents()), key)
    {
      var o := objs[key];
      assert o.entry == Contents().objs[key];
      var added;
      added, panicked := o.SaveVersion(lastSnapshot);
      if added && lastSnapshot in snapshots {
        var ss := snapshots[lastSnapshot];
        snapshots := snapshots[lastSnapshot := ss.(keys := ss.keys[key := o.entry.revision])];
      }
      CopiesChangedAt(key);
    }

    /** Puts a live object in place of the one a key has. */
    method PutLive(key: Key, e: Entry)
      requires Valid() && key in objs && !e.deleted
      modifies `lastVer, {objs[key]}, delPending, delPending.Items()`delQId
      ensures Valid() && (old(Synced()) ==> Synced())
      ensures Contents() == old(Contents()).(objs := old(Contents()).objs[key := e], lastVer := e.revision)
      ensures objs == old(objs) && delPending.Items() <= old(delPending.Items())
    {
      var o := objs[key];
      o.entry := e;
      lastVer := e.revision;
      if o.inDelQ {
        var i := o.delQId;
        assert delPending.l[i] == o;
        assert delPending.Times() == old(delPending.Times())[i := e.lastUpd];
        ReplacedAt(old(delPending.Times()), i, e.lastUpd);
      } else {
        assert delPending.Times() == old(delPending.Times());
      }
      Unqueue(o);
      ChangedAt(key);
      assert forall x :: x in delPending.l <==> x in delPending.Items();
      assert forall x :: x in old(delPending.l) <==> x in old(delPending.Items());
    }

    method Overwrite(key: Key, rev: nat, obj: Object, now: nat) returns (outcome: Outcome, callback: Option<Callback>)
      requires Valid() && key in objs
      modifies `lastVer, `snapshots, delPending, {objs[key]}, delPending.Items()`delQId
      ensures Valid() && (old(Synced()) ==> Synced())
      ensures Write(Contents(), outcome, callback) == M.Overwrite(old(Contents()), key, rev, obj, now)
      ensures Footprint() <= old(Footprint())
    {
      var o := objs[key];
      var prev := if o.entry.deleted then None else Some(o.entry.obj);
      callback := if o.entry.revision < rev then Some(Callback(key, obj, prev)) else None;
      var panicked := SaveForSnapshot(key);
      if panicked {
        return Panicked, callback;
      }
      PutLive(key, o.entry.(obj := obj, revision := rev, deleted := false, lastUpd := now));
      return Done, callback;
    }

    method Set(key: Key, rev: nat, obj: Object, now: nat) returns (outcome: Outcome, callback: Option<Callback>)
      requires Valid()
      modifies this, delPending, Footprint()
      ensures Valid() && (old(Synced()) ==> Synced())
      ensures Write(Contents(), outcome, callback) == M.Set(old(Contents()), key, rev, obj, now)
      ensures fresh(Footprint() - old(Footprint()))
      ensures key !in old(objs) ==> delPending.l == old(delPending.l) && forall o <- delPending.l :: o.entry == old(o.entry)
    {
      if key in objs {
        if objs[key].entry.revision <= rev {
          outcome, callback := Overwrite(key, rev, obj, now);
          return;
        }
        return RevBackpedals, None;
      }
      Insert(key, rev, obj, now);
      return Done, Some(Callback(key, obj, None));
    }

    /** An object for a key that has none. */
    method Insert(key: Key, rev: nat, obj: Object, now: nat)
      requires Valid() && key !in objs
      modifies `objs, `lastVer
      ensures Valid() && (old(Synced()) ==> Synced())
      ensures Contents() == M.Set(old(Contents()), key, rev, obj, now).db
      ensures fresh(Footprint() - old(Footprint()))
    {
      var o := new CacheObj(key, rev, obj, now);
      lastVer := rev;
      objs := objs[key := o];
      assert Entries() == old(Entries())[key := o.entry];
    }

    /** Puts a tombstone in place of a live object and queues it. */
    method PutTombstone(key: Key, e: Entry)
      requires Valid() && key in objs && !objs[key].entry.deleted && e.deleted
      modifies {objs[key]}, delPending, delPending.Items()`delQId
      ensures Valid() && (old(Synced()) ==> Synced())
      ensures Contents() == old(Contents()).(objs := old(Contents()).objs[key := e])
      ensures delPending.Items() == old(delPending.Items()) + {objs[key]}
    {
      var o := objs[key];
      assert o !in delPending.l;
      o.entry := e;
      o.inDelQ := true;
      assert delPending.Times() == old(delPending.Times());
      delPending.Push(o);
      ChangedAt(key);
      assert forall x :: x in delPending.l <==> x in delPending.Items();
      assert forall x :: x in old(delPending.l) <==> x in old(delPending.Items());
    }

    /** Only live objects are queued, and those are not queued yet. */
    method Bury(key: Key, rev: nat, now: nat) returns (outcome: Outcome, callback: Option<Callback>)
      requires Valid() && key in objs
      modifies `lastVer, `snapshots, delPending, {objs[key]}, delPending.Items()`delQId
      ensures Valid() && (old(Synced()) ==> Synced())
      ensures Write(Contents(), outcome, callback) == M.Bury(old(Contents()), key, rev, now)
      ensures objs == old(objs) && Footprint() == old(Footprint())
    {
      var o := objs[key];
      callback := Some(Callback(key, o.entry.obj, None));
      var panicked := SaveForSnapshot(key);
      if panicked {
        return Panicked, callback;
      }
      if o.entry.deleted {
        return NotFound, None;
      }
      assert o.entry == Contents().objs[key];
      var revision := if rev != 0 then rev else o.entry.revision;
      var obj := o.entry.obj.(version := rev);
      PutTombstone(key, o.entry.(obj := obj, revision := revision, deleted := true, lastUpd := now));
      return Done, Some(Callback(key, obj, None));
    }

    method Delete(key: Key, rev: nat, now: nat) returns (outcome: Outcome, callback: Option<Callback>)
      requires Valid()
      modifies this, delPending, Footprint()
      ensures Valid() && (old(Synced()) ==> Synced())
      ensures Write(Contents(), outcome, callback) == M.Delete(old(Contents()), key, rev, now)
      ensures objs == old(objs) && Footprint() == old(Footprint())
    {
      if key !in objs {
        return NotFound, None;
      }
      if rev != 0 {
        if rev <= objs[key].entry.revision {
          return NotCorrectRev, None;
        }
        lastVer := rev;
      }
      outcome, callback := Bury(key, rev, now);
    }

    method Get(key: Key) returns (r: Option<Object>)
      ensures r == M.Get(Contents(), key)
    {
      if key !in objs || objs[key].entry.deleted {
        return None;
      }
      return Some(objs[key].entry.obj);
    }

    method GetFromSnapshot(rev: nat, key: Key) returns (r: SnapshotRead)
      ensures r == M.GetFromSnapshot(Contents(), rev, key)
    {
      if rev !in snapshots || snapshots[rev].deleted {
        return ReadNoSnapshot;
      }
      if key !in objs {
        return ReadNotFound;
      }
      var o := objs[key];
      if o.entry.revision <= rev {
        return if o.entry.deleted then ReadNotFound else Read(Some(o.entry.obj));
      }
      var v := o.FindVersion(rev);
      if v == None {
        return ReadNoSnapshot;
      }
      return if v.value.deleted then ReadNotFound else Read(v.value.obj);
    }

    method StartSnapshot() returns (rev: nat)
      requires Valid()
      modifies `snapshots, `lastSnapshot
      ensures Valid() && (old(Synced()) ==> Synced())
      ensures Contents() == M.StartSnapshot(old(Contents())) && rev == Contents().lastSnapshot
    {
      if lastVer !in snapshots {
        snapshots := snapshots[lastVer := Snapshot(map[], false)];
        lastSnapshot := lastVer;
      }
      return lastSnapshot;
    }

    method DeleteSnapshot(rev: nat) returns (found: bool)
      requires Valid()
      modifies `snapshots
      ensures Valid() && (old(Synced()) ==> Synced())
      ensures Contents() == M.DeleteSnapshot(old(Contents()), rev) && found == LiveSnapshot(old(Contents()), rev)
    {
      if rev !in snapshots || snapshots[rev].deleted {
        return false;
      }
      snapshots := snapshots[rev := snapshots[rev].(deleted := true)];
      return true;
    }

    method Mark(prefix: Key)
      requires Valid()
      modifies objs.Values`entry
      ensures Valid() && Contents() == M.Mark(old(Contents()), prefix)
    {
      forall k <- objs | HasPrefix(prefix, k) {
        objs[k].entry := objs[k].entry.(deleted := true);
      }
      assert delPending.Times() == old(delPending.Times());
    }

    /**
     Objects that were queued stay queued: the sweep does not look at the queue. Queue and map
     stay in step exactly if no queued object is under the prefix.
     */
    method Sweep(prefix: Key) returns (swept: map<Key, Object>)
      requires Valid()
      modifies `objs
      ensures Valid() && Contents() == M.Sweep(old(Contents()), prefix)
      ensures swept == map k | k in old(Contents()).objs && k !in Contents().objs :: old(Contents()).objs[k].obj
      ensures old(Synced()) ==> (Synced() <==> forall o <- delPending.l :: !HasPrefix(prefix, o.key))
    {
      swept := SweepOut(prefix);
    }

    /** The map without the tombstones under the prefix. */
    method SweepOut(prefix: Key) returns (swept: map<Key, Object>)
      requires Valid()
      modifies `objs
      ensures Valid() && Contents() == M.Sweep(old(Contents()), prefix)
      ensures swept == map k | k in old(Contents()).objs && k !in Contents().objs :: old(Contents()).objs[k].obj
      ensures forall k :: k in objs <==> k in old(objs) && !(HasPrefix(prefix, k) && old(objs)[k].entry.deleted)
      ensures forall k <- objs :: objs[k] == old(objs)[k]
    {
      swept := map k | k in objs && HasPrefix(prefix, k) && objs[k].entry.deleted :: objs[k].entry.obj;
      objs := objs - swept.Keys;
    }

    /** Takes one key off a dead snapshot: its copy goes, and so does the record of it. */
    method CollectKey(snap: nat, key: Key) returns (freed: bool)
      requires Valid() && key in objs && snap in snapshots
      modifies `snapshots, {objs[key]}`entry
      ensures Valid() && (old(Synced()) ==> Synced())
      ensures Contents() == M.WithoutCopy(old(Contents()), snap, key)
    {
      freed := objs[key].DropVersion(snap);
      var ss := snapshots[snap];
      snapshots := snapshots[snap := ss.(keys := ss.keys - {key})];
      CopiesChangedAt(key);
    }

    /** A key that is gone from the map stays recorded with the snapshot. */
    method CollectNext(snap: nat, key: Key, ghost run: Collection, ghost todo: set<Key>) returns (freed: bool)
      requires Valid() && run.Collecting(Contents(), snap, todo) && RecordedAt(Contents(), key, snap)
      modifies `snapshots, objs.Values`entry
      ensures Valid() && (old(Synced()) ==> Synced()) && run.Collecting(Contents(), snap, todo - {key})
      ensures OneDone(old(Contents()), Contents(), snap, key, freed)
    {
      ghost var db := Contents();
      freed := false;
      if key in objs {
        run.CollectOne(db, snap, todo, key);
        freed := CollectKey(snap, key);
        WorkDone(db, snap, key, freed);
      } else {
        run.SkipOne(Contents(), snap, todo, key);
      }
    }

    method CollectKeys(snap: nat, ghost run: Collection, freed0: nat) returns (freed: nat, ghost left: set<Key>)
      requires Valid() && freed0 <= DelayedDelPurgeQuanta && snap in snapshots
      requires run.Collecting(Contents(), snap, snapshots[snap].keys.Keys)
      modifies `snapshots, objs.Values`entry
      ensures Valid() && (old(Synced()) ==> Synced())
      ensures run.Collecting(Contents(), snap, left) && (freed <= DelayedDelPurgeQuanta ==> left == {})
      ensures Work(Contents()) + freed <= old(Work(Contents())) + freed0
    {
      freed := freed0;
      var todo := snapshots[snap].keys.Keys;
      while todo != {} && freed <= DelayedDelPurgeQuanta
        invariant Valid() && (old(Synced()) ==> Synced()) && run.Collecting(Contents(), snap, todo)
        invariant todo <= snapshots[snap].keys.Keys && Work(Contents()) + freed <= old(Work(Contents())) + freed0
        decreases todo
      {
        var k :| k in todo;
        var dropped := CollectNext(snap, k, run, todo);
        freed := freed + if dropped then 1 else 0;
        todo := todo - {k};
      }
      left := todo;
    }

    method DropIfEmpty(snap: nat)
      requires Valid() && snap in snapshots
      modifies `snapshots, `lastSnapshot
      ensures Valid() && (old(Synced()) ==> Synced())
      ensures Contents() == Collection.Dropped(old(Contents()), snap)
    {
      if snapshots[snap].keys == map[] {
        snapshots := snapshots - {snap};
      }
      if snapshots == map[] {
        lastSnapshot := 0;
      }
    }

    /** Collects one snapshot; it goes for good once nothing is recorded with it any more. */
    method CollectSnapshot(snap: nat, ghost run: Collection, freed0: nat) returns (freed: nat)
      requires Valid() && freed0 <= DelayedDelPurgeQuanta
      requires run.Between(Contents()) && DeadSnapshot(run.db, snap) && snap in run.untouched && snap !in run.cleared
      modifies `snapshots, `lastSnapshot, objs.Values`entry
      ensures Valid() && (old(Synced()) ==> Synced())
      ensures if freed <= DelayedDelPurgeQuanta then run.Clear(snap).Between(Contents()) else run.Open(snap).Between(Contents())
      ensures Work(Contents()) + freed <= old(Work(Contents())) + freed0
    {
      run.Begin(Contents(), snap);
      ghost var left;
      freed, left := CollectKeys(snap, run.Open(snap), freed0);
      if freed > DelayedDelPurgeQuanta {
        return;
      }
      run.Finish(Contents(), snap);
      WorkSame(Contents(), snap);
      DropIfEmpty(snap);
    }

    method CollectIfDead(snap: nat, ghost run: Collection, freed0: nat) returns (freed: nat)
      requires Valid() && freed0 <= DelayedDelPurgeQuanta
      requires run.Between(Contents()) && snap in run.untouched && snap !in run.cleared
      modifies `snapshots, `lastSnapshot, objs.Values`entry
      ensures Valid() && (old(Synced()) ==> Synced())
      ensures if freed <= DelayedDelPurgeQuanta then run.Next(snap).Between(Contents()) else run.Open(snap).Between(Contents())
      ensures Work(Contents()) + freed <= old(Work(Contents())) + freed0
    {
      freed := freed0;
      assert Intact(run.db, Contents(), snap);
      if snapshots[snap].deleted {
        freed := CollectSnapshot(snap, run, freed0);
      }
    }

    /** The dead snapshots, oldest first, until the quota of freed copies is used up. */
    method CollectDead() returns (freed: nat)
      requires Valid()
      modifies `snapshots, `lastSnapshot, objs.Values`entry
      ensures Valid() && (old(Synced()) ==> Synced())
      ensures Collected(old(Contents()), Contents()) && OldestFirst(old(Contents()), Contents())
      ensures freed <= DelayedDelPurgeQuanta ==> AllCleared(old(Contents()), Contents())
      ensures freed <= old(Work(Contents()))
      ensures freed <= DelayedDelPurgeQuanta && CopyRecords.Exact(old(Contents())) ==> CopyRecords.OnlyLive(Contents())
    {
      freed := CollectOldestFirst();
      if freed <= DelayedDelPurgeQuanta && CopyRecords.Exact(old(Contents())) {
        CopyRecords.CompleteCollection(old(Contents()), Contents());
      }
    }

    method CollectOldestFirst() returns (freed: nat)
      requires Valid()
      modifies `snapshots, `lastSnapshot, objs.Values`entry
      ensures Valid() && (old(Synced()) ==> Synced())
      ensures Collected(old(Contents()), Contents()) && OldestFirst(old(Contents()), Contents())
      ensures freed <= DelayedDelPurgeQuanta ==> AllCleared(old(Contents()), Contents())
      ensures freed <= old(Work(Contents()))
    {
      ghost var db := Contents();
      freed := 0;
      var ss := Sorted(snapshots.Keys);
      ghost var run := Collection(db, {}, set s | s in db.snapshots);
      run.Nothing();
      var i := 0;
      while i < |ss|
        invariant 0 <= i <= |ss| && freed <= DelayedDelPurgeQuanta
        invariant Valid() && (old(Synced()) ==> Synced()) && run.db == db && run.Between(Contents())
        invariant run.UpTo(ss, i) && Work(Contents()) + freed <= old(Work(Contents()))
        decreases |ss| - i
      {
        freed := CollectIfDead(ss[i], run, freed);
        if freed > DelayedDelPurgeQuanta {
          run.Stopped(Contents(), ss, i);
          return;
        }
        run.Advance(ss, i);
        run := run.Next(ss[i]);
        i := i + 1;
      }
      run.Completed(Contents(), ss);
    }

    /** Takes a key, whatever it holds now, out of the map. */
    method Forget(o: CacheObj)
      requires Valid() && o !in delPending.l
      modifies `objs
      ensures Valid() && Entries() == old(Entries()) - {o.key}
      ensures old(SyncedBut(o)) ==> Synced()
    {
      objs := objs - {o.key};
    }

    ghost predicate SyncedBut(o: CacheObj)
      reads `objs, objs.Values, delPending, delPending.l
    {
      && (o.key in objs && objs[o.key] == o)
      && (forall q <- delPending.l :: q.key in objs && objs[q.key] == q)
      && (forall k <- objs :: objs[k].entry.deleted && objs[k] != o ==> objs[k] in delPending.l)
    }

    /** Takes the oldest object off the queue and its key, whatever that holds now, out of the map. */
    method ReapFirst() returns (o: CacheObj)
      requires Valid() && |delPending.l| > 0
      modifies `objs, delPending, delPending.Items()`delQId, {delPending.l[0]}`inDelQ
      ensures Valid() && (old(Synced()) ==> Synced())
      ensures o == old(delPending.l[0]) && delPending.Items() == old(delPending.Items()) - {o}
      ensures Entries() == old(Entries()) - {o.key}
    {
      o := PopFirst();
      Forget(o);
    }

    /** Takes the oldest object off the queue; the map still has it. */
    method PopFirst() returns (o: CacheObj)
      requires Valid() && |delPending.l| > 0
      modifies delPending, delPending.Items()`delQId, {delPending.l[0]}`inDelQ
      ensures Valid() && (old(Synced()) ==> SyncedBut(o))
      ensures o == old(delPending.l[0]) && delPending.Items() == old(delPending.Items()) - {o}
    {
      o := delPending.Pop();
    }

    /** The oldest object is not due, still has copies, or does not exist. */
    ghost predicate NothingDue(now: int, past: int)
      reads delPending, delPending.l
    {
      |delPending.l| == 0 || !Expired(delPending.l[0].entry, now, past)
    }

    /** One more expired object is taken out. */
    method ReapNext(popped: seq<CacheObj>, ghost now: int, ghost past: int,
                    ghost entries: map<Key, Entry>, ghost items: set<CacheObj>) returns (o: CacheObj)
      requires Valid() && |delPending.l| > 0 && Expired(delPending.l[0].entry, now, past) && AllExpired(popped, now, past)
      requires TakenOut(entries, items, Entries(), delPending.Items(), popped)
      modifies `objs, delPending, delPending.Items()`delQId, {delPending.l[0]}`inDelQ
      ensures Valid() && (old(Synced()) ==> Synced()) && o == old(delPending.l[0])
      ensures TakenOut(entries, items, Entries(), delPending.Items(), popped + [o])
      ensures AllExpired(popped + [o], now, past) && delPending.Items() < old(delPending.Items())
    {
      assert delPending.l[0] in delPending.Items();
      TakenOutMore(entries, items, Entries(), delPending.Items(), popped, delPending.l[0]);
      OneMoreExpired(popped, delPending.l[0], now, past);
      o := ReapFirst();
    }

    /** Removes expired tombstones, oldest first, until the quota is used up. */
    method Reap(now: int, past: int) returns (popped: seq<CacheObj>)
      requires Valid()
      modifies `objs, delPending, delPending.Items()`delQId, delPending.Items()`inDelQ
      ensures Valid() && (old(Synced()) ==> Synced())
      ensures |popped| <= DelayedDelPurgeQuanta + 1
      ensures AllExpired(popped, now, past)
      ensures TakenOut(old(Entries()), old(delPending.Items()), Entries(), delPending.Items(), popped)
      ensures old(Synced()) ==> forall o <- popped :: o.key in old(objs) && old(objs)[o.key] == o
      ensures NothingDue(now, past) || |popped| == DelayedDelPurgeQuanta + 1
      ensures popped == [] ==> delPending.l == old(delPending.l)
    {
      popped := [];
      ghost var entries, items := Entries(), delPending.Items();
      NoneTakenOut(entries, items);
      while |delPending.l| > 0 && now - delPending.l[0].entry.lastUpd >= past && |popped| <= DelayedDelPurgeQuanta
        invariant Valid() && (old(Synced()) ==> Synced())
        invariant |popped| <= DelayedDelPurgeQuanta + 1
        invariant AllExpired(popped, now, past)
        invariant TakenOut(entries, items, Entries(), delPending.Items(), popped)
        invariant popped == [] ==> delPending.l == old(delPending.l)
        invariant old(Synced()) ==> forall o <- popped :: o.key in old(objs) && old(objs)[o.key] == o
        decreases delPending.Items()
      {
        if delPending.l[0].entry.snapshots != map[] {
          break;
        }
        var o := ReapNext(popped, now, past, entries, items);
        popped := popped + [o];
      }
    }

    /** The objects in the queue that are old enough. */
    ghost function Due(now: int, past: int): set<CacheObj>
      reads delPending`l, delPending.l`entry
    {
      set o | o in delPending.l && now - o.entry.lastUpd >= past
    }

    /** Those that are old enough are within the quota, and no copies of them are saved. */
    ghost predicate InReach(now: int, past: int)
      reads delPending`l, delPending.l`entry
    {
      |Due(now, past)| <= DelayedDelPurgeQuanta + 1 && forall o <- Due(now, past) :: o.entry.snapshots == map[]
    }

    /** Objects that are not due stand behind those that are. */
    lemma HeadNotDue(now: int, past: int)
      requires Valid() && (|delPending.l| == 0 || now - delPending.l[0].entry.lastUpd < past)
      ensures Due(now, past) == {}
    {
      forall i | 0 <= i < |delPending.l| ensures now - delPending.l[i].entry.lastUpd < past {
        FirstIsLeast(delPending.Times(), i);
      }
    }

    lemma AllDueTaken(now: int, past: int, items: set<CacheObj>, popped: seq<CacheObj>)
      requires Valid() && AllExpired(popped, now, past)
      requires Members(popped) <= items && delPending.Items() == items - Members(popped) && |Members(popped)| == |popped|
      requires NothingDue(now, past) || |popped| == DelayedDelPurgeQuanta + 1
      requires |DueOf(items, now, past)| <= DelayedDelPurgeQuanta + 1
      requires forall o <- DueOf(items, now, past) :: o.entry.snapshots == map[]
      ensures Members(popped) == DueOf(items, now, past)
    {
      var due := DueOf(items, now, past);
      assert Members(popped) <= due;
      if NothingDue(now, past) {
        if |delPending.l| > 0 { assert delPending.l[0] in delPending.Items(); }
        HeadNotDue(now, past);
        assert forall x :: x in delPending.l <==> x in delPending.Items();
        forall o | o in due ensures o in Members(popped) || o in Due(now, past) {}
      } else {
        SameSize(Members(popped), due);
      }
    }

    /** The objects that are old enough, if they are in reach, and no others leave the queue. */
    method ReapReached(now: int, past: int) returns (popped: seq<CacheObj>)
      requires Valid()
      modifies `objs, delPending, delPending.Items()`delQId, delPending.Items()`inDelQ
      ensures Valid() && (old(Synced()) ==> Synced())
      ensures |popped| <= DelayedDelPurgeQuanta + 1 && (NothingDue(now, past) || |popped| == DelayedDelPurgeQuanta + 1)
      ensures AllExpired(popped, now, past)
      ensures TakenOut(old(Entries()), old(delPending.Items()), Entries(), delPending.Items(), popped)
      ensures old(Synced()) ==> forall o <- popped :: o.key in old(objs) && old(objs)[o.key] == o
      ensures old(InReach(now, past)) ==> Members(popped) == old(Due(now, past))
    {
      ghost var items := delPending.Items();
      ghost var reached := InReach(now, past);
      assert Due(now, past) == DueOf(items, now, past);
      popped := Reap(now, past);
      if reached {
        AllDueTaken(now, past, items, popped);
      }
    }

    method ReapDue(now: int, past: int) returns (popped: seq<CacheObj>)
      requires Valid()
      modifies `objs, delPending, delPending.Items()`delQId, delPending.Items()`inDelQ
      ensures Valid() && (old(Synced()) ==> Synced() && Reaped(old(Contents()), Contents(), now, past, DelayedDelPurgeQuanta))
      ensures Live(Contents()) == old(Live(Contents())) <==> forall o <- popped :: o.key !in old(Live(Contents()))
      ensures |popped| <= DelayedDelPurgeQuanta + 1 && (NothingDue(now, past) || |popped| == DelayedDelPurgeQuanta + 1)
      ensures Members(popped) <= old(delPending.Items()) && forall o <- popped :: o.key !in Contents().objs
      ensures old(InReach(now, past)) ==> Members(popped) == old(Due(now, past))
      ensures CopyRecords.Shrunk(old(Contents()), Contents())
    {
      ghost var db := Contents();
      popped := ReapReached(now, past);
      LiveWithout(db, Contents(), popped);
      if old(Synced()) {
        ReapedKeys(db, Contents(), popped, now, past);
      }
    }

    /**
     A purge. With the queue and the map in step it removes only expired tombstones. In any
     case, when the objects old enough are within the quota and have no saved copies, it
     takes exactly those off the queue, and the live map is kept exactly if none of their
     keys is live. When the records of deleted snapshots are within the quota, and are exact
     as in every run, only copies of live snapshots are left.
     */
    method PurgeDeleted(now: int, past: int) returns (popped: seq<CacheObj>)
      requires Valid()
      modifies this, delPending, Footprint()
      ensures Valid() && (old(Synced()) ==> Synced() && Purged(old(Contents()), Contents(), now, past, DelayedDelPurgeQuanta))
      ensures Live(Contents()) == old(Live(Contents())) <==> forall o <- popped :: o.key !in old(Live(Contents()))
      ensures |popped| <= DelayedDelPurgeQuanta + 1 && (NothingDue(now, past) || |popped| == DelayedDelPurgeQuanta + 1)
      ensures Members(popped) <= old(delPending.Items()) && forall o <- popped :: o.key !in Contents().objs
      ensures old(InReach(now, past)) ==> Members(popped) == old(Due(now, past))
      ensures old(InReach(now, past)) ==>
                (Live(Contents()) == old(Live(Contents())) <==>
                 forall o <- old(Due(now, past)) :: o.key !in old(Live(Contents())))
      ensures old(Work(Contents())) <= DelayedDelPurgeQuanta && CopyRecords.Exact(old(Contents())) ==>
                CopyRecords.OnlyLive(Contents())
    {
      CollectOnly(now, past);
      ghost var mid := Contents();
      popped := ReapDue(now, past);
      if CopyRecords.OnlyLive(mid) { CopyRecords.OnlyLiveShrunk(mid, Contents()); }
      assert forall o :: o in popped <==> o in Members(popped);
    }

    /** Dropping saved copies changes no live object and makes no object less due. */
    method CollectOnly(ghost now: int, ghost past: int)
      requires Valid()
      modifies `snapshots, `lastSnapshot, objs.Values`entry
      ensures Valid() && (old(Synced()) ==> Synced())
      ensures Collected(old(Contents()), Contents()) && OldestFirst(old(Contents()), Contents())
      ensures Live(Contents()) == old(Live(Contents()))
      ensures Due(now, past) == old(Due(now, past)) && (old(InReach(now, past)) ==> InReach(now, past))
      ensures old(Work(Contents())) <= DelayedDelPurgeQuanta && CopyRecords.Exact(old(Contents())) ==>
                CopyRecords.OnlyLive(Contents())
    {
      ghost var db := Contents();
      var freed := CollectDead();
      LiveMap.CollectedKeepsLive(db, Contents());
      forall o <- delPending.l
        ensures o.entry.lastUpd == old(o.entry.lastUpd)
        ensures old(o.entry.snapshots) == map[] ==> o.entry.snapshots == map[]
      {
        if o in objs.Values {
          ghost var k :| k in objs && objs[k] == o;
          assert EntryCollected(db, db.objs[k], Contents().objs[k]);
        }
      }
    }
  }

  /**
   The sweep leaves swept tombstones in the queue. A key that is set again after a sweep is
   live, and the purge that comes upon its old tombstone removes it from the map.
   */
  method SweepThenPurgeLosesKey(x: Object, y: Object) returns (before: Option<Object>, after: Option<Object>)
    ensures before == Some(y) && after == None
  {
    var s, o := SetAfterSweep(x, y);
    before := s.Get("/a");
    OneInReach(s, o, 1, 0);
    var popped := s.PurgeDeleted(1, 0);
    assert o in Members(popped);
    after := s.Get("/a");
  }

  /** The queue holds one object, a tombstone of the key without saved copies. */
  ghost predicate OneTombstone(s: Store, o: CacheObj)
    reads s.delPending`l, o`entry
  {
    s.delPending.l == [o] && o.key == "/a" && o.entry.lastUpd == 0 && o.entry.snapshots == map[]
  }

  lemma OneInReach(s: Store, o: CacheObj, now: int, past: int)
    requires OneTombstone(s, o) && now >= past
    ensures s.InReach(now, past) && s.Due(now, past) == {o}
  {
    assert s.Due(now, past) == {o};
  }

  method SetAfterSweep(x: Object, y: Object) returns (s: Store, ghost o: CacheObj)
    ensures fresh(s) && fresh(s.delPending) && fresh(s.Footprint()) && s.Valid()
    ensures M.Get(s.Contents(), "/a") == Some(y) && OneTombstone(s, o)
  {
    s, o := SweptTombstone(x);
    var outcome, callback := s.Set("/a", 3, y, 0);
  }

  /** Every object knows its position, so an object cannot be queued twice. */
  lemma OneQueued(q: DelPendingHeap, o: CacheObj)
    requires q.Positioned() && o in q.l && forall x <- q.l :: x == o
    ensures q.l == [o]
  {
    assert q.l[0] in q.l && q.l[|q.l| - 1] in q.l;
  }

  method Tombstoned(x: Object) returns (s: Store)
    ensures fresh(s) && fresh(s.delPending) && fresh(s.Footprint()) && s.Valid() && s.Synced()
    ensures s.objs.Keys == {"/a"} && s.objs["/a"].entry.deleted && OneTombstone(s, s.objs["/a"])
  {
    s := OneKey(x);
    var outcome, callback := s.Delete("/a", 2, 0);
    assert s.objs["/a"].entry == s.Contents().objs["/a"];
    OneQueued(s.delPending, s.objs["/a"]);
  }

  method OneKey(x: Object) returns (s: Store)
    ensures fresh(s) && fresh(s.delPending) && fresh(s.Footprint()) && s.Valid() && s.Synced()
    ensures s.objs.Keys == {"/a"} && s.Contents() == M.Set(EmptyDb, "/a", 1, x, 0).db
  {
    s := new Store();
    assert s.objs.Keys == s.Entries().Keys;
    var outcome, callback := s.Set("/a", 1, x, 0);
    assert s.objs.Keys == s.Entries().Keys == {"/a"};
  }

  method SweptTombstone(x: Object) returns (s: Store, ghost o: CacheObj)
    ensures fresh(s) && fresh(s.delPending) && fresh(s.Footprint()) && s.Valid()
    ensures s.objs == map[] && OneTombstone(s, o)
  {
    s := Tombstoned(x);
    o := s.objs["/a"];
    var swept := s.Sweep("/");
    assert s.objs.Keys == s.Entries().Keys == {};
  }

  lemma KeysBounded(popped: seq<CacheObj>)
    ensures |Keys(popped)| <= |popped|
  {
    if popped != [] {
      var n := |popped| - 1;
      KeysBounded(popped[..n]);
      assert Keys(popped) == Keys(popped[..n]) + {popped[n].key};
    }
  }

  lemma LiveWithout(db: Db, db': Db, popped: seq<CacheObj>)
    requires db'.objs == db.objs - Keys(popped)
    ensures Live(db') == Live(db) <==> forall o <- popped :: o.key !in Live(db)
    ensures forall o <- popped :: o.key !in db'.objs
  {
    LiveMap.RemovedKeepsLiveIff(db, db', Keys(popped));
    assert forall o <- popped :: o.key in Keys(popped);
  }

  lemma ReapedKeys(db: Db, db': Db, popped: seq<CacheObj>, now: int, past: int)
    requires db' == db.(objs := db.objs - Keys(popped)) && |popped| <= DelayedDelPurgeQuanta + 1
    requires forall o <- popped :: Expired(o.entry, now, past) && o.key in db.objs && db.objs[o.key] == o.entry
    ensures Reaped(db, db', now, past, DelayedDelPurgeQuanta)
  {
    KeysBounded(popped);
    assert db.objs.Keys - db'.objs.Keys <= Keys(popped);
    SubsetSize(db.objs.Keys - db'.objs.Keys, Keys(popped));
  }

  lemma SubsetSize(a: set<Key>, b: set<Key>)
    requires a <= b
    ensures |a| <= |b|
  {
    assert b == a + (b - a);
  }

  function Members(popped: seq<CacheObj>): set<CacheObj> {
    set o | o in popped
  }

  ghost predicate AllExpired(popped: seq<CacheObj>, now: int, past: int)
    reads popped`entry
  {
    forall o <- popped :: Expired(o.entry, now, past)
  }

  lemma OneMoreExpired(popped: seq<CacheObj>, o: CacheObj, now: int, past: int)
    requires AllExpired(popped, now, past) && Expired(o.entry, now, past)
    ensures AllExpired(popped + [o], now, past)
  {
  }

  ghost function DueOf(items: set<CacheObj>, now: int, past: int): set<CacheObj>
    reads items`entry
  {
    set o | o in items && now - o.entry.lastUpd >= past
  }

  lemma SameSize(a: set<CacheObj>, b: set<CacheObj>)
    requires a <= b && |b| <= |a|
    ensures a == b
  {
    assert b == a + (b - a) && a !! (b - a);
  }

  /** These objects, each once, have left the queue and their keys the map. */
  ghost predicate TakenOut(entries: map<Key, Entry>, items: set<CacheObj>,
                           entries': map<Key, Entry>, items': set<CacheObj>, popped: seq<CacheObj>)
  {
    && entries' == entries - Keys(popped)
    && Members(popped) <= items && items' == items - Members(popped) && |Members(popped)| == |popped|
  }

  lemma NoneTakenOut(entries: map<Key, Entry>, items: set<CacheObj>)
    ensures TakenOut(entries, items, entries, items, [])
  {
    assert Keys([]) == {} && Members([]) == {};
    assert entries - {} == entries;
  }

  lemma TakenOutMore(entries: map<Key, Entry>, items: set<CacheObj>,
                     entries': map<Key, Entry>, items': set<CacheObj>, popped: seq<CacheObj>, o: CacheObj)
    requires TakenOut(entries, items, entries', items', popped) && o in items'
    ensures TakenOut(entries, items, entries' - {o.key}, items' - {o}, popped + [o])
  {
    RemovedOneMore(entries, popped, o);
    assert Members(popped + [o]) == Members(popped) + {o};
  }

  function Keys(popped: seq<CacheObj>): set<Key> {
    set o | o in popped :: o.key
  }

  lemma RemovedOneMore(m: map<Key, Entry>, popped: seq<CacheObj>, o: CacheObj)
    ensures m - Keys(popped + [o]) == m - Keys(popped) - {o.key}
  {
    assert Keys(popped + [o]) == Keys(popped) + {o.key};
  }

  ghost predicate IsLeast(m: nat, s: set<nat>) {
    m in s && forall x | x in s :: m <= x
  }

  lemma LeastExists(s: set<nat>) returns (m: nat)
    requires s != {}
    ensures IsLeast(m, s)
  {
    m :| m in s;
    if x :| x in s && x < m {
      var m0, rest := m, set y | y in s && y < m;
      assert x in rest && rest <= s - {m0};
      m := LeastExists(rest);
      assert forall y | y in s :: y in rest || m0 <= y;
    }
  }

  method Sorted(s: set<nat>) returns (ss: seq<nat>)
    ensures (set x | x in ss) == s && Increasing(ss)
  {
    ss := [];
    var rest := s;
    while rest != {}
      invariant rest <= s && Increasing(ss)
      invariant forall x :: x in s <==> x in ss || x in rest
      invariant forall i, y | 0 <= i < |ss| && y in rest :: ss[i] < y
      decreases rest
    {
      ghost var least := LeastExists(rest);
      var m :| m in rest && forall x | x in rest :: m <= x;
      ss := ss + [m];
      rest := rest - {m};
    }
  }
}
