/**
 What is known halfway through the collection of dead snapshots, as a statement about
 the contents before it started and the contents now.
 */
module SnapshotCollection {
  import opened StoreModel

  ghost predicate Increasing(ss: seq<nat>) {
    forall i, j | 0 <= i < j < |ss| :: ss[i] < ss[j]
  }

  /** What a collection has to do: the keys recorded with deleted snapshots. */
  ghost function DeadRecords(db: Db): set<(Key, nat)> {
    set s, k | s in db.snapshots && db.snapshots[s].deleted && k in db.snapshots[s].keys :: (k, s)
  }

  ghost function Work(db: Db): nat {
    |DeadRecords(db)|
  }

  /** No record but that of one key is gone, and what was freed is work done. */
  ghost predicate OneDone(db: Db, db': Db, snap: nat, key: Key, freed: bool) {
    && Work(db') + (if freed then 1 else 0) <= Work(db)
    && snap in db.snapshots && snap in db'.snapshots
    && db.snapshots[snap].keys.Keys - {key} <= db'.snapshots[snap].keys.Keys
  }

  lemma WorkDone(db: Db, snap: nat, key: Key, freed: bool)
    requires snap in db.snapshots && db.snapshots[snap].deleted && key in db.snapshots[snap].keys && key in db.objs
    ensures OneDone(db, WithoutCopy(db, snap, key), snap, key, freed)
  {
    assert (key, snap) in DeadRecords(db);
    assert DeadRecords(WithoutCopy(db, snap, key)) == DeadRecords(db) - {(key, snap)};
  }

  lemma WorkSame(db: Db, snap: nat)
    requires snap in db.snapshots
    ensures Work(Collection.Dropped(db, snap)) == Work(db)
  {
    assert DeadRecords(Collection.Dropped(db, snap)) == DeadRecords(db);
  }

  /** The contents at the start, the snapshots cleared so far and those not touched yet. */
  datatype Collection = Collection(db: Db, cleared: set<nat>, untouched: set<nat>) {

    ghost predicate Between(now: Db) {
      && Collected(db, now)
      && (forall s <- cleared :: s in db.snapshots && Cleared(db, now, s))
      && (forall t <- untouched :: t in db.snapshots && Intact(db, now, t))
    }

    /** In the middle of snapshot `snap`, with the keys in `todo` still to come. */
    ghost predicate Collecting(now: Db, snap: nat, todo: set<Key>) {
      && Between(now)
      && DeadSnapshot(db, snap) && snap !in cleared && snap !in untouched && snap in now.snapshots
      && (forall k <- db.snapshots[snap].keys :: k in todo || (k in now.objs ==> snap !in now.objs[k].snapshots))
      && (forall k <- now.snapshots[snap].keys :: k in todo || k !in now.objs)
    }

    lemma TogetherOne(now: Db, snap: nat, key: Key)
      requires TakenTogether(db, now) && snap in now.snapshots && key in now.objs
      ensures TakenTogether(db, WithoutCopy(now, snap, key))
    {
      var now' := WithoutCopy(now, snap, key);
      assert forall k, s: nat | k != key || s != snap :: HasCopy(now', k, s) == HasCopy(now, k, s);
      assert forall k, s: nat | k != key || s != snap :: RecordedAt(now', k, s) == RecordedAt(now, k, s);
    }

    lemma CollectedOne(now: Db, snap: nat, key: Key)
      requires Collected(db, now) && DeadSnapshot(db, snap) && snap in now.snapshots && key in now.objs
      ensures Collected(db, WithoutCopy(now, snap, key))
    {
      var now' := WithoutCopy(now, snap, key);
      TogetherOne(now, snap, key);
      forall k <- db.objs ensures EntryCollected(db, db.objs[k], now'.objs[k]) {
        assert EntryCollected(db, db.objs[k], now.objs[k]);
      }
    }

    lemma OthersKept(now: Db, snap: nat, key: Key, s: nat)
      requires snap in now.snapshots && key in now.objs && s != snap && s in db.snapshots
      ensures Cleared(db, now, s) ==> Cleared(db, WithoutCopy(now, snap, key), s)
      ensures Intact(db, now, s) ==> Intact(db, WithoutCopy(now, snap, key), s)
    {
    }

    lemma BetweenOne(now: Db, snap: nat, key: Key)
      requires Between(now) && DeadSnapshot(db, snap) && snap in now.snapshots && key in now.objs
      requires snap !in cleared && snap !in untouched
      ensures Between(WithoutCopy(now, snap, key))
    {
      CollectedOne(now, snap, key);
      forall s <- cleared + untouched { OthersKept(now, snap, key, s); }
    }

    lemma CollectOne(now: Db, snap: nat, todo: set<Key>, key: Key)
      requires Collecting(now, snap, todo) && key in now.objs
      ensures Collecting(WithoutCopy(now, snap, key), snap, todo - {key})
    {
      BetweenOne(now, snap, key);
    }

    lemma SkipOne(now: Db, snap: nat, todo: set<Key>, key: Key)
      requires Collecting(now, snap, todo) && key !in now.objs
      ensures Collecting(now, snap, todo - {key})
    {
    }

    ghost function Open(snap: nat): Collection {
      this.(untouched := untouched - {snap})
    }

    ghost function Clear(snap: nat): Collection {
      this.(cleared := cleared + {snap}, untouched := untouched - {snap})
    }

    lemma Begin(now: Db, snap: nat)
      requires Between(now) && DeadSnapshot(db, snap) && snap in untouched && snap !in cleared
      ensures Open(snap).Collecting(now, snap, now.snapshots[snap].keys.Keys)
    {
    }

    /** The table without a snapshot that has nothing recorded; no snapshot is left then, perhaps. */
    static function Dropped(now: Db, snap: nat): Db
      requires snap in now.snapshots
    {
      var table := if now.snapshots[snap].keys == map[] then now.snapshots - {snap} else now.snapshots;
      now.(snapshots := table, lastSnapshot := if table == map[] then 0 else now.lastSnapshot)
    }

    lemma TogetherDropped(now: Db, snap: nat)
      requires TakenTogether(db, now) && snap in now.snapshots
      ensures TakenTogether(db, Dropped(now, snap))
    {
      var now' := Dropped(now, snap);
      assert forall k, s: nat :: HasCopy(now', k, s) == HasCopy(now, k, s) && RecordedAt(now', k, s) == RecordedAt(now, k, s);
    }

    lemma CollectedDropped(now: Db, snap: nat)
      requires Collected(db, now) && DeadSnapshot(db, snap) && snap in now.snapshots
      ensures Collected(db, Dropped(now, snap))
    {
      TogetherDropped(now, snap);
    }

    lemma Finish(now: Db, snap: nat)
      requires Open(snap).Collecting(now, snap, {})
      ensures Clear(snap).Between(Dropped(now, snap))
    {
      var now' := Dropped(now, snap);
      CollectedDropped(now, snap);
      forall s <- cleared ensures Cleared(db, now', s) { assert Cleared(db, now, s); }
      forall t <- untouched - {snap} ensures Intact(db, now', t) { assert Intact(db, now, t); }
    }

    lemma Nothing()
      requires cleared == {}
      requires untouched == db.snapshots.Keys
      ensures Between(db)
    {
      assert forall k <- db.objs :: EntryCollected(db, db.objs[k], db.objs[k]);
    }

    /** The dead ones among the first `i` of the sorted snapshots are cleared, the others from there on untouched. */
    ghost predicate UpTo(ss: seq<nat>, i: nat)
      requires i <= |ss|
    {
      && Increasing(ss) && (set s | s in ss) == db.snapshots.Keys
      && (forall j | 0 <= j < i :: DeadSnapshot(db, ss[j]) ==> ss[j] in cleared)
      && (forall j | i <= j < |ss| :: ss[j] in untouched && ss[j] !in cleared)
    }

    ghost function Next(snap: nat): Collection {
      if DeadSnapshot(db, snap) then Clear(snap) else this
    }

    lemma Advance(ss: seq<nat>, i: nat)
      requires i < |ss| && UpTo(ss, i)
      ensures Next(ss[i]).UpTo(ss, i + 1)
    {
      assert forall j | i < j < |ss| :: ss[j] != ss[i];
    }

    lemma Stopped(now: Db, ss: seq<nat>, i: nat)
      requires i < |ss| && UpTo(ss, i) && Open(ss[i]).Between(now)
      ensures Collected(db, now) && OldestFirst(db, now)
    {
      forall s, t | DeadSnapshot(db, s) && DeadSnapshot(db, t) && s < t
        ensures Cleared(db, now, s) || Intact(db, now, t)
      {
        assert s in ss && t in ss;
        var a, b :| 0 <= a < |ss| && 0 <= b < |ss| && ss[a] == s && ss[b] == t;
        assert a < b;
        if i <= a { assert t in untouched - {ss[i]}; }
      }
    }

    lemma Completed(now: Db, ss: seq<nat>)
      requires UpTo(ss, |ss|) && Between(now)
      ensures Collected(db, now) && AllCleared(db, now) && OldestFirst(db, now)
    {
      forall s | DeadSnapshot(db, s) ensures Cleared(db, now, s) {
        assert s in ss;
      }
    }
  }
}
