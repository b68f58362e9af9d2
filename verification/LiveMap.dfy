/**
 The store seen as a plain revisioned map: what its users read is one map from keys to
 objects, changed by one key at a time and never by a purge.
 */
module LiveMap {
  import opened Wrappers
  import opened StoreModel

  /** A write touches the entry of its key and no other. */
  ghost predicate OthersSame(db: Db, db': Db, key: Key) {
    forall k | k != key :: (k in db'.objs <==> k in db.objs) && (k in db.objs ==> db'.objs[k] == db.objs[k])
  }

  /** Set is refused below the stored revision; otherwise the key reads as the new object. */
  lemma SetRefines(db: Db, key: Key, rev: nat, obj: Object, now: nat)
    requires key in db.objs ==> !Backpedals(db.objs[key], db.lastSnapshot)
    ensures var w := Set(db, key, rev, obj, now);
            if key in db.objs && rev < db.objs[key].revision then w == Write(db, RevBackpedals, None)
            else w.outcome == Done && Live(w.db) == Live(db)[key := obj] && w.db.objs[key].revision == rev
    ensures var w := Set(db, key, rev, obj, now);
            w.callback.Some? <==> (key in db.objs ==> rev > db.objs[key].revision)
    ensures var w := Set(db, key, rev, obj, now);
            w.callback.Some? ==> w.callback.value == Callback(key, obj, Get(db, key))
    ensures var w := Set(db, key, rev, obj, now);
            w.outcome == Done ==> w.db.objs[key].lastUpd == now && w.db.lastVer == rev && OthersSame(db, w.db, key)
  {
    var w := Set(db, key, rev, obj, now);
    if w.outcome == Done { assert Live(w.db) == Live(db)[key := obj]; }
  }

  /** Delete removes the key exactly if it is there and the revision, if any, is newer. */
  lemma DeleteRefines(db: Db, key: Key, rev: nat, now: nat)
    requires key in db.objs ==> !Backpedals(db.objs[key], db.lastSnapshot)
    ensures var w := Delete(db, key, rev, now);
            w.outcome == if key !in db.objs then NotFound
                         else if 0 < rev <= db.objs[key].revision then NotCorrectRev
                         else if db.objs[key].deleted then NotFound else Done
    ensures var w := Delete(db, key, rev, now);
            && Live(w.db) == (if w.outcome == Done then Live(db) - {key} else Live(db))
            && (w.callback.Some? <==> w.outcome == Done)
    ensures var w := Delete(db, key, rev, now);
            w.outcome == Done ==>
              var old_, new_ := db.objs[key], w.db.objs[key];
              && new_.lastUpd == now && new_.obj == old_.obj.(version := rev)
              && new_.revision == (if rev == 0 then old_.revision else rev)
              && w.callback.value == Callback(key, new_.obj, None)
    ensures var w := Delete(db, key, rev, now);
            && OthersSame(db, w.db, key)
            && w.db.lastVer == if key in db.objs && rev > db.objs[key].revision then rev else db.lastVer
  {
    var w := Delete(db, key, rev, now);
    assert Live(w.db) == if w.outcome == Done then Live(db) - {key} else Live(db);
  }

  /** A write that would save a copy for an older snapshot panics: it changes nothing, but its callback fires. */
  lemma PanicFires(db: Db, key: Key, rev: nat, obj: Object, now: nat)
    requires key in db.objs && Backpedals(db.objs[key], db.lastSnapshot)
    ensures var w := Set(db, key, rev, obj, now);
            w.db == db && (rev >= db.objs[key].revision ==>
              w.outcome == Panicked &&
              w.callback == if rev > db.objs[key].revision then Some(Callback(key, obj, Get(db, key))) else None)
    ensures var w := Delete(db, key, rev, now);
            rev == 0 || rev > db.objs[key].revision ==>
              && w.outcome == Panicked && w.callback == Some(Callback(key, db.objs[key].obj, None))
              && w.db == db.(lastVer := if rev == 0 then db.lastVer else rev)
  {
  }

  /** A tombstone that no snapshot holds back may go exactly when `past` has gone by since the delete. */
  lemma TombstoneAges(db: Db, key: Key, rev: nat, now: nat, at: int, past: int)
    requires IsLive(db, key) && (rev == 0 || rev > db.objs[key].revision)
    requires db.lastSnapshot == 0 && db.objs[key].snapshots == map[]
    ensures Expired(Delete(db, key, rev, now).db.objs[key], at, past) <==> at - now >= past
  {
  }

  lemma CollectedKeepsLive(db: Db, db': Db)
    requires Collected(db, db')
    ensures Live(db') == Live(db)
  {
    assert forall k <- db.objs :: EntryCollected(db, db.objs[k], db'.objs[k]);
  }

  lemma ReapedKeepsLive(db: Db, db': Db, now: int, past: int, quanta: nat)
    requires Reaped(db, db', now, past, quanta)
    ensures Live(db') == Live(db)
  {
    var gone := db.objs.Keys - db'.objs.Keys;
    assert db'.objs == db.objs - gone;
    RemovedKeepsLiveIff(db, db', gone);
  }

  /** A purge never changes what the store's users read. */
  lemma PurgedKeepsLive(db: Db, db': Db, now: int, past: int, quanta: nat)
    requires Purged(db, db', now, past, quanta)
    ensures Live(db') == Live(db)
  {
    var mid :| Collected(db, mid) && OldestFirst(db, mid) && Reaped(mid, db', now, past, quanta);
    CollectedKeepsLive(db, mid);
    ReapedKeepsLive(mid, db', now, past, quanta);
  }

  lemma RemovedKeepsLiveIff(db: Db, db': Db, gone: set<Key>)
    requires db'.objs == db.objs - gone
    ensures Live(db') == Live(db) <==> forall k <- gone :: !IsLive(db, k)
  {
    if k :| k in gone && IsLive(db, k) {
      assert k in Live(db) && k !in Live(db');
    } else {
      assert Live(db') == Live(db);
    }
  }
}
