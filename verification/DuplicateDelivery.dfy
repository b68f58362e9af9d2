/**
 The same history reaches the store twice: from the write path that produced it and from
 the watch on the backend. Each path delivers the operations on a key in order; nothing
 is said about how the two paths, or different keys, interleave. Snapshots are taken at
 any time between deliveries.
 */
module DuplicateDelivery {
  import opened Wrappers
  import opened StoreModel
  import SnapshotLimits

  datatype HistOp = Put(rev: nat, obj: Object) | Del(rev: nat)

  /** Revisions on a key grow from above 0, and only what exists is deleted. */
  ghost predicate ValidHistory(h: seq<HistOp>) {
    && (forall i | 0 <= i < |h| :: h[i].rev > 0)
    && (forall i, j | 0 <= i < j < |h| :: h[i].rev < h[j].rev)
    && (forall i | 0 <= i < |h| :: h[i].Del? ==> i > 0 && h[i - 1].Put?)
  }

  datatype Path = WritePath | WatchPath
  datatype Delivery = Delivery(key: Key, path: Path, now: nat)
  datatype Action = Arrive(delivery: Delivery) | TakeSnapshot
  datatype Event = Event(rev: nat, callback: Callback)

  datatype System = System(db: Db, written: map<Key, nat>, watched: map<Key, nat>, log: seq<Event>)

  const Initial := System(EmptyDb, map[], map[], [])

  function Count(m: map<Key, nat>, key: Key): nat {
    if key in m then m[key] else 0
  }

  function Next(s: System, d: Delivery): nat {
    if d.path == WritePath then Count(s.written, d.key) else Count(s.watched, d.key)
  }

  /** How far the further of the two paths has come on a key. */
  function Furthest(s: System, key: Key): nat {
    var a, b := Count(s.written, key), Count(s.watched, key);
    if a < b then b else a
  }

  function Apply(db: Db, key: Key, op: HistOp, now: nat): Write {
    match op
    case Put(rev, obj) => Set(db, key, rev, obj, now)
    case Del(rev) => Delete(db, key, rev, now)
  }

  type Histories = map<Key, seq<HistOp>>

  ghost predicate Deliverable(hs: Histories, s: System, d: Delivery) {
    d.key in hs && Next(s, d) < |hs[d.key]|
  }

  function Deliver(hs: Histories, s: System, d: Delivery): System
    requires Deliverable(hs, s, d)
  {
    var n := Next(s, d);
    var op := hs[d.key][n];
    var w := Apply(s.db, d.key, op, d.now);
    var log := if w.callback.Some? then s.log + [Event(op.rev, w.callback.value)] else s.log;
    if d.path == WritePath then System(w.db, s.written[d.key := n + 1], s.watched, log)
    else System(w.db, s.written, s.watched[d.key := n + 1], log)
  }

  /** No key has saved for a snapshot newer than the one that would be taken now. */
  ghost predicate SnapshotSafe(db: Db) {
    db.lastVer in db.snapshots || db.lastVer == 0 || forall k <- db.objs :: db.objs[k].lastSnapshot <= db.lastVer
  }

  /** Every delivery delivers something, and every snapshot is safe to take. */
  ghost predicate Possible(hs: Histories, s: System, a: Action) {
    match a
    case Arrive(d) => Deliverable(hs, s, d)
    case TakeSnapshot => SnapshotSafe(s.db)
  }

  ghost function Act(hs: Histories, s: System, a: Action): System
    requires Possible(hs, s, a)
  {
    match a
    case Arrive(d) => Deliver(hs, s, d)
    case TakeSnapshot => s.(db := StartSnapshot(s.db))
  }

  /** The system after a schedule of deliveries and snapshots, if each of them is possible. */
  ghost function After(hs: Histories, schedule: seq<Action>): Option<System> {
    if schedule == [] then Some(Initial)
    else
      var a := schedule[|schedule| - 1];
      match After(hs, schedule[..|schedule| - 1])
      case None => None
      case Some(s) => if Possible(hs, s, a) then Some(Act(hs, s, a)) else None
  }

  // ---- What one undisturbed delivery of a prefix of the history would leave ----

  function StoredObject(h: seq<HistOp>, n: nat): Object
    requires 0 < n <= |h| && (h[n - 1].Del? ==> n > 1 && h[n - 2].Put?)
  {
    match h[n - 1]
    case Put(_, obj) => obj
    case Del(rev) => h[n - 2].obj.(version := rev)
  }

  ghost predicate HoldsPrefix(db: Db, key: Key, h: seq<HistOp>, n: nat)
    requires ValidHistory(h) && n <= |h|
  {
    if n == 0 then key !in db.objs
    else
      && key in db.objs
      && db.objs[key].revision == h[n - 1].rev
      && db.objs[key].deleted == h[n - 1].Del?
      && db.objs[key].obj == StoredObject(h, n)
  }

  /** The events an undisturbed delivery of the first `n` operations fires, one each, in order. */
  ghost function Events(key: Key, h: seq<HistOp>, n: nat): seq<Event>
    requires ValidHistory(h) && n <= |h|
  {
    if n == 0 then []
    else
      var prev := if n > 1 && h[n - 2].Put? && h[n - 1].Put? then Some(h[n - 2].obj) else None;
      Events(key, h, n - 1) + [Event(h[n - 1].rev, Callback(key, StoredObject(h, n), prev))]
  }

  function OnKey(log: seq<Event>, key: Key): seq<Event> {
    if log == [] then []
    else
      var e := log[|log| - 1];
      OnKey(log[..|log| - 1], key) + if e.callback.key == key then [e] else []
  }

  lemma OnKeyAppend(log: seq<Event>, e: Event, key: Key)
    ensures OnKey(log + [e], key) == OnKey(log, key) + if e.callback.key == key then [e] else []
  {
    assert (log + [e])[..|log|] == log;
  }

  // ---- The invariant ----

  ghost predicate KeyOk(s: System, key: Key, h: seq<HistOp>)
    requires ValidHistory(h)
  {
    && Count(s.written, key) <= |h| && Count(s.watched, key) <= |h|
    && HoldsPrefix(s.db, key, h, Furthest(s, key))
    && OnKey(s.log, key) == Events(key, h, Furthest(s, key))
  }

  ghost predicate ValidHistories(hs: Histories) {
    forall k <- hs :: ValidHistory(hs[k])
  }

  /** No key has saved for a snapshot newer than the last one: no write panics. */
  ghost predicate NoneBackpedals(db: Db) {
    forall k <- db.objs :: !Backpedals(db.objs[k], db.lastSnapshot)
  }

  ghost predicate SystemOk(hs: Histories, s: System)
    requires ValidHistories(hs)
  {
    NoneBackpedals(s.db) && forall k <- hs :: KeyOk(s, k, hs[k])
  }

  lemma PutOnce(db: Db, key: Key, h: seq<HistOp>, n: nat, furthest: nat, now: nat)
    requires ValidHistory(h) && n <= furthest <= |h| && n < |h| && NoneBackpedals(db) && h[n].Put?
    requires HoldsPrefix(db, key, h, furthest)
    ensures var w := Apply(db, key, h[n], now);
            && w.outcome != Panicked
            && HoldsPrefix(w.db, key, h, if n == furthest then n + 1 else furthest)
            && (w.callback.Some? <==> n == furthest)
            && (n == furthest ==> Events(key, h, n + 1) == Events(key, h, n) + [Event(h[n].rev, w.callback.value)])
  {
    if n < furthest - 1 { assert h[n].rev < h[furthest - 1].rev; }
    if n == furthest > 0 { assert h[furthest - 1].rev < h[n].rev; }
  }

  lemma DelOnce(db: Db, key: Key, h: seq<HistOp>, n: nat, furthest: nat, now: nat)
    requires ValidHistory(h) && n <= furthest <= |h| && n < |h| && NoneBackpedals(db) && h[n].Del?
    requires HoldsPrefix(db, key, h, furthest)
    ensures var w := Apply(db, key, h[n], now);
            && w.outcome != Panicked
            && HoldsPrefix(w.db, key, h, if n == furthest then n + 1 else furthest)
            && (w.callback.Some? <==> n == furthest)
            && (n == furthest ==> Events(key, h, n + 1) == Events(key, h, n) + [Event(h[n].rev, w.callback.value)])
  {
    if n < furthest - 1 { assert h[n].rev < h[furthest - 1].rev; }
    if n == furthest > 0 { assert h[furthest - 1].rev < h[n].rev; }
  }

  /** The next operation on a key takes effect and fires; an earlier one changes nothing that counts. */
  lemma ApplyOnce(db: Db, key: Key, h: seq<HistOp>, n: nat, furthest: nat, now: nat)
    requires ValidHistory(h) && n <= furthest <= |h| && n < |h| && NoneBackpedals(db)
    requires HoldsPrefix(db, key, h, furthest)
    ensures var w := Apply(db, key, h[n], now);
            && w.outcome != Panicked
            && HoldsPrefix(w.db, key, h, if n == furthest then n + 1 else furthest)
            && (w.callback.Some? <==> n == furthest)
            && (n == furthest ==> Events(key, h, n + 1) == Events(key, h, n) + [Event(h[n].rev, w.callback.value)])
  {
    if h[n].Put? { PutOnce(db, key, h, n, furthest, now); } else { DelOnce(db, key, h, n, furthest, now); }
  }

  lemma ApplyOther(db: Db, key: Key, op: HistOp, now: nat, k: Key)
    requires k != key
    ensures var w := Apply(db, key, op, now);
            && (k in w.db.objs <==> k in db.objs)
            && (k in db.objs ==> w.db.objs[k] == db.objs[k])
            && (w.callback.Some? ==> w.callback.value.key == key)
  {
  }

  /** Saving a copy for the last snapshot lets no key run ahead of it. */
  lemma ApplyNoneBackpedals(db: Db, key: Key, op: HistOp, now: nat)
    requires NoneBackpedals(db)
    ensures NoneBackpedals(Apply(db, key, op, now).db)
  {
    var db' := Apply(db, key, op, now).db;
    assert db'.lastSnapshot == db.lastSnapshot;
    forall k <- db'.objs ensures !Backpedals(db'.objs[k], db'.lastSnapshot) {
      if k != key { ApplyOther(db, key, op, now, k); }
    }
  }

  lemma DeliverSame(hs: Histories, s: System, d: Delivery)
    requires Deliverable(hs, s, d) && ValidHistory(hs[d.key])
    requires NoneBackpedals(s.db) && KeyOk(s, d.key, hs[d.key])
    ensures KeyOk(Deliver(hs, s, d), d.key, hs[d.key])
  {
    var h, n := hs[d.key], Next(s, d);
    var w := Apply(s.db, d.key, h[n], d.now);
    ApplyOnce(s.db, d.key, h, n, Furthest(s, d.key), d.now);
    if w.callback.Some? { OnKeyAppend(s.log, Event(h[n].rev, w.callback.value), d.key); }
  }

  lemma DeliverOther(hs: Histories, s: System, d: Delivery, key: Key)
    requires Deliverable(hs, s, d) && key in hs && key != d.key && ValidHistory(hs[key]) && KeyOk(s, key, hs[key])
    ensures KeyOk(Deliver(hs, s, d), key, hs[key])
  {
    var op := hs[d.key][Next(s, d)];
    var w := Apply(s.db, d.key, op, d.now);
    ApplyOther(s.db, d.key, op, d.now, key);
    if w.callback.Some? { OnKeyAppend(s.log, Event(op.rev, w.callback.value), key); }
  }

  lemma DeliverOk(hs: Histories, s: System, d: Delivery)
    requires ValidHistories(hs) && SystemOk(hs, s) && Deliverable(hs, s, d)
    ensures SystemOk(hs, Deliver(hs, s, d))
  {
    ApplyNoneBackpedals(s.db, d.key, hs[d.key][Next(s, d)], d.now);
    DeliverSame(hs, s, d);
    forall k <- hs ensures KeyOk(Deliver(hs, s, d), k, hs[k]) {
      if k != d.key { DeliverOther(hs, s, d, k); }
    }
  }

  lemma SnapshotTakenOk(hs: Histories, s: System)
    requires ValidHistories(hs) && SystemOk(hs, s) && SnapshotSafe(s.db)
    ensures SystemOk(hs, s.(db := StartSnapshot(s.db)))
  {
    forall k <- hs ensures KeyOk(s.(db := StartSnapshot(s.db)), k, hs[k]) { assert KeyOk(s, k, hs[k]); }
  }

  lemma {:induction false} AlwaysOk(hs: Histories, schedule: seq<Action>)
    requires ValidHistories(hs) && After(hs, schedule).Some?
    ensures SystemOk(hs, After(hs, schedule).value)
  {
    if schedule != [] {
      AlwaysOk(hs, schedule[..|schedule| - 1]);
      var s := After(hs, schedule[..|schedule| - 1]).value;
      match schedule[|schedule| - 1]
      case Arrive(d) => DeliverOk(hs, s, d);
      case TakeSnapshot => SnapshotTakenOk(hs, s);
    }
  }

  /**
   Duplicate delivery converges. After any schedule, snapshots included, every key holds
   exactly what the operations up to the furthest delivered one leave, and each of those
   operations has fired exactly one event, in the order of the history. The next delivery,
   whichever it is, does not panic.
   */
  lemma DuplicateDeliveryConverges(hs: Histories, schedule: seq<Action>, key: Key)
    requires ValidHistories(hs) && After(hs, schedule).Some? && key in hs
    ensures var s := After(hs, schedule).value;
            && Furthest(s, key) <= |hs[key]|
            && HoldsPrefix(s.db, key, hs[key], Furthest(s, key))
            && OnKey(s.log, key) == Events(key, hs[key], Furthest(s, key))
    ensures var s := After(hs, schedule).value;
            forall rev, obj, now ::
              Set(s.db, key, rev, obj, now).outcome != Panicked && Delete(s.db, key, rev, now).outcome != Panicked
  {
    AlwaysOk(hs, schedule);
    assert KeyOk(After(hs, schedule).value, key, hs[key]);
  }

  /**
   Where a schedule ends in a crash. After any schedule, taking one more snapshot makes some
   later write panic exactly if a replay has carried the last revision back to one that has
   no snapshot, is not 0, and is older than a snapshot some key has saved for.
   */
  lemma SnapshotCrashesIff(hs: Histories, schedule: seq<Action>)
    requires ValidHistories(hs) && After(hs, schedule).Some?
    ensures var db := After(hs, schedule).value.db;
            && NoneBackpedals(db)
            && (WriteCanPanic(StartSnapshot(db)) <==>
                db.lastVer !in db.snapshots && db.lastVer != 0 && exists k <- db.objs :: db.objs[k].lastSnapshot > db.lastVer)
  {
    AlwaysOk(hs, schedule);
    StartCrashesIff(After(hs, schedule).value.db);
  }

  /**
   What a snapshot misses. After any schedule, a new snapshot shows a key whose furthest
   operation is a put, and for which nothing was saved yet, exactly if that put is not above
   the last version, which a replay of another key may have carried back.
   */
  lemma SnapshotShowsIff(hs: Histories, schedule: seq<Action>, key: Key)
    requires ValidHistories(hs) && After(hs, schedule).Some? && key in hs
    requires var s := After(hs, schedule).value; var n := Furthest(s, key);
             && 0 < n <= |hs[key]| && hs[key][n - 1].Put? && s.db.lastVer !in s.db.snapshots
             && key in s.db.objs && s.db.objs[key].snapshots == map[] && s.db.objs[key].snapshotList == []
    ensures var s := After(hs, schedule).value;
            var put := hs[key][Furthest(s, key) - 1];
            GetFromSnapshot(StartSnapshot(s.db), s.db.lastVer, key) ==
              if put.rev <= s.db.lastVer then Read(Some(put.obj)) else ReadNoSnapshot
  {
    DuplicateDeliveryConverges(hs, schedule, key);
    SnapshotLimits.StartShowsIff(After(hs, schedule).value.db, key);
  }

  ghost predicate WriteCanPanic(db: Db) {
    exists key, rev, obj, now :: Set(db, key, rev, obj, now).outcome == Panicked
  }

  /** The same for any store in which no write panics yet. */
  lemma StartCrashesIff(db: Db)
    requires NoneBackpedals(db)
    ensures WriteCanPanic(StartSnapshot(db)) <==>
            db.lastVer !in db.snapshots && db.lastVer != 0 && exists k <- db.objs :: db.objs[k].lastSnapshot > db.lastVer
  {
    var db' := StartSnapshot(db);
    if !SnapshotSafe(db) {
      var k :| k in db.objs && db.objs[k].lastSnapshot > db.lastVer;
      var e := db.objs[k];
      assert Set(db', k, e.revision, e.obj, 0).outcome == Panicked;
    }
  }

  /** The events of a key have one entry for each operation, at strictly increasing revisions. */
  lemma {:induction false} EventsAt(key: Key, h: seq<HistOp>, n: nat, i: nat)
    requires ValidHistory(h) && i < n <= |h|
    ensures |Events(key, h, n)| == n
    ensures Events(key, h, n)[i].rev == h[i].rev
    ensures i > 0 ==> |Events(key, h, n)| > i && Events(key, h, n)[i - 1].rev < Events(key, h, n)[i].rev
  {
    if n > 1 { EventsAt(key, h, n - 1, if i < n - 1 then i else n - 2); }
  }

  /**
   A replay can carry the store's last revision back. A snapshot taken then is older than
   one already saved for, and the next write to a key that saved for the newer one crashes.
   */
  lemma ReplayThenSnapshotCrashes(x: Object)
    ensures var db1 := Set(Set(EmptyDb, "/c", 1, x, 0).db, "/a", 2, x, 0).db;
            var db2 := Set(StartSnapshot(db1), "/a", 3, x, 0).db;
            var db3 := StartSnapshot(Set(db2, "/c", 1, x, 0).db);
            && db3.lastVer == 1 && Set(db3, "/a", 4, x, 0).outcome == Panicked
  {
    assert "/a"[1] != "/c"[1];
  }

  /**
   After a delete that succeeded, a late replay of the put before it makes the key live again
   exactly if the delete had revision 0, which leaves the old revision in place.
   */
  lemma ReplayRevivesIff(db: Db, key: Key, rev: nat, t: nat, now: nat)
    requires IsLive(db, key) && Delete(db, key, rev, t).outcome == Done
    ensures var e := db.objs[key];
            var deleted := Delete(db, key, rev, t).db;
            && !IsLive(deleted, key)
            && (IsLive(Set(deleted, key, e.revision, e.obj, now).db, key) <==> rev == 0)
  {
  }

  lemma ZeroRevisionDeleteUndone(x: Object)
    ensures var db1 := Set(EmptyDb, "/a", 1, x, 0).db;
            var db2 := Delete(db1, "/a", 0, 0).db;
            && Delete(db1, "/a", 0, 0).outcome == Done && !IsLive(db2, "/a")
            && Get(Set(db2, "/a", 1, x, 0).db, "/a") == Some(x)
  {
    ReplayRevivesIff(Set(EmptyDb, "/a", 1, x, 0).db, "/a", 0, 0, 0);
  }
}
