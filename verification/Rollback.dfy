/**
 Rollback of the configuration to a snapshot: the store is walked for the difference
 between what every key holds and what it held at the snapshot, and the backend is
 brought back by one create, update or delete for each key that differs.
 */
module Rollback {
  import opened Wrappers
  import opened StoreModel
  import opened ObjectStore
  import opened SnapshotIsolation
  import opened Phantoms

  /** Kinds of objects that are not part of the saved configuration. */
  const DoNotSaveKinds := {
    "Alert", "AuditEvent", "Cluster", "Event", "FwLog", "Module", "Node", "Rollout", "RolloutAction",
    "SnapshotRestore", "TechSupportRequest", "Version"}

  predicate IsSavedKind(kind: string) {
    kind !in DoNotSaveKinds
  }

  /** The operational kinds, and only they, are not saved. */
  lemma NotSavedKinds(kind: string)
    ensures !IsSavedKind(kind) <==>
            || kind == "Alert" || kind == "AuditEvent" || kind == "Cluster" || kind == "Event" || kind == "FwLog"
            || kind == "Module" || kind == "Node" || kind == "Rollout" || kind == "RolloutAction"
            || kind == "SnapshotRestore" || kind == "TechSupportRequest" || kind == "Version"
  {
  }

  datatype PlanOp =
    | Create(key: Key, obj: Object)
    | Update(key: Key, obj: Object)
    | Remove(key: Key)

  /** What the walk plans for a key, from the entry it has now and the object it had then. */
  function PlanFor(key: Key, e: Entry, then_: Option<Object>): Option<PlanOp> {
    if !IsSavedKind(e.obj.kind) then None
    else if then_.Some? then Some(if e.deleted then Create(key, then_.value) else Update(key, then_.value))
    else if e.deleted then None
    else Some(Remove(key))
  }

  /** The object the walk is given for a key: none on any error, and none for a nil object. */
  function AtSnapshot(db: Db, rev: nat, key: Key): Option<Object> {
    match GetFromSnapshot(db, rev, key)
    case Read(obj) => obj
    case _ => None
  }

  function Planned(db: Db, rev: nat, key: Key): Option<PlanOp> {
    if key in db.objs && HasPrefix("/", key) then PlanFor(key, db.objs[key], AtSnapshot(db, rev, key)) else None
  }

  /** The backend the cache writes to: creates need an absent key, updates and deletes a present one. */
  class Backend {
    var kvs: map<Key, Object>
    var revision: nat

    method Apply(op: PlanOp) returns (ok: bool)
      modifies this
      ensures ok == (op.key in old(kvs) <==> !op.Create?)
      ensures !ok ==> kvs == old(kvs)
      ensures ok && op.Remove? ==> kvs == old(kvs) - {op.key}
      ensures ok && !op.Remove? ==> op.key in kvs && Bare(kvs[op.key]) == Bare(op.obj) && kvs == old(kvs)[op.key := kvs[op.key]]
    {
      ok := if op.Create? then op.key !in kvs else op.key in kvs;
      if ok {
        revision := revision + 1;
        match op
        case Create(key, obj) => kvs := kvs[key := obj.(version := revision)];
        case Update(key, obj) => kvs := kvs[key := obj.(version := revision)];
        case Remove(key) => kvs := kvs - {key};
      }
    }
  }

  /** The backend has exactly the keys that are live in the store. */
  ghost predicate Mirrors(kvs: map<Key, Object>, db: Db) {
    forall k :: k in kvs <==> IsLive(db, k)
  }

  /** Whether a key is one the rollback is responsible for. */
  predicate InScope(db: Db, key: Key) {
    key in db.objs && HasPrefix("/", key) && IsSavedKind(db.objs[key].obj.kind)
  }

  /** What a key must hold after the rollback: its object at the snapshot, or what it held before. */
  ghost predicate RolledBackAt(db: Db, rev: nat, before: map<Key, Object>, after: map<Key, Object>, key: Key) {
    if InScope(db, key) then
      match AtSnapshot(db, rev, key)
      case Some(o) => key in after && Bare(after[key]) == Bare(o)
      case None => key !in after
    else
      && (key in after <==> key in before)
      && (key in before ==> after[key] == before[key])
  }

  /** One operation for each key the walk plans something for, and none else. */
  ghost predicate IsPlan(plan: seq<PlanOp>, db: Db, rev: nat, keys: set<Key>) {
    && (forall i | 0 <= i < |plan| :: plan[i].key in keys && Planned(db, rev, plan[i].key) == Some(plan[i]))
    && (forall i, j | 0 <= i < j < |plan| :: plan[i].key != plan[j].key)
    && (forall k | k in keys && Planned(db, rev, k).Some? :: Planned(db, rev, k).value in plan)
  }

  method MakePlan(s: Store, rev: nat) returns (plan: seq<PlanOp>)
    ensures IsPlan(plan, s.Contents(), rev, s.objs.Keys)
  {
    plan := [];
    var todo := s.objs.Keys;
    while todo != {}
      invariant todo <= s.objs.Keys && IsPlan(plan, s.Contents(), rev, s.objs.Keys - todo)
      decreases todo
    {
      var k :| k in todo;
      if HasPrefix("/", k) {
        var read := s.GetFromSnapshot(rev, k);
        var op := PlanFor(k, s.objs[k].entry, if read.Read? then read.obj else None);
        if op.Some? {
          plan := plan + [op.value];
        }
      }
      todo := todo - {k};
    }
  }

  ghost predicate DoneAt(op: PlanOp, now: map<Key, Object>) {
    if op.Remove? then op.key !in now else op.key in now && Bare(now[op.key]) == Bare(op.obj)
  }

  ghost predicate Untouched(plan: seq<PlanOp>, n: nat, key: Key)
    requires n <= |plan|
  {
    forall i | 0 <= i < n :: plan[i].key != key
  }

  ghost predicate SameAt(before: map<Key, Object>, now: map<Key, Object>, key: Key) {
    (key in now <==> key in before) && (key in before ==> now[key] == before[key])
  }

  /** The first `n` operations of the plan are done and the keys of the others as they were. */
  ghost predicate Done(plan: seq<PlanOp>, n: nat, before: map<Key, Object>, now: map<Key, Object>)
    requires n <= |plan|
  {
    && (forall i | 0 <= i < n :: DoneAt(plan[i], now))
    && (forall k | Untouched(plan, n, k) :: SameAt(before, now, k))
  }

  ghost predicate Distinct(plan: seq<PlanOp>) {
    forall i, j | 0 <= i < j < |plan| :: plan[i].key != plan[j].key
  }

  /** Every operation of the plan is legal: creates for absent keys, the others for present ones. */
  ghost predicate Fits(plan: seq<PlanOp>, kvs: map<Key, Object>) {
    forall i | 0 <= i < |plan| :: plan[i].key in kvs <==> !plan[i].Create?
  }

  /** The next operation is still legal when its turn comes, and then done. */
  lemma DoneNext(plan: seq<PlanOp>, i: nat, before: map<Key, Object>, mid: map<Key, Object>, now: map<Key, Object>)
    requires Distinct(plan) && i < |plan| && Fits(plan, before) && Done(plan, i, before, mid)
    requires var op := plan[i];
             if op.Remove? then now == mid - {op.key}
             else op.key in now && Bare(now[op.key]) == Bare(op.obj) && now == mid[op.key := now[op.key]]
    ensures Done(plan, i + 1, before, now)
  {
    forall k | Untouched(plan, i + 1, k) ensures SameAt(before, now, k) {
      assert plan[i].key != k && Untouched(plan, i, k);
      assert SameAt(before, mid, k);
    }
    forall j | 0 <= j < i + 1 ensures DoneAt(plan[j], now) {
      if j < i { assert DoneAt(plan[j], mid) && plan[j].key != plan[i].key; }
    }
  }

  method ApplyPlan(plan: seq<PlanOp>, kvs: Backend) returns (rejected: nat)
    requires Distinct(plan)
    modifies kvs
    ensures Fits(plan, old(kvs.kvs)) ==> rejected == 0 && Done(plan, |plan|, old(kvs.kvs), kvs.kvs)
    ensures plan == [] ==> kvs.kvs == old(kvs.kvs)
  {
    ghost var before := kvs.kvs;
    rejected := 0;
    for i := 0 to |plan|
      invariant Fits(plan, before) ==> rejected == 0 && Done(plan, i, before, kvs.kvs)
      invariant i == 0 ==> kvs.kvs == before
    {
      ghost var mid := kvs.kvs;
      var ok := kvs.Apply(plan[i]);
      rejected := rejected + if ok then 0 else 1;
      if Fits(plan, before) {
        assert Untouched(plan, i, plan[i].key);
        assert SameAt(before, mid, plan[i].key) && ok;
        DoneNext(plan, i, before, mid, kvs.kvs);
      }
    }
  }

  lemma PlanReconciles(plan: seq<PlanOp>, db: Db, rev: nat, before: map<Key, Object>, after: map<Key, Object>, key: Key)
    requires IsPlan(plan, db, rev, db.objs.Keys) && Mirrors(before, db) && Done(plan, |plan|, before, after)
    ensures RolledBackAt(db, rev, before, after, key)
  {
    if i :| 0 <= i < |plan| && plan[i].key == key {
      assert Planned(db, rev, key) == Some(plan[i]);
    } else {
      assert Untouched(plan, |plan|, key);
      assert Planned(db, rev, key).Some? ==> Planned(db, rev, key).value in plan;
    }
  }

  /**
   Rollback. It fails, changing nothing, exactly if the snapshot is not live. Otherwise, on a
   backend that mirrors the store, no planned operation is rejected and every key of a saved
   kind ends up with its object at the snapshot, or without one if it had none.
   */
  method RollbackTo(s: Store, rev: nat, kvs: Backend) returns (ok: bool, rejected: nat)
    modifies kvs
    ensures ok == LiveSnapshot(s.Contents(), rev)
    ensures !ok ==> kvs.kvs == old(kvs.kvs)
    ensures ok && Mirrors(old(kvs.kvs), s.Contents()) ==>
              rejected == 0 && forall k :: RolledBackAt(s.Contents(), rev, old(kvs.kvs), kvs.kvs, k)
  {
    ok := rev in s.snapshots && !s.snapshots[rev].deleted;
    var plan := [];
    if ok {
      plan := MakePlan(s, rev);
    }
    rejected := ApplyPlan(plan, kvs);
    if ok && Mirrors(old(kvs.kvs), s.Contents()) {
      assert s.objs.Keys == s.Contents().objs.Keys;
      forall k ensures RolledBackAt(s.Contents(), rev, old(kvs.kvs), kvs.kvs, k) {
        PlanReconciles(plan, s.Contents(), rev, old(kvs.kvs), kvs.kvs, k);
      }
    }
  }

  /** Nothing outside the root, and nothing of the kinds that are not saved, is touched. */
  lemma NotRolledBack(db: Db, rev: nat, before: map<Key, Object>, after: map<Key, Object>, key: Key)
    requires RolledBackAt(db, rev, before, after, key)
    requires key == "" || key[0] != '/' || (key in db.objs && !IsSavedKind(db.objs[key].obj.kind))
    ensures SameAt(before, after, key)
  {
  }

  /**
   Rolling back to a snapshot that was taken in a run brings back, for every key of a saved
   kind, what it held when the snapshot was taken; a key that was not live then is there
   exactly if it was created after the snapshot and written again before the next one.
   */
  lemma RollbackRestores(run: seq<Db>, ops: seq<Op>, i: nat, j: nat,
                         before: map<Key, Object>, after: map<Key, Object>, key: Key)
    requires IsRun(run, ops) && TakenAndLive(run, ops, i, j) && run[i + 1].lastSnapshot > 0
    requires Mirrors(before, run[j]) && RolledBackAt(run[j], run[i + 1].lastSnapshot, before, after, key)
    requires HasPrefix("/", key)
    requires key in run[j].objs ==> IsSavedKind(run[j].objs[key].obj.kind)
    ensures IsLive(run[i], key) ==> key in after && Bare(after[key]) == Bare(run[i].objs[key].obj)
    ensures !IsLive(run[i], key) ==> (key in after <==> WrittenAgain(run, ops, i, j, run[i + 1].lastSnapshot, key))
  {
    var r := run[i + 1].lastSnapshot;
    if IsLive(run[i], key) {
      SnapshotIsolated(run, ops, i, j, key);
    } else {
      ShownIffWrittenAgain(run, ops, i, j, key);
      AbsentUnlessPhantom(run, ops, i, j, key);
      RunOk(run, ops, j);
      if key in run[j].objs { assert EntryOk(run[j].objs[key], run[j].lastVer, run[j].lastSnapshot); }
    }
  }
}
