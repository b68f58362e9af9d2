/**
 Resynchronisation after the watch on the backend was lost: every entry under a prefix is
 marked, the backend's current objects are set again, and what still carries the mark is
 swept away.
 */
module Resync {
  import opened StoreModel

  lemma PrefixMeans(prefix: Key, key: Key)
    ensures HasPrefix(prefix, key) <==> exists more: Key :: key == prefix + more
  {
    if HasPrefix(prefix, key) { assert key == prefix + key[|prefix|..]; }
  }

  datatype Op = SetOp(key: Key, rev: nat, obj: Object, now: nat) | DeleteOp(key: Key, rev: nat, now: nat)

  function Apply(db: Db, op: Op): Db {
    match op
    case SetOp(key, rev, obj, now) => Set(db, key, rev, obj, now).db
    case DeleteOp(key, rev, now) => Delete(db, key, rev, now).db
  }

  function Run(db: Db, ops: seq<Op>): Db {
    if ops == [] then db else Apply(Run(db, ops[..|ops| - 1]), ops[|ops| - 1])
  }

  /** No set is below the revision already stored for its key. */
  predicate InOrder(db: Db, ops: seq<Op>) {
    ops == [] ||
    var before, op := Run(db, ops[..|ops| - 1]), ops[|ops| - 1];
    && InOrder(db, ops[..|ops| - 1])
    && (op.SetOp? && op.key in before.objs ==> before.objs[op.key].revision <= op.rev)
  }

  /** A plain revisioned map: the reference for what was set and not deleted since the mark. */
  datatype Versioned = Versioned(rev: nat, obj: Object)

  function ReferenceStep(m: map<Key, Versioned>, op: Op): map<Key, Versioned> {
    match op
    case SetOp(key, rev, obj, _) => m[key := Versioned(rev, obj)]
    case DeleteOp(key, rev, _) =>
      if key in m && (rev == 0 || rev > m[key].rev) then m - {key} else m
  }

  function Reference(ops: seq<Op>): map<Key, Versioned> {
    if ops == [] then map[] else ReferenceStep(Reference(ops[..|ops| - 1]), ops[|ops| - 1])
  }

  /** The entry of a key is live exactly if the reference has the key, with its value. */
  predicate AgreesAt(db: Db, key: Key, m: map<Key, Versioned>) {
    && (key in db.objs ==> !Backpedals(db.objs[key], db.lastSnapshot))
    && (key in m <==> IsLive(db, key))
    && (key in m ==> db.objs[key].revision == m[key].rev && db.objs[key].obj == m[key].obj)
  }

  lemma ApplyAgreesAt(db: Db, op: Op, key: Key, m: map<Key, Versioned>)
    requires AgreesAt(db, key, m)
    requires op.SetOp? && op.key in db.objs ==> db.objs[op.key].revision <= op.rev
    ensures AgreesAt(Apply(db, op), key, ReferenceStep(m, op))
  {
  }

  lemma {:induction false} RunAgreesAt(db: Db, prefix: Key, ops: seq<Op>, key: Key)
    requires HasPrefix(prefix, key) && InOrder(Mark(db, prefix), ops)
    requires key in db.objs ==> !Backpedals(db.objs[key], db.lastSnapshot)
    ensures AgreesAt(Run(Mark(db, prefix), ops), key, Reference(ops))
  {
    if ops != [] {
      RunAgreesAt(db, prefix, ops[..|ops| - 1], key);
      ApplyAgreesAt(Run(Mark(db, prefix), ops[..|ops| - 1]), ops[|ops| - 1], key, Reference(ops[..|ops| - 1]));
    }
  }

  predicate SameAt(db1: Db, db2: Db, key: Key) {
    && db1.lastSnapshot == db2.lastSnapshot
    && (key in db1.objs <==> key in db2.objs)
    && (key in db1.objs ==> db1.objs[key] == db2.objs[key])
  }

  lemma ApplySameAt(db1: Db, db2: Db, op: Op, key: Key)
    requires SameAt(db1, db2, key)
    ensures SameAt(Apply(db1, op), Apply(db2, op), key)
  {
    if op.key == key {
      if key in db1.objs { assert db1.objs[key] == db2.objs[key]; }
    }
  }

  /** Stores that hold the same for a key still do after the same operations. */
  lemma {:induction false} RunSameAt(db1: Db, db2: Db, ops: seq<Op>, key: Key)
    requires SameAt(db1, db2, key)
    ensures SameAt(Run(db1, ops), Run(db2, ops), key)
  {
    if ops != [] {
      RunSameAt(db1, db2, ops[..|ops| - 1], key);
      ApplySameAt(Run(db1, ops[..|ops| - 1]), Run(db2, ops[..|ops| - 1]), ops[|ops| - 1], key);
    }
  }

  /**
   Mark and sweep resynchronises. After the sweep the entries under the prefix are exactly
   the keys set since the mark and not deleted afterwards, all live and with their latest
   revision and value; entries outside the prefix are as if there had been no mark and sweep.
   */
  lemma ResyncExact(db: Db, prefix: Key, ops: seq<Op>, key: Key)
    requires InOrder(Mark(db, prefix), ops)
    requires key in db.objs ==> !Backpedals(db.objs[key], db.lastSnapshot)
    ensures var db' := Sweep(Run(Mark(db, prefix), ops), prefix);
            var m := Reference(ops);
            if HasPrefix(prefix, key) then
              && (key in db'.objs <==> key in m)
              && (key in m ==> var e := db'.objs[key]; !e.deleted && e.revision == m[key].rev && e.obj == m[key].obj)
            else
              && (key in db'.objs <==> key in Run(db, ops).objs)
              && (key in db'.objs ==> db'.objs[key] == Run(db, ops).objs[key])
  {
    if HasPrefix(prefix, key) {
      RunAgreesAt(db, prefix, ops, key);
    } else {
      RunSameAt(Mark(db, prefix), db, ops, key);
    }
  }
}
