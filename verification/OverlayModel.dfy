/**
 A staging buffer over the cache, as values: the staged operations, the view that reads
 of the buffer show, and the transaction a commit sends to the backend.
 */
module OverlayModel {
  import opened Wrappers
  import opened StoreModel

  datatype Oper = CreateOper | UpdateOper | DeleteOper

  type UpdateFn = Object -> Option<Object>

  /** A staged operation. `resVer` overrides the version a consistent update is checked against. */
  datatype OverlayObj = OverlayObj(
    oper: Oper,
    val: Option<Object>,
    primary: bool,
    touch: bool,
    updateFn: Option<UpdateFn>,
    resVer: Option<nat>)

  type Objects = map<Key, Object>
  type Buffer = map<Key, OverlayObj>

  // ---- Reads ----

  /** The view: the base with what is staged over it, as content. A delete hides its key, a touch shows what is below. */
  function View(base: Objects, ov: Buffer): Objects {
    map k | k in base.Keys + ov.Keys && (k in ov ==> ov[k].oper != DeleteOper && (k in base || ov[k].val.Some?)) ::
      Bare(if k in ov && ov[k].val.Some? then ov[k].val.value else base[k])
  }

  /** Staging an object shows it, staging a delete hides what was there. */
  lemma StagedView(base: Objects, ov: Buffer, key: Key, e: OverlayObj)
    requires e.oper != DeleteOper ==> e.val.Some?
    ensures View(base, ov[key := e]) ==
            if e.oper == DeleteOper then View(base, ov) - {key} else View(base, ov)[key := Bare(e.val.value)]
  {
    var a := View(base, ov[key := e]);
    var b := if e.oper == DeleteOper then View(base, ov) - {key} else View(base, ov)[key := Bare(e.val.value)];
    assert forall k :: (k in a <==> k in b) && (k in a ==> a[k] == b[k]);
  }

  lemma UnstagedView(base: Objects, ov: Buffer, key: Key)
    requires key !in base
    ensures View(base, ov - {key}) == View(base, ov) - {key}
  {
    var a, b := View(base, ov - {key}), View(base, ov) - {key};
    assert forall k :: (k in a <==> k in b) && (k in a ==> a[k] == b[k]);
  }

  function Bares(m: Objects): Objects {
    map k | k in m :: Bare(m[k])
  }

  // ---- Transactions ----

  datatype TxnOp =
    | TxnCreate(key: Key, obj: Object)
    | TxnUpdate(key: Key, obj: Object)
    | TxnTouch(key: Key)
    | TxnDelete(key: Key)
    | TxnUnstage(key: Key)

  /** Creates need an absent key, everything else a present one. */
  predicate LegalOp(kvs: Objects, persisted: set<Key>, op: TxnOp) {
    match op
    case TxnCreate(key, _) => key !in kvs
    case TxnUnstage(key) => key in persisted
    case _ => op.key in kvs
  }

  predicate Legal(kvs: Objects, persisted: set<Key>, ops: seq<TxnOp>) {
    forall op <- ops :: LegalOp(kvs, persisted, op)
  }

  function ApplyOp(m: Objects, op: TxnOp, rev: nat): Objects {
    match op
    case TxnCreate(key, obj) => m[key := obj.(version := rev)]
    case TxnUpdate(key, obj) => m[key := obj.(version := rev)]
    case TxnTouch(key) => if key in m then m[key := m[key].(version := rev)] else m
    case TxnDelete(key) => m - {key}
    case TxnUnstage(_) => m
  }

  function ApplyOps(m: Objects, ops: seq<TxnOp>, rev: nat): Objects {
    if ops == [] then m else ApplyOp(ApplyOps(m, ops[..|ops| - 1], rev), ops[|ops| - 1], rev)
  }

  function Unstaged(ops: seq<TxnOp>): set<Key> {
    set op | op in ops && op.TxnUnstage? :: op.key
  }

  // ---- Comparators ----

  datatype CmpOperator = Equal | NotEqual | Less | Greater

  /** A condition on the version of a key; a key that is absent has version 0. */
  datatype Cmp = Cmp(key: Key, operator: CmpOperator, version: nat)

  predicate Holds(kvs: Objects, c: Cmp) {
    var v := if c.key in kvs then kvs[c.key].version else 0;
    match c.operator
    case Equal => v == c.version
    case NotEqual => v != c.version
    case Less => v < c.version
    case Greater => v > c.version
  }

  /** That an object exists need not be checked when the buffer itself creates it. */
  predicate Redundant(ov: Buffer, c: Cmp) {
    c.key in ov && ov[c.key].oper == CreateOper && c.operator == Greater && c.version == 0
  }

  // ---- Consistent updates ----

  /** An update to be computed from the object found when the buffer is committed. */
  datatype Item = Item(key: Key, fn: UpdateFn, resVer: Option<nat>)

  /** What a consistent update writes over the staged operation just before a commit. */
  function PreCommitUpdate(ov: Buffer, key: Key, obj: Object): Buffer {
    if key in ov then ov[key := ov[key].(oper := UpdateOper, val := Some(obj), touch := false)]
    else ov[key := OverlayObj(UpdateOper, Some(obj), false, false, None, None)]
  }

  datatype Prepared = Prepared(ov: Buffer, comps: seq<Cmp>, ok: bool)

  /** One item: read, transform, stage, and compare the version that was read. */
  function PrepareItem(p: Prepared, item: Item, live: Objects): Prepared {
    if item.key !in live || item.fn(live[item.key]).None? then p.(ok := false)
    else
      var x := live[item.key];
      var v := if item.resVer.Some? then item.resVer.value else x.version;
      Prepared(PreCommitUpdate(p.ov, item.key, item.fn(x).value), p.comps + [Cmp(item.key, Equal, v)], p.ok)
  }

  function Prepare(ov: Buffer, items: seq<Item>, live: Objects): Prepared {
    if items == [] then Prepared(ov, [], true)
    else PrepareItem(Prepare(ov, items[..|items| - 1], live), items[|items| - 1], live)
  }

  /** Whether the backend accepts a transaction guarded by comparators. */
  predicate Accepted(kvs: Objects, ov: Buffer, comps: seq<Cmp>) {
    forall c <- comps :: Redundant(ov, c) || Holds(kvs, c)
  }

  /** Of a version below, at and above its own a key meets exactly one; one that is absent is at 0. */
  lemma ComparedOnce(kvs: Objects, key: Key, v: nat)
    ensures Holds(kvs, Cmp(key, Equal, v)) <==> if key in kvs then kvs[key].version == v else v == 0
    ensures Holds(kvs, Cmp(key, Greater, v)) <==> key in kvs && kvs[key].version > v
    ensures Holds(kvs, Cmp(key, Less, v)) <==> !Holds(kvs, Cmp(key, Equal, v)) && !Holds(kvs, Cmp(key, Greater, v))
    ensures Holds(kvs, Cmp(key, NotEqual, v)) <==> !Holds(kvs, Cmp(key, Equal, v))
  {
  }

  /** That an object exists is met by one in the backend and by one the buffer creates; nothing else is waived. */
  lemma ExistenceAccepted(kvs: Objects, ov: Buffer, c: Cmp)
    ensures c.operator == Greater && c.version == 0 ==>
              (Accepted(kvs, ov, [c]) <==>
                 (c.key in kvs && kvs[c.key].version > 0) || (c.key in ov && ov[c.key].oper == CreateOper))
    ensures !(c.operator == Greater && c.version == 0) ==> (Accepted(kvs, ov, [c]) <==> Holds(kvs, c))
  {
    assert c in [c];
  }

  // ---- What a commit leaves ----

  /** The whole buffer applied at one revision. */
  function CommitMap(m: Objects, ov: Buffer, rev: nat): Objects {
    map k | k in m.Keys + ov.Keys && (k in ov ==> ov[k].oper != DeleteOper && (k in m || ov[k].val.Some?)) ::
      if k !in ov then m[k]
      else if ov[k].val.Some? && !ov[k].touch then ov[k].val.value.(version := rev)
      else if k in m then m[k].(version := rev)
      else ov[k].val.value
  }

  /** Every staged operation but a delete or a touch carries an object. */
  predicate Carries(e: OverlayObj) {
    && (e.oper != DeleteOper && !e.touch ==> e.val.Some?)
    && (e.touch ==> e.oper == UpdateOper && e.val.None?)
  }

  predicate Complete(ov: Buffer) {
    forall k <- ov :: Carries(ov[k])
  }

  /** Creates are staged for keys the base lacks, updates and deletes for keys it has. */
  predicate FitsAt(base: Objects, key: Key, e: OverlayObj) {
    e.oper == CreateOper <==> key !in base
  }

  predicate Fits(base: Objects, ov: Buffer) {
    forall k <- ov :: FitsAt(base, k, ov[k])
  }

  /** What a commit of a buffer that fits its base leaves is what the buffer showed. */
  lemma CommitRealisesView(base: Objects, ov: Buffer, rev: nat)
    requires Complete(ov) && Fits(base, ov)
    ensures Bares(CommitMap(base, ov, rev)) == View(base, ov)
  {
    var a, b := Bares(CommitMap(base, ov, rev)), View(base, ov);
    forall k ensures (k in a <==> k in b) && (k in a ==> a[k] == b[k]) {
      if k in ov { assert Carries(ov[k]) && FitsAt(base, k, ov[k]); }
    }
  }

  // ---- A commit under way ----

  function OpFor(key: Key, e: OverlayObj): TxnOp
    requires Carries(e)
  {
    if e.oper == DeleteOper then TxnDelete(key)
    else if e.touch then TxnTouch(key)
    else if e.oper == CreateOper then TxnCreate(key, e.val.value)
    else TxnUpdate(key, e.val.value)
  }

  /** A primary operation also removes what is persisted of it; a touch does not. */
  predicate Unstages(e: OverlayObj, ephemeral: bool) {
    e.primary && !ephemeral && !e.touch
  }

  function OpsFor(key: Key, e: OverlayObj, ephemeral: bool): seq<TxnOp>
    requires Carries(e)
  {
    [OpFor(key, e)] + if Unstages(e, ephemeral) then [TxnUnstage(key)] else []
  }

  /** A touch is sent alone; any other primary operation of a buffer that is not ephemeral comes with the removal of its copy. */
  lemma OpsSent(key: Key, e: OverlayObj, ephemeral: bool)
    requires Carries(e)
    ensures var ops := OpsFor(key, e, ephemeral);
            && (e.touch ==> ops == [TxnTouch(key)])
            && (!e.touch && e.primary && !ephemeral ==> |ops| == 2 && ops[1] == TxnUnstage(key))
            && (!e.primary || ephemeral ==> |ops| == 1)
  {
  }

  ghost predicate SameAt(a: Objects, b: Objects, key: Key) {
    (key in a <==> key in b) && (key in a ==> a[key] == b[key])
  }

  /** The keys in `done` hold what the view shows for them, the others what the base holds. */
  ghost predicate Progress(base: Objects, ov: Buffer, done: set<Key>, now: Objects) {
    forall k :: if k in done then SameAt(Bares(now), View(base, ov), k) else SameAt(now, base, k)
  }

  lemma {:induction false} ApplyMore(m: Objects, ops: seq<TxnOp>, more: seq<TxnOp>, rev: nat)
    ensures ApplyOps(m, ops + more, rev) == ApplyOps(ApplyOps(m, ops, rev), more, rev)
  {
    if more == [] {
      assert ops + more == ops;
    } else {
      var n := |more| - 1;
      assert (ops + more)[..|ops| + n] == ops + more[..n] && (ops + more)[|ops| + n] == more[n];
      ApplyMore(m, ops, more[..n], rev);
    }
  }

  lemma ApplyEntry(m: Objects, key: Key, e: OverlayObj, ephemeral: bool, rev: nat)
    requires Carries(e)
    ensures ApplyOps(m, OpsFor(key, e, ephemeral), rev) == ApplyOp(m, OpFor(key, e), rev)
  {
    var op := OpFor(key, e);
    assert ApplyOps(m, [], rev) == m && [op][..0] == [];
    assert ApplyOps(m, [op], rev) == ApplyOp(m, op, rev);
    assert [op, TxnUnstage(key)][..1] == [op];
  }

  lemma ProgressOne(base: Objects, ov: Buffer, done: set<Key>, now: Objects, key: Key, rev: nat)
    requires Progress(base, ov, done, now) && key in ov && key !in done && Carries(ov[key])
    ensures Progress(base, ov, done + {key}, ApplyOp(now, OpFor(key, ov[key]), rev))
  {
    var now' := ApplyOp(now, OpFor(key, ov[key]), rev);
    forall k ensures if k in done + {key} then SameAt(Bares(now'), View(base, ov), k) else SameAt(now', base, k) {
      if k in done { assert SameAt(Bares(now), View(base, ov), k); } else { assert SameAt(now, base, k); }
    }
  }

  lemma ProgressDone(base: Objects, ov: Buffer, now: Objects)
    requires Progress(base, ov, ov.Keys, now)
    ensures Bares(now) == View(base, ov)
  {
    forall k ensures SameAt(Bares(now), View(base, ov), k) {
      if k !in ov { assert SameAt(now, base, k); }
    }
  }

  // ---- The transaction of a whole buffer ----

  /** The operations of the keys, one key after the other. */
  function OpsOf(ov: Buffer, keys: seq<Key>, ephemeral: bool): seq<TxnOp>
    requires Complete(ov) && forall k <- keys :: k in ov
  {
    if keys == [] then []
    else
      var n := |keys| - 1;
      assert keys[n] in keys;
      OpsOf(ov, keys[..n], ephemeral) + OpsFor(keys[n], ov[keys[n]], ephemeral)
  }

  /** These keys, each once, in some order. */
  ghost predicate EachOnce(keys: seq<Key>, all: set<Key>) {
    && (forall k :: k in keys <==> k in all)
    && forall i, j | 0 <= i < j < |keys| :: keys[i] != keys[j]
  }

  lemma EachOnceMore(keys: seq<Key>, all: set<Key>, key: Key)
    requires EachOnce(keys, all) && key !in all
    ensures EachOnce(keys + [key], all + {key})
  {
  }

  lemma OpsOneMore(ov: Buffer, keys: seq<Key>, key: Key, ephemeral: bool)
    requires Complete(ov) && (forall k <- keys :: k in ov) && key in ov
    ensures OpsOf(ov, keys + [key], ephemeral) == OpsOf(ov, keys, ephemeral) + OpsFor(key, ov[key], ephemeral)
  {
    assert (keys + [key])[..|keys|] == keys;
  }

  lemma EntryCommitted(m: Objects, now: Objects, ov: Buffer, last: Key, ephemeral: bool, rev: nat, key: Key)
    requires last in ov && Carries(ov[last]) && (key == last ==> SameAt(now, m, key))
    ensures SameAt(ApplyOps(now, OpsFor(last, ov[last], ephemeral), rev), if key == last then CommitMap(m, ov, rev) else now, key)
  {
    ApplyEntry(now, last, ov[last], ephemeral, rev);
  }

  lemma {:induction false} OpsCommitted(m: Objects, ov: Buffer, keys: seq<Key>, ephemeral: bool, rev: nat, key: Key)
    requires Complete(ov) && (forall k <- keys :: k in ov) && (forall i, j | 0 <= i < j < |keys| :: keys[i] != keys[j])
    ensures SameAt(ApplyOps(m, OpsOf(ov, keys, ephemeral), rev), if key in keys then CommitMap(m, ov, rev) else m, key)
  {
    if keys != [] {
      var n := |keys| - 1;
      var last, done := keys[n], OpsOf(ov, keys[..n], ephemeral);
      assert last in keys && last !in keys[..n] && Carries(ov[last]);
      assert keys == keys[..n] + [last];
      OpsCommitted(m, ov, keys[..n], ephemeral, rev, key);
      var now := ApplyOps(m, done, rev);
      ApplyMore(m, done, OpsFor(last, ov[last], ephemeral), rev);
      EntryCommitted(m, now, ov, last, ephemeral, rev, key);
    }
  }

  /** The backend takes every operation: creates of absent keys, all else of present ones, and persisted copies to remove. */
  predicate Committable(ov: Buffer, kvs: Objects, persisted: set<Key>, ephemeral: bool) {
    Fits(kvs, ov) && forall k <- ov :: Unstages(ov[k], ephemeral) ==> k in persisted
  }

  lemma LegalEntry(kvs: Objects, persisted: set<Key>, key: Key, e: OverlayObj, ephemeral: bool)
    requires Carries(e)
    ensures Legal(kvs, persisted, OpsFor(key, e, ephemeral)) <==>
            FitsAt(kvs, key, e) && (Unstages(e, ephemeral) ==> key in persisted)
  {
    var op := OpFor(key, e);
    assert LegalOp(kvs, persisted, op) <==> FitsAt(kvs, key, e);
    if Unstages(e, ephemeral) {
      assert OpsFor(key, e, ephemeral) == [op, TxnUnstage(key)];
      assert op in [op, TxnUnstage(key)] && TxnUnstage(key) in [op, TxnUnstage(key)];
    } else {
      assert OpsFor(key, e, ephemeral) == [op] && op in [op];
    }
  }

  lemma LegalBoth(kvs: Objects, persisted: set<Key>, a: seq<TxnOp>, b: seq<TxnOp>)
    ensures Legal(kvs, persisted, a + b) <==> Legal(kvs, persisted, a) && Legal(kvs, persisted, b)
  {
    if Legal(kvs, persisted, a + b) {
      assert forall op <- a :: op in a + b;
      assert forall op <- b :: op in a + b;
    }
  }

  lemma {:induction false} LegalOps(ov: Buffer, keys: seq<Key>, kvs: Objects, persisted: set<Key>, ephemeral: bool)
    requires Complete(ov) && forall k <- keys :: k in ov
    ensures Legal(kvs, persisted, OpsOf(ov, keys, ephemeral)) <==>
            forall k <- keys :: FitsAt(kvs, k, ov[k]) && (Unstages(ov[k], ephemeral) ==> k in persisted)
  {
    if keys != [] {
      var n := |keys| - 1;
      var last := keys[n];
      assert last in keys && keys == keys[..n] + [last];
      LegalOps(ov, keys[..n], kvs, persisted, ephemeral);
      LegalEntry(kvs, persisted, last, ov[last], ephemeral);
      LegalBoth(kvs, persisted, OpsOf(ov, keys[..n], ephemeral), OpsFor(last, ov[last], ephemeral));
    }
  }

  // ---- The size of a transaction ----

  /** An entry that counts towards the limit when it is added; a touch is added without a look at the limit. */
  predicate Counts(op: TxnOp) {
    op.TxnCreate? || op.TxnUpdate? || op.TxnDelete?
  }

  function Entries(ops: seq<TxnOp>): nat {
    if ops == [] then 0 else Entries(ops[..|ops| - 1]) + if Counts(ops[|ops| - 1]) then 1 else 0
  }

  /** A transaction always has room for one entry. */
  function Limit(maxEntries: nat): nat {
    if maxEntries == 0 then 1 else maxEntries
  }

  /** The staged operations that are not touches. */
  function Plain(ov: Buffer): set<Key> {
    set k | k in ov && !ov[k].touch
  }

  lemma EntriesMore(ops: seq<TxnOp>, key: Key, e: OverlayObj, ephemeral: bool)
    requires Carries(e)
    ensures Entries(ops + OpsFor(key, e, ephemeral)) == Entries(ops) + if e.touch then 0 else 1
  {
    var op := OpFor(key, e);
    assert (ops + [op])[..|ops|] == ops;
    if Unstages(e, ephemeral) {
      assert ops + OpsFor(key, e, ephemeral) == ops + [op] + [TxnUnstage(key)];
      assert (ops + [op] + [TxnUnstage(key)])[..|ops| + 1] == ops + [op];
    } else {
      assert ops + OpsFor(key, e, ephemeral) == ops + [op];
    }
  }

  lemma PlainMore(ov: Buffer, todo: set<Key>, key: Key)
    requires key in todo && todo <= ov.Keys
    ensures |Plain(ov) - (todo - {key})| == |Plain(ov) - todo| + if ov[key].touch then 0 else 1
  {
    assert Plain(ov) - (todo - {key}) == Plain(ov) - todo + if ov[key].touch then {} else {key};
  }

  /** The operations of a buffer, in any order of its keys, have the effect of the buffer as a whole. */
  lemma WholeBufferCommitted(m: Objects, ov: Buffer, keys: seq<Key>, ephemeral: bool, rev: nat)
    requires Complete(ov) && EachOnce(keys, ov.Keys)
    ensures ApplyOps(m, OpsOf(ov, keys, ephemeral), rev) == CommitMap(m, ov, rev)
  {
    var a, b := ApplyOps(m, OpsOf(ov, keys, ephemeral), rev), CommitMap(m, ov, rev);
    forall k ensures (k in a <==> k in b) && (k in a ==> a[k] == b[k]) {
      OpsCommitted(m, ov, keys, ephemeral, rev, k);
      if k !in keys { assert k !in ov; }
    }
  }

  /** The operations of the keys in `done`, gathered in some order. */
  ghost predicate Gathered(ov: Buffer, keys: seq<Key>, done: set<Key>, ops: seq<TxnOp>, ephemeral: bool) {
    Complete(ov) && done <= ov.Keys && EachOnce(keys, done) && ops == OpsOf(ov, keys, ephemeral)
  }

  lemma GatheredMore(ov: Buffer, keys: seq<Key>, all: set<Key>, todo: set<Key>, ops: seq<TxnOp>, ephemeral: bool, key: Key)
    requires all == ov.Keys && todo <= all && Gathered(ov, keys, all - todo, ops, ephemeral) && key in todo
    ensures Gathered(ov, keys + [key], all - (todo - {key}), ops + OpsFor(key, ov[key], ephemeral), ephemeral)
  {
    EachOnceMore(keys, all - todo, key);
    assert all - (todo - {key}) == all - todo + {key};
    OpsOneMore(ov, keys, key, ephemeral);
  }

  lemma GatheredCommitted(m: Objects, ov: Buffer, keys: seq<Key>, ops: seq<TxnOp>, ephemeral: bool, rev: nat)
    requires Gathered(ov, keys, ov.Keys, ops, ephemeral)
    ensures ApplyOps(m, ops, rev) == CommitMap(m, ov, rev)
  {
    WholeBufferCommitted(m, ov, keys, ephemeral, rev);
  }

  /** A whole buffer is taken exactly if it is committable. */
  lemma GatheredLegal(ov: Buffer, keys: seq<Key>, ops: seq<TxnOp>, ephemeral: bool, kvs: Objects, persisted: set<Key>)
    requires Gathered(ov, keys, ov.Keys, ops, ephemeral)
    ensures Legal(kvs, persisted, ops) <==> Committable(ov, kvs, persisted, ephemeral)
    ensures ops == [] <==> ov == map[]
  {
    LegalOps(ov, keys, kvs, persisted, ephemeral);
    if keys == [] { assert ov.Keys == {}; } else { assert keys[0] in ov; }
  }

  lemma UnstagedMore(ops: seq<TxnOp>, key: Key, e: OverlayObj, ephemeral: bool)
    requires Carries(e)
    ensures Unstaged(ops + OpsFor(key, e, ephemeral)) == Unstaged(ops) + if Unstages(e, ephemeral) then {key} else {}
  {
    var more := OpsFor(key, e, ephemeral);
    if Unstages(e, ephemeral) { assert more[1] == TxnUnstage(key) && TxnUnstage(key) in ops + more; }
    assert forall op <- ops :: op in ops + more;
  }

  lemma {:induction false} UnstagedOf(ov: Buffer, keys: seq<Key>, ephemeral: bool, key: Key)
    requires Complete(ov) && forall k <- keys :: k in ov
    ensures key in Unstaged(OpsOf(ov, keys, ephemeral)) <==> key in keys && Unstages(ov[key], ephemeral)
  {
    if keys != [] {
      var n := |keys| - 1;
      var last := keys[n];
      assert last in keys && keys == keys[..n] + [last];
      UnstagedOf(ov, keys[..n], ephemeral, key);
      UnstagedMore(OpsOf(ov, keys[..n], ephemeral), last, ov[last], ephemeral);
    }
  }

  /** A whole buffer removes what is persisted of its primary operations. */
  lemma GatheredUnstaged(ov: Buffer, keys: seq<Key>, ops: seq<TxnOp>, ephemeral: bool)
    requires Gathered(ov, keys, ov.Keys, ops, ephemeral)
    ensures Unstaged(ops) == set k | k in ov && Unstages(ov[k], ephemeral)
  {
    forall k ensures k in Unstaged(ops) <==> k in ov && Unstages(ov[k], ephemeral) {
      UnstagedOf(ov, keys, ephemeral, k);
    }
  }

  // ---- Gathering a buffer, one operation after the other ----

  /** The keys outside `todo` are gathered, `n` of them, and those that are not touches are below the limit. */
  ghost predicate Gathering(ov: Buffer, keys: seq<Key>, ops: seq<TxnOp>, todo: set<Key>, n: nat, ephemeral: bool,
                            maxEntries: nat)
  {
    && todo <= ov.Keys && n == |ov.Keys - todo|
    && Gathered(ov, keys, ov.Keys - todo, ops, ephemeral)
    && |Plain(ov) - todo| <= n && |Plain(ov) - todo| < Limit(maxEntries)
  }

  lemma GatheringStarts(ov: Buffer, ephemeral: bool, maxEntries: nat)
    requires Complete(ov)
    ensures Gathering(ov, [], [], ov.Keys, 0, ephemeral, maxEntries)
  {
    assert ov.Keys - ov.Keys == {} && Plain(ov) - ov.Keys == {};
  }

  lemma SmallerSet(a: set<Key>, b: set<Key>)
    requires a <= b
    ensures |a| <= |b|
  {
    assert b == a + (b - a);
  }

  lemma OneMoreTaken(all: set<Key>, todo: set<Key>, key: Key)
    requires key in todo && todo <= all
    ensures all - (todo - {key}) == all - todo + {key} && |all - (todo - {key})| == |all - todo| + 1
  {
    assert all - (todo - {key}) == all - todo + {key};
  }

  /** One more key: it is gathered, unless it reaches the limit, which only a buffer of that size does. */
  lemma GatherNext(ov: Buffer, keys: seq<Key>, ops: seq<TxnOp>, todo: set<Key>, n: nat, ephemeral: bool,
                   maxEntries: nat, key: Key)
    requires Gathering(ov, keys, ops, todo, n, ephemeral, maxEntries) && key in todo
    ensures ov[key].touch || n + 1 < maxEntries ==>
              Gathering(ov, keys + [key], ops + OpsFor(key, ov[key], ephemeral), todo - {key}, n + 1, ephemeral, maxEntries)
    ensures n + 1 <= |ov|
  {
    OneMoreTaken(ov.Keys, todo, key);
    PlainMore(ov, todo, key);
    GatheredMore(ov, keys, ov.Keys, todo, ops, ephemeral, key);
    SmallerSet(ov.Keys - (todo - {key}), ov.Keys);
    assert |ov| == |ov.Keys|;
  }

  lemma AllGathered(ov: Buffer, keys: seq<Key>, ops: seq<TxnOp>, n: nat, ephemeral: bool, maxEntries: nat)
    requires Gathering(ov, keys, ops, {}, n, ephemeral, maxEntries)
    ensures |Plain(ov)| < Limit(maxEntries) && Gathered(ov, keys, ov.Keys, ops, ephemeral)
  {
    assert Plain(ov) - {} == Plain(ov) && ov.Keys - {} == ov.Keys;
  }
}
