/**
 A commit of a staging buffer as a relation between the backend before it and after it: in
 one transaction, guarded by comparators, or in several when the buffer is a large one.
 */
module CommitModel {
  import opened Wrappers
  import opened StoreModel
  import opened OverlayModel
  import N = NoLostUpdate

  /**
   The backend, what is persisted of the staged buffer there, the cache that follows it, and
   the most entries that a transaction has had.
   */
  datatype Backend = Backend(kvs: Objects, persisted: set<Key>, revision: nat, live: Objects, largest: nat)

  function Max(a: nat, b: nat): nat {
    if a < b then b else a
  }

  /** A transaction takes effect as a whole, at one new revision, in the backend and in the cache. */
  function Apply(b: Backend, ops: seq<TxnOp>): Backend {
    var rev := b.revision + 1;
    Backend(ApplyOps(b.kvs, ops, rev), b.persisted - Unstaged(ops), rev, ApplyOps(b.live, ops, rev),
            Max(b.largest, Entries(ops)))
  }

  // ---- A small buffer ----

  /** The whole buffer is in the backend and in the cache, and nothing of it is persisted any more. */
  ghost predicate Whole(b: Backend, b': Backend, ov: Buffer, ephemeral: bool) {
    && b'.kvs == CommitMap(b.kvs, ov, b'.revision)
    && b'.live == CommitMap(b.live, ov, b'.revision)
    && (ov != map[] ==> b'.revision == b.revision + 1)
    && b'.persisted == b.persisted - set k | k in ov && Unstages(ov[k], ephemeral)
  }

  /**
   A small buffer with room is committed exactly if the backend takes every operation and
   every comparator is met; one with too many operations never is. Refused, it leaves
   everything as it was.
   */
  ghost predicate SmallCommit(b: Backend, b': Backend, ov: Buffer, ephemeral: bool, comps: seq<Cmp>,
                              maxEntries: nat, ok: bool)
  {
    && (|ov| < Limit(maxEntries) ==>
          (ok <==> Committable(ov, b.kvs, b.persisted, ephemeral) && Accepted(b.kvs, ov, comps)))
    && (ok ==> |Plain(ov)| < Limit(maxEntries))
    && (ok ==> Committable(ov, b.kvs, b.persisted, ephemeral) && Accepted(b.kvs, ov, comps))
    && (if ok then Whole(b, b', ov, ephemeral) else b' == b)
  }

  lemma ComparatorsMet(kvs: Objects, ov: Buffer, all: seq<Cmp>, comps: seq<Cmp>)
    requires forall c :: c in comps <==> c in all && !Redundant(ov, c)
    ensures (forall c <- comps :: Holds(kvs, c)) <==> Accepted(kvs, ov, all)
  {
  }

  lemma WholeApplied(b: Backend, ov: Buffer, ephemeral: bool, keys: seq<Key>, ops: seq<TxnOp>)
    requires Gathered(ov, keys, ov.Keys, ops, ephemeral)
    ensures Whole(b, Apply(b, ops), ov, ephemeral)
  {
    GatheredUnstaged(ov, keys, ops, ephemeral);
    GatheredCommitted(b.kvs, ov, keys, ops, ephemeral, b.revision + 1);
    GatheredCommitted(b.live, ov, keys, ops, ephemeral, b.revision + 1);
  }

  lemma NothingToSend(b: Backend, ephemeral: bool)
    ensures Whole(b, b, map[], ephemeral)
  {
    assert CommitMap(b.kvs, map[], b.revision) == b.kvs && CommitMap(b.live, map[], b.revision) == b.live;
  }

  /** The gathered operations with the comparators that are not redundant: taken exactly if they should be, and as a whole. */
  lemma WholeSent(b: Backend, ov: Buffer, ephemeral: bool, keys: seq<Key>, ops: seq<TxnOp>, all: seq<Cmp>, comps: seq<Cmp>)
    requires Gathered(ov, keys, ov.Keys, ops, ephemeral)
    requires forall c :: c in comps <==> c in all && !Redundant(ov, c)
    ensures Legal(b.kvs, b.persisted, ops) && (forall c <- comps :: Holds(b.kvs, c)) <==>
            Committable(ov, b.kvs, b.persisted, ephemeral) && Accepted(b.kvs, ov, all)
    ensures Whole(b, Apply(b, ops), ov, ephemeral) && (ops == [] ==> Whole(b, b, ov, ephemeral))
  {
    GatheredLegal(ov, keys, ops, ephemeral, b.kvs, b.persisted);
    ComparatorsMet(b.kvs, ov, all, comps);
    WholeApplied(b, ov, ephemeral, keys, ops);
    NothingToSend(b, ephemeral);
  }

  /** What the transaction, the lack of one, or its refusal makes of the backend. */
  lemma SmallSent(b: Backend, ov: Buffer, ephemeral: bool, keys: seq<Key>, ops: seq<TxnOp>,
                  all: seq<Cmp>, comps: seq<Cmp>, maxEntries: nat)
    requires Gathered(ov, keys, ov.Keys, ops, ephemeral) && |Plain(ov)| < Limit(maxEntries)
    requires forall c :: c in comps <==> c in all && !Redundant(ov, c)
    ensures var taken := Legal(b.kvs, b.persisted, ops) && forall c <- comps :: Holds(b.kvs, c);
            SmallCommit(b, if taken then Apply(b, ops) else b, ov, ephemeral, all, maxEntries, taken)
    ensures ops == [] && comps == [] ==> SmallCommit(b, b, ov, ephemeral, all, maxEntries, true)
  {
    WholeSent(b, ov, ephemeral, keys, ops, all, comps);
  }

  lemma SmallCommitShows(b: Backend, b': Backend, ov: Buffer, ephemeral: bool, comps: seq<Cmp>, maxEntries: nat)
    requires Complete(ov) && SmallCommit(b, b', ov, ephemeral, comps, maxEntries, true)
    ensures Bares(b'.kvs) == View(b.kvs, ov)
  {
    CommitRealisesView(b.kvs, ov, b'.revision);
  }

  /** The state machine's world of a prepared buffer, and its world after the commit, from which on the items are new. */
  function Ready(b: Backend, p: Prepared, items: seq<Item>, comps: seq<Cmp>, history: map<(Key, nat), Object>): N.World {
    N.ReadyWorld(b.kvs, b.revision, b.live, history, p, items, comps)
  }

  function Rested(b: Backend, ov: Buffer, comps: seq<Cmp>, history: map<(Key, nat), Object>): N.World {
    N.RestedWorld(b.kvs, b.revision, b.live, history, ov, comps)
  }

  /**
   A commit that succeeds in one transaction is a step of the state machine of consistent
   updates, whatever the history, so that what holds of its runs holds of it.
   */
  lemma SmallCommitIsStep(b: Backend, b': Backend, p: Prepared, ephemeral: bool, items: seq<Item>, comps: seq<Cmp>,
                          maxEntries: nat, history: map<(Key, nat), Object>)
    requires Complete(p.ov) && p.ov != map[] && forall k <- p.ov :: p.ov[k].touch ==> k in b.live
    requires SmallCommit(b, b', p.ov, ephemeral, comps + p.comps, maxEntries, true)
    ensures N.Step(Ready(b, p, items, comps, history), N.CommitSucceeds, Rested(b', p.ov, comps, history))
  {
    N.CommitIsStep(b.kvs, b.revision, b.live, history, p, items, comps);
  }

  /** For such a commit no update is lost: it has stored the update of the object the backend held. */
  lemma SmallCommitStoresUpdate(b: Backend, b': Backend, ov: Buffer, p: Prepared, ephemeral: bool, items: seq<Item>,
                                comps: seq<Cmp>, maxEntries: nat, history: map<(Key, nat), Object>, i: nat)
    requires Complete(p.ov) && p == Prepare(ov, items, b.live) && p.ok && N.Decides(items, i)
    requires forall k <- p.ov :: p.ov[k].touch ==> k in b.live
    requires N.HistoryOk(history, b.revision)
    requires N.KnownAt(history, b.kvs, items[i].key) && N.KnownAt(history, b.live, items[i].key)
    requires SmallCommit(b, b', p.ov, ephemeral, comps + p.comps, maxEntries, true)
    ensures var item := items[i];
            && item.key in b.kvs && item.fn(b.kvs[item.key]).Some? && item.key in b'.kvs
            && b'.kvs[item.key] == item.fn(b.kvs[item.key]).value.(version := b'.revision)
  {
    N.PreparedItem(ov, items, b.live, i);
    SmallCommitIsStep(b, b', p, ephemeral, items, comps, maxEntries, history);
    N.CommitStoresUpdate(Ready(b, p, items, comps, history), Rested(b', p.ov, comps, history), i);
  }

  /** Such a commit has found in the backend, for every item, the version the item names, or else the one that was read. */
  lemma SmallCommitChecks(b: Backend, b': Backend, ov: Buffer, p: Prepared, ephemeral: bool, items: seq<Item>,
                          comps: seq<Cmp>, maxEntries: nat, i: nat)
    requires p == Prepare(ov, items, b.live) && p.ok && i < |items|
    requires SmallCommit(b, b', p.ov, ephemeral, comps + p.comps, maxEntries, true)
    ensures items[i].key in b.live
    ensures var v := if items[i].resVer.Some? then items[i].resVer.value else b.live[items[i].key].version;
            if items[i].key in b.kvs then b.kvs[items[i].key].version == v else v == 0
  {
    N.EveryItemCompared(ov, items, b.live, i);
    var v := if items[i].resVer.Some? then items[i].resVer.value else b.live[items[i].key].version;
    var c := Cmp(items[i].key, Equal, v);
    assert c in comps + p.comps && !Redundant(p.ov, c);
    ComparedOnce(b.kvs, items[i].key, v);
  }

  // ---- A large buffer, part by part ----

  /** The pending operations bring the backend to where the keys in `done` are realised. */
  ghost predicate Pending(base: Objects, ov: Buffer, b: Backend, ops: seq<TxnOp>, done: set<Key>) {
    && done <= ov.Keys && Complete(ov)
    && Progress(base, ov, done, ApplyOps(b.kvs, ops, b.revision + 1))
  }

  lemma PendingMore(base: Objects, ov: Buffer, b: Backend, ops: seq<TxnOp>, done: set<Key>, ephemeral: bool, key: Key)
    requires Pending(base, ov, b, ops, done) && key in ov && key !in done
    ensures Pending(base, ov, b, ops + OpsFor(key, ov[key], ephemeral), done + {key})
  {
    var rev, e := b.revision + 1, ov[key];
    ApplyMore(b.kvs, ops, OpsFor(key, e, ephemeral), rev);
    ApplyEntry(ApplyOps(b.kvs, ops, rev), key, e, ephemeral, rev);
    ProgressOne(base, ov, done, ApplyOps(b.kvs, ops, rev), key, rev);
  }

  /** Nothing pending or still to come will be refused, and together they cover what is persisted. */
  ghost predicate Clear(ov: Buffer, ephemeral: bool, b: Backend, ops: seq<TxnOp>, todo: set<Key>) {
    && (forall op <- ops :: op.key !in todo && LegalOp(b.kvs, b.persisted, op))
    && (forall k <- todo :: k in ov && FitsAt(b.kvs, k, ov[k]) && (k in b.persisted <==> Unstages(ov[k], ephemeral)))
    && (forall k <- b.persisted :: k in todo || k in Unstaged(ops))
  }

  lemma ClearMore(ov: Buffer, ephemeral: bool, b: Backend, ops: seq<TxnOp>, todo: set<Key>, key: Key)
    requires Complete(ov) && Clear(ov, ephemeral, b, ops, todo) && key in todo
    ensures Clear(ov, ephemeral, b, ops + OpsFor(key, ov[key], ephemeral), todo - {key})
  {
    assert Carries(ov[key]);
    assert Unstaged(ops) <= Unstaged(ops + OpsFor(key, ov[key], ephemeral));
    if key in b.persisted { assert OpsFor(key, ov[key], ephemeral)[1] == TxnUnstage(key); }
  }

  /** All that is known halfway: what is pending, that it will be taken if the whole buffer would be, and its size. */
  ghost predicate Sending(b0: Backend, ov: Buffer, ephemeral: bool, b: Backend, ops: seq<TxnOp>, todo: set<Key>,
                          maxEntries: nat)
  {
    && todo <= ov.Keys && Pending(b0.kvs, ov, b, ops, ov.Keys - todo)
    && (Clear(ov, ephemeral, b0, [], ov.Keys) ==> Clear(ov, ephemeral, b, ops, todo))
    && (b0.kvs == b0.live ==> b.kvs == b.live)
    && b.largest <= Max(b0.largest, Limit(maxEntries)) && Entries(ops) < Limit(maxEntries)
  }

  lemma SendingStarts(b: Backend, ov: Buffer, ephemeral: bool, maxEntries: nat)
    requires Complete(ov)
    ensures Sending(b, ov, ephemeral, b, [], ov.Keys, maxEntries)
  {
    assert ov.Keys - ov.Keys == {};
  }

  lemma TakeNext(b0: Backend, ov: Buffer, ephemeral: bool, b: Backend, ops: seq<TxnOp>, todo: set<Key>,
                 maxEntries: nat, key: Key)
    requires Sending(b0, ov, ephemeral, b, ops, todo, maxEntries) && key in todo
    ensures var ops' := ops + OpsFor(key, ov[key], ephemeral);
            && Pending(b0.kvs, ov, b, ops', ov.Keys - (todo - {key}))
            && (Clear(ov, ephemeral, b0, [], ov.Keys) ==> Clear(ov, ephemeral, b, ops', todo - {key}))
            && Entries(ops') == Entries(ops) + if ov[key].touch then 0 else 1
  {
    assert ov.Keys - (todo - {key}) == ov.Keys - todo + {key};
    PendingMore(b0.kvs, ov, b, ops, ov.Keys - todo, ephemeral, key);
    if Clear(ov, ephemeral, b0, [], ov.Keys) { ClearMore(ov, ephemeral, b, ops, todo, key); }
    EntriesMore(ops, key, ov[key], ephemeral);
  }

  lemma PartSent(b0: Backend, ov: Buffer, ephemeral: bool, b: Backend, ops: seq<TxnOp>, todo: set<Key>, maxEntries: nat)
    requires todo <= ov.Keys && Pending(b0.kvs, ov, b, ops, ov.Keys - todo) && Entries(ops) <= Limit(maxEntries)
    requires Clear(ov, ephemeral, b0, [], ov.Keys) ==> Clear(ov, ephemeral, b, ops, todo)
    requires (b0.kvs == b0.live ==> b.kvs == b.live) && b.largest <= Max(b0.largest, Limit(maxEntries))
    ensures Sending(b0, ov, ephemeral, Apply(b, ops), [], todo, maxEntries)
  {
    var b' := Apply(b, ops);
    assert ApplyOps(b'.kvs, [], b'.revision + 1) == b'.kvs;
    if Clear(ov, ephemeral, b0, [], ov.Keys) {
      assert forall k <- todo :: SameAt(b'.kvs, b0.kvs, k);
    }
  }

  /** A large buffer, which needs no comparators: sent part by part within the limit, it is what it showed. */
  ghost predicate LargeCommit(b: Backend, b': Backend, ov: Buffer, ephemeral: bool, maxEntries: nat, ok: bool) {
    && (ok ==> Bares(b'.kvs) == View(b.kvs, ov))
    && (Clear(ov, ephemeral, b, [], ov.Keys) ==> ok && b'.persisted == {})
    && (b.kvs == b.live ==> b'.kvs == b'.live)
    && b'.largest <= Max(b.largest, Limit(maxEntries))
  }

  lemma AllSent(b0: Backend, ov: Buffer, ephemeral: bool, b: Backend, maxEntries: nat)
    requires Sending(b0, ov, ephemeral, b, [], {}, maxEntries)
    ensures LargeCommit(b0, b, ov, ephemeral, maxEntries, true)
  {
    assert ov.Keys - {} == ov.Keys && Unstaged([]) == {};
    ProgressDone(b0.kvs, ov, b.kvs);
  }
}
