/**
 The staging buffer over the cache: operations are staged in place, reads show the merged
 view, and a commit turns the buffer into one or more transactions on the backend.
 */
module StagingOverlay {
  import M = OverlayModel
  import opened Wrappers
  import opened StoreModel
  import opened OverlayModel
  import opened CommitModel

  /** The backend, what is persisted of the staged buffer there, and the cache that follows it. */
  class Cache {
    var kvs: Objects
    var persisted: set<Key>
    var revision: nat
    var live: Objects
    ghost var largest: nat

    ghost function State(): Backend
      reads this
    {
      Backend(kvs, persisted, revision, live, largest)
    }

    /** A transaction takes effect as a whole or not at all. */
    method Commit(ops: seq<TxnOp>, comps: seq<Cmp>) returns (ok: bool)
      modifies this
      ensures ok == (Legal(old(kvs), old(persisted), ops) && forall c <- comps :: Holds(old(kvs), c))
      ensures State() == if ok then Apply(old(State()), ops) else old(State())
    {
      ok := Legal(kvs, persisted, ops) && forall c <- comps :: Holds(kvs, c);
      if !ok {
        return;
      }
      revision, largest := revision + 1, Max(largest, Entries(ops));
      kvs := ApplyOps(kvs, ops, revision);
      persisted := persisted - Unstaged(ops);
      for i := 0 to |ops|
        invariant State() == Apply(old(State()), ops).(live := live) && live == ApplyOps(old(live), ops[..i], revision)
      {
        assert ops[..i + 1][..i] == ops[..i];
        live := ApplyOp(live, ops[i], revision);
      }
      assert ops[..|ops|] == ops;
    }
  }

  class Overlay {
    const cache: Cache
    const ephemeral: bool
    const maxOvEntries: nat
    var overlay: Buffer
    var items: seq<Item>
    var comparators: seq<Cmp>
    var preCommitComps: seq<Cmp>
    var primaryCount: nat

    constructor (cache: Cache, ephemeral: bool, maxOvEntries: nat)
      ensures this.cache == cache && this.ephemeral == ephemeral && this.maxOvEntries == maxOvEntries
      ensures overlay == map[] && items == [] && comparators == [] && primaryCount == 0
    {
      this.cache, this.ephemeral, this.maxOvEntries := cache, ephemeral, maxOvEntries;
      overlay, items, comparators, preCommitComps, primaryCount := map[], [], [], [], 0;
    }

    ghost function View(): Objects
      reads `overlay, cache`live
    {
      M.View(cache.live, overlay)
    }

    ghost predicate EntryOk(key: Key, e: OverlayObj)
      reads cache`live
    {
      FitsAt(cache.live, key, e) && Carries(e) && e.primary && !e.touch
    }

    /** Staged by primary operations only: every operation fits the base and is persisted. */
    ghost predicate Valid()
      reads `overlay, cache`live, cache`persisted
    {
      && (forall k <- overlay :: EntryOk(k, overlay[k]))
      && cache.persisted == if ephemeral then {} else overlay.Keys
    }

    /** One more operation, if the buffer's limit allows it. Operations that then fail count too. */
    method Admit() returns (ok: bool)
      modifies `primaryCount
      ensures ok == (old(primaryCount) < maxOvEntries)
      ensures primaryCount == old(primaryCount) + if ok then 1 else 0
    {
      primaryCount := primaryCount + 1;
      if primaryCount > maxOvEntries {
        primaryCount := primaryCount - 1;
        return false;
      }
      return true;
    }

    method Persist(key: Key)
      modifies cache`persisted
      ensures cache.persisted == old(cache.persisted) + if ephemeral then {} else {key}
    {
      if !ephemeral {
        cache.persisted := cache.persisted + {key};
      }
    }

    method Unpersist(key: Key)
      modifies cache`persisted
      ensures cache.persisted == old(cache.persisted) - if ephemeral then {} else {key}
    {
      if !ephemeral {
        cache.persisted := cache.persisted - {key};
      }
    }

    /** Stages an operation and persists it. */
    method PutEntry(key: Key, e: OverlayObj)
      requires Valid() && EntryOk(key, e)
      modifies `overlay, cache`persisted
      ensures Valid() && overlay == old(overlay)[key := e]
      ensures View() == if e.oper == DeleteOper then old(View()) - {key} else old(View())[key := Bare(e.val.value)]
    {
      StagedView(cache.live, overlay, key, e);
      overlay := overlay[key := e];
      Persist(key);
    }

    /** A create succeeds exactly if the view lacks the key, and then the view has it. It counts even if it fails. */
    method CreatePrimary(key: Key, obj: Option<Object>) returns (ok: bool)
      requires Valid()
      modifies `overlay, `primaryCount, cache`persisted
      ensures Valid()
      ensures ok <==> old(primaryCount) < maxOvEntries && obj.Some? && key !in old(View())
      ensures if ok then View() == old(View())[key := Bare(obj.value)] else overlay == old(overlay)
      ensures primaryCount == old(primaryCount) + if old(primaryCount) < maxOvEntries then 1 else 0
    {
      ok := Admit();
      if !ok || obj.None? {
        return false;
      }
      if key in cache.live {
        if key in overlay && overlay[key].oper == DeleteOper {
          PutEntry(key, overlay[key].(oper := UpdateOper, val := obj, primary := true));
          return true;
        }
        return false;
      }
      if key in overlay {
        return false;
      }
      PutEntry(key, OverlayObj(CreateOper, obj, true, false, None, None));
    }

    /** An update succeeds exactly if base or buffer has an entry for the key, deleted or not. */
    method UpdatePrimary(key: Key, obj: Option<Object>, updateFn: Option<UpdateFn>, resVer: Option<nat>) returns (ok: bool)
      requires Valid()
      modifies `overlay, `items, `primaryCount, cache`persisted
      ensures Valid()
      ensures ok <==> old(primaryCount) < maxOvEntries && obj.Some? && (key in cache.live || key in old(overlay))
      ensures if ok then View() == old(View())[key := Bare(obj.value)] else overlay == old(overlay)
      ensures items == old(items) + if ok && key in cache.live && updateFn.Some? then [Item(key, updateFn.value, resVer)] else []
      ensures primaryCount == old(primaryCount) + if old(primaryCount) < maxOvEntries then 1 else 0
    {
      ok := Admit();
      if !ok || obj.None? {
        return false;
      }
      if key !in cache.live && (key !in overlay || overlay[key].oper == DeleteOper) {
        return false;
      }
      var oper := if key in cache.live then UpdateOper else CreateOper;
      PutEntry(key, OverlayObj(oper, obj, true, false, updateFn, resVer));
      if oper == UpdateOper && updateFn.Some? {
        items := items + [Item(key, updateFn.value, resVer)];
      }
    }

    /** A delete succeeds exactly if base or buffer has an entry for the key, deleted or not. */
    method DeletePrimary(key: Key, wanted: bool) returns (ok: bool, deleted: Option<Object>)
      requires Valid()
      modifies `overlay, `primaryCount, cache`persisted
      ensures Valid()
      ensures ok <==> old(primaryCount) < maxOvEntries && (key in cache.live || key in old(overlay))
      ensures if ok then View() == old(View()) - {key} else overlay == old(overlay)
      ensures deleted.Some? <==> ok && wanted
      ensures ok && key in old(View()) && wanted ==> Bare(deleted.value) == old(View())[key]
      ensures primaryCount == old(primaryCount) + if old(primaryCount) < maxOvEntries then 1 else 0
    {
      ok := Admit();
      deleted := None;
      if !ok || (key !in cache.live && key !in overlay) {
        return false, None;
      }
      if wanted {
        deleted := if key in overlay && overlay[key].val.Some? then overlay[key].val else Some(cache.live[key]);
      }
      if key !in cache.live {
        UnstagedView(cache.live, overlay, key);
        overlay := overlay - {key};
        Unpersist(key);
      } else {
        var e := if key in overlay then overlay[key].(oper := DeleteOper, primary := true, touch := false)
                 else OverlayObj(DeleteOper, deleted, true, false, None, None);
        PutEntry(key, e);
      }
    }

    /** Get finds what the view shows, with the version of the cached object, or version 0 if the cache has none. */
    method Get(key: Key) returns (r: Option<Object>)
      ensures r.Some? <==> key in View()
      ensures r.Some? ==> Bare(r.value) == View()[key]
      ensures r.Some? ==> r.value.version == if key in cache.live then cache.live[key].version else 0
    {
      if key in overlay {
        if overlay[key].oper == DeleteOper {
          return None;
        }
        if overlay[key].val.Some? {
          var version := if key in cache.live then cache.live[key].version else 0;
          return Some(overlay[key].val.value.(version := version));
        }
      }
      return if key in cache.live then Some(cache.live[key]) else None;
    }

    /** Stat finds valid exactly the keys that Get finds. */
    method Stat(keys: seq<Key>) returns (valid: seq<bool>)
      requires Valid()
      ensures |valid| == |keys| && forall i | 0 <= i < |keys| :: valid[i] <==> keys[i] in View()
    {
      valid := [];
      for i := 0 to |keys|
        invariant |valid| == i && forall j | 0 <= j < i :: valid[j] <==> keys[j] in View()
      {
        var v := keys[i] in cache.live;
        if keys[i] in overlay {
          var oper := overlay[keys[i]].oper;
          if v && oper == DeleteOper {
            v := false;
          } else if (!v && oper == CreateOper) || oper == UpdateOper {
            v := true;
          }
          assert EntryOk(keys[i], overlay[keys[i]]);
        }
        valid := valid + [v];
      }
    }

    /** Every object is filed under the key its metadata makes, and every staged operation has one. */
    ghost predicate Named()
      reads `overlay, cache`live
    {
      && (forall k <- cache.live :: cache.live[k].name == k)
      && (forall k <- overlay :: overlay[k].val.Some? && overlay[k].val.value.name == k)
    }

    /** The object of a key as it was staged, or as the cache has it. */
    ghost function Latest(key: Key): Object
      requires key in cache.live || (key in overlay && overlay[key].val.Some?)
      reads `overlay, cache`live
    {
      if key in overlay && overlay[key].val.Some? then overlay[key].val.value else cache.live[key]
    }

    /** A list has one object for each key of a set that the view has, as it was staged or cached, versions included. */
    ghost predicate Lists(l: seq<Object>, keys: set<Key>)
      reads `overlay, cache`live
    {
      && (forall i | 0 <= i < |l| :: l[i].name in keys && l[i].name in View() && l[i] == Latest(l[i].name))
      && (forall i, j | 0 <= i < j < |l| :: l[i].name != l[j].name)
      && (forall k | k in keys && k in View() :: exists i :: 0 <= i < |l| && l[i].name == k)
    }

    /**
     List returns exactly the objects that Get finds for the keys with the prefix: those only
     the cache has, then those the buffer creates or updates.
     */
    method List(prefix: Key) returns (l: seq<Object>)
      requires Valid() && Named()
      ensures Lists(l, set k | k in cache.live.Keys + overlay.Keys && HasPrefix(prefix, k))
    {
      var all := set k | k in cache.live.Keys + overlay.Keys && HasPrefix(prefix, k);
      var staged := set k | k in overlay && HasPrefix(prefix, k);
      l := ListCached(all - staged);
      l := ListStaged(l, all, staged);
    }

    /** The objects of keys that only the cache has. */
    method ListCached(keys: set<Key>) returns (l: seq<Object>)
      requires Valid() && Named() && keys <= cache.live.Keys - overlay.Keys
      ensures Lists(l, keys)
    {
      l := [];
      var todo := keys;
      while todo != {}
        invariant todo <= keys && Lists(l, keys - todo)
        decreases todo
      {
        var k :| k in todo;
        ListsMore(l, keys - todo, k);
        assert keys - (todo - {k}) == keys - todo + {k};
        l := l + [cache.live[k]];
        todo := todo - {k};
      }
      assert keys - {} == keys;
    }

    /** The objects the buffer creates or updates, behind the others. */
    method ListStaged(l0: seq<Object>, ghost all: set<Key>, staged: set<Key>) returns (l: seq<Object>)
      requires Valid() && Named() && staged <= overlay.Keys && staged <= all && Lists(l0, all - staged)
      ensures Lists(l, all)
    {
      l := l0;
      var todo := staged;
      while todo != {}
        invariant todo <= staged && Lists(l, all - todo)
        decreases todo
      {
        var k :| k in todo;
        assert EntryOk(k, overlay[k]);
        ListsMore(l, all - todo, k);
        assert all - (todo - {k}) == all - todo + {k};
        if overlay[k].oper == CreateOper || overlay[k].oper == UpdateOper {
          l := l + [overlay[k].val.value];
        }
        todo := todo - {k};
      }
      assert all - {} == all;
    }

    lemma ListsMore(l: seq<Object>, keys: set<Key>, key: Key)
      requires Lists(l, keys) && key !in keys
      ensures key !in View() ==> Lists(l, keys + {key})
      ensures forall o: Object | key in View() && o.name == key && o == Latest(key) :: Lists(l + [o], keys + {key})
    {
      forall o: Object | key in View() && o.name == key && o == Latest(key)
        ensures Lists(l + [o], keys + {key})
      {
        assert (l + [o])[|l|].name == key;
        forall k | k in keys + {key} && k in View() ensures exists i :: 0 <= i < |l + [o]| && (l + [o])[i].name == k {
          if k != key {
            var i :| 0 <= i < |l| && l[i].name == k;
            assert (l + [o])[i].name == k;
          }
        }
      }
    }

    /** Re-applies every consistent update to the object the cache has now. */
    method PrepareItems() returns (ok: bool)
      modifies `overlay, `preCommitComps
      ensures Prepared(overlay, preCommitComps, ok) == Prepare(old(overlay), items, cache.live)
    {
      preCommitComps, ok := [], true;
      for i := 0 to |items|
        invariant Prepared(overlay, preCommitComps, ok) == Prepare(old(overlay), items[..i], cache.live)
      {
        assert items[..i + 1][..i] == items[..i];
        var item := items[i];
        if item.key in cache.live && item.fn(cache.live[item.key]).Some? {
          var x := cache.live[item.key];
          overlay := PreCommitUpdate(overlay, item.key, item.fn(x).value);
          var version := if item.resVer.Some? then item.resVer.value else x.version;
          preCommitComps := preCommitComps + [Cmp(item.key, Equal, version)];
        } else {
          ok := false;
        }
      }
      assert items[..|items|] == items;
    }

    /** The comparators of the buffer, each once, without those the buffer makes redundant. */
    method Comparators() returns (cs: seq<Cmp>)
      ensures forall c :: c in cs <==> c in comparators + preCommitComps && !Redundant(overlay, c)
      ensures forall i, j | 0 <= i < j < |cs| :: cs[i] != cs[j]
    {
      cs := [];
      var all := comparators + preCommitComps;
      for i := 0 to |all|
        invariant forall c :: c in cs <==> c in all[..i] && !Redundant(overlay, c)
        invariant forall i, j | 0 <= i < j < |cs| :: cs[i] != cs[j]
      {
        assert all[..i + 1] == all[..i] + [all[i]];
        if all[i] !in cs && !Redundant(overlay, all[i]) {
          cs := cs + [all[i]];
        }
      }
      assert all[..|all|] == all;
    }

    /**
     The loop over a buffer that goes out in one transaction: its operations are collected, and
     it is refused when it reaches the limit.
     */
    method Gather(maxEntries: nat) returns (ok: bool, ops: seq<TxnOp>, ghost keys: seq<Key>)
      requires Complete(overlay)
      ensures |overlay| < Limit(maxEntries) ==> ok
      ensures ok ==> |Plain(overlay)| < Limit(maxEntries) && Gathered(overlay, keys, overlay.Keys, ops, ephemeral)
    {
      var ov, n, todo := overlay, 0, overlay.Keys;
      ok, ops, keys := true, [], [];
      GatheringStarts(ov, ephemeral, maxEntries);
      while todo != {}
        invariant Gathering(ov, keys, ops, todo, n, ephemeral, maxEntries)
        decreases todo
      {
        var k :| k in todo;
        GatherNext(ov, keys, ops, todo, n, ephemeral, maxEntries, k);
        ops, keys := ops + OpsFor(k, ov[k], ephemeral), keys + [k];
        todo, n := todo - {k}, n + 1;
        if !ov[k].touch && n >= maxEntries {
          return false, ops, keys;
        }
      }
      AllGathered(ov, keys, ops, n, ephemeral, maxEntries);
    }

    /** The same loop over a large buffer, which is sent whenever it reaches the limit. */
    method SendBatches(maxEntries: nat) returns (ok: bool, ops: seq<TxnOp>)
      requires Complete(overlay)
      modifies cache
      ensures ok ==> Sending(old(cache.State()), overlay, ephemeral, cache.State(), ops, {}, maxEntries)
      ensures !ok ==> LargeCommit(old(cache.State()), cache.State(), overlay, ephemeral, maxEntries, false)
    {
      ghost var b0 := cache.State();
      var ov, n, todo := overlay, 0, overlay.Keys;
      ok, ops := true, [];
      SendingStarts(b0, ov, ephemeral, maxEntries);
      while todo != {}
        invariant ok && Sending(b0, ov, ephemeral, cache.State(), ops, todo, maxEntries) && Entries(ops) <= n
        decreases todo
      {
        var k :| k in todo;
        TakeNext(b0, ov, ephemeral, cache.State(), ops, todo, maxEntries, k);
        ops := ops + OpsFor(k, ov[k], ephemeral);
        todo, n := todo - {k}, n + 1;
        if !ov[k].touch && n >= maxEntries {
          ok := SendPart(b0, ov, ops, todo, maxEntries);
          if !ok {
            return;
          }
          ops, n := [], 0;
        }
      }
    }

    /** One part of a large buffer. */
    method SendPart(ghost b0: Backend, ghost ov: Buffer, ops: seq<TxnOp>, ghost todo: set<Key>, ghost maxEntries: nat)
      returns (ok: bool)
      requires todo <= ov.Keys && Pending(b0.kvs, ov, cache.State(), ops, ov.Keys - todo) && Entries(ops) <= Limit(maxEntries)
      requires Clear(ov, ephemeral, b0, [], ov.Keys) ==> Clear(ov, ephemeral, cache.State(), ops, todo)
      requires (b0.kvs == b0.live ==> cache.kvs == cache.live) && cache.largest <= Max(b0.largest, Limit(maxEntries))
      modifies cache
      ensures if ok then Sending(b0, ov, ephemeral, cache.State(), [], todo, maxEntries)
              else LargeCommit(b0, cache.State(), ov, ephemeral, maxEntries, false)
    {
      PartSent(b0, ov, ephemeral, cache.State(), ops, todo, maxEntries);
      ok := cache.Commit(ops, []);
    }

    /** Every operation of a large buffer is sent, in transactions within the limit and without comparators. */
    method SendLarge(maxEntries: nat) returns (ok: bool)
      requires Complete(overlay)
      modifies cache
      ensures LargeCommit(old(cache.State()), cache.State(), overlay, ephemeral, maxEntries, ok)
    {
      var ops;
      ok, ops := SendBatches(maxEntries);
      if ok && ops != [] {
        ok := SendPart(old(cache.State()), overlay, ops, {}, maxEntries);
      }
      if ok {
        AllSent(old(cache.State()), overlay, ephemeral, cache.State(), maxEntries);
      }
    }

    /** A buffer in one transaction, guarded by its comparators. */
    method SendSmall(maxEntries: nat) returns (ok: bool)
      requires Complete(overlay)
      modifies cache
      ensures SmallCommit(old(cache.State()), cache.State(), overlay, ephemeral, comparators + preCommitComps, maxEntries, ok)
    {
      var ops;
      ghost var keys;
      ok, ops, keys := Gather(maxEntries);
      if !ok {
        return;
      }
      var comps := Comparators();
      SmallSent(cache.State(), overlay, ephemeral, keys, ops, comparators + preCommitComps, comps, maxEntries);
      if ops != [] || comps != [] {
        ok := cache.Commit(ops, comps);
      }
    }

    lemma ValidClear()
      requires Valid() && cache.kvs == cache.live
      ensures Clear(overlay, ephemeral, cache.State(), [], overlay.Keys)
      ensures Committable(overlay, cache.kvs, cache.persisted, ephemeral)
      ensures cache.persisted == set k | k in overlay && Unstages(overlay[k], ephemeral)
    {
      assert forall k <- overlay :: EntryOk(k, overlay[k]);
    }

    /** A buffer of primary operations alone is committed on an unchanged base, a small one if there is room. */
    lemma ValidCommits(b': Backend, maxEntries: nat, ok: bool)
      requires Valid() && cache.kvs == cache.live
      ensures LargeCommit(cache.State(), b', overlay, ephemeral, maxEntries, ok) ==> ok && b'.persisted == {}
      ensures SmallCommit(cache.State(), b', overlay, ephemeral, [], maxEntries, ok) && |overlay| < Limit(maxEntries) ==>
                ok && b'.persisted == {}
    {
      ValidClear();
    }

    /**
     A commit without retries: the consistent updates are prepared from the objects the cache
     has, and the prepared buffer goes out in one transaction or, if it is a large one, in
     several. It is empty afterwards exactly if the commit succeeded.
     */
    method CommitDirect(largeBuffer: bool, maxEntries: nat) returns (ok: bool, ghost p: Prepared)
      requires Complete(overlay)
      modifies `overlay, `preCommitComps, cache
      ensures p == Prepare(old(overlay), items, old(cache.live))
      ensures !p.ok ==> !ok && cache.State() == old(cache.State())
      ensures p.ok && largeBuffer ==> LargeCommit(old(cache.State()), cache.State(), p.ov, ephemeral, maxEntries, ok)
      ensures p.ok && !largeBuffer ==>
                SmallCommit(old(cache.State()), cache.State(), p.ov, ephemeral, comparators + p.comps, maxEntries, ok)
      ensures ok ==> Bares(cache.kvs) == M.View(old(cache.kvs), p.ov)
      ensures overlay == if ok then map[] else p.ov
    {
      p := Prepare(overlay, items, cache.live);
      ok := PrepareItems();
      if !ok {
        return;
      }
      PreparedComplete(old(overlay), items, cache.live);
      if largeBuffer {
        ok := SendLarge(maxEntries);
      } else {
        ok := SendSmall(maxEntries);
        if ok { SmallCommitShows(old(cache.State()), cache.State(), p.ov, ephemeral, comparators + p.comps, maxEntries); }
      }
      if ok {
        overlay := map[];
      }
    }
  }

  lemma {:induction false} PreparedComplete(ov: Buffer, items: seq<Item>, live: Objects)
    requires Complete(ov)
    ensures Complete(Prepare(ov, items, live).ov)
  {
    if items != [] {
      PreparedComplete(ov, items[..|items| - 1], live);
      var p := Prepare(ov, items[..|items| - 1], live);
      assert forall k <- p.ov :: Carries(p.ov[k]);
    }
  }
}
