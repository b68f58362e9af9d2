/**
 Consistent updates under concurrency. The backend, the cache that follows it and one
 staging buffer are a state machine: other writers, the cache catching up and the phases
 of a commit interleave freely, and a failed commit is tried again from the start.
 */
module NoLostUpdate {
  import opened Wrappers
  import opened StoreModel
  import opened OverlayModel

  /** Between the reading of the objects and the transaction the buffer is prepared. */
  datatype Phase = Idle | Ready(prepared: Prepared, read: Objects)

  datatype World = World(
    kvs: Objects,
    revision: nat,
    live: Objects,
    history: map<(Key, nat), Object>,
    buffer: Buffer,
    items: seq<Item>,
    comps: seq<Cmp>,
    phase: Phase)

  const Start := World(map[], 0, map[], map[], map[], [], [], Idle)

  datatype Op =
    | OtherPut(key: Key, obj: Object)
    | OtherDelete(key: Key)
    | OtherTouch(key: Key)
    | Follow(key: Key, version: nat)
    | Forget(key: Key)
    | Stage(buffer: Buffer, items: seq<Item>, comps: seq<Cmp>)
    | PrepareCommit
    | CommitFails
    | CommitSucceeds

  /** A touch gives the objects in backend and cache one new version, whatever the two hold. */
  ghost predicate Step(w: World, op: Op, w': World) {
    match op
    case OtherPut(key, obj) =>
      var obj' := obj.(version := w.revision + 1);
      w' == w.(kvs := w.kvs[key := obj'], revision := w.revision + 1, history := w.history[(key, w.revision + 1) := obj'])
    case OtherDelete(key) => w' == w.(kvs := w.kvs - {key}, revision := w.revision + 1)
    case OtherTouch(key) => key in w.kvs && key in w.live && w' == Touched(w, key)
    case Follow(key, version) =>
      (key, version) in w.history && w' == w.(live := w.live[key := w.history[(key, version)]])
    case Forget(key) => w' == w.(live := w.live - {key})
    case Stage(buffer, items, comps) => w.phase == Idle && w' == w.(buffer := buffer, items := items, comps := comps)
    case PrepareCommit =>
      var p := Prepare(w.buffer, w.items, w.live);
      w.phase == Idle && w' == w.(buffer := p.ov, phase := if p.ok then Ready(p, w.live) else Idle)
    case CommitFails => w.phase.Ready? && w' == w.(phase := Idle)
    case CommitSucceeds => Commits(w, w')
  }

  function Touched(w: World, key: Key): World
    requires key in w.kvs && key in w.live
  {
    var obj' := w.kvs[key].(version := w.revision + 1);
    w.(revision := w.revision + 1, kvs := w.kvs[key := obj'],
       live := w.live[key := w.live[key].(version := w.revision + 1)],
       history := w.history[(key, w.revision + 1) := obj'])
  }

  /** The history with every object a commit has written. */
  function Written(history: map<(Key, nat), Object>, ov: Buffer, kvs: Objects, rev: nat): map<(Key, nat), Object> {
    history + map k | k in ov && k in kvs :: (k, rev) := kvs[k]
  }

  ghost predicate Commits(w: World, w': World) {
    && w.phase.Ready?
    && var p := w.phase.prepared;
    && Complete(p.ov) && Fits(w.kvs, p.ov)
    && Accepted(w.kvs, p.ov, w.comps + p.comps)
    && (forall k <- p.ov :: p.ov[k].touch ==> k in w.kvs && k in w.live)
    && w'.revision == w.revision + 1
    && w'.kvs == CommitMap(w.kvs, p.ov, w'.revision)
    && w'.live == CommitMap(w.live, p.ov, w'.revision)
    && w'.history == Written(w.history, p.ov, w'.kvs, w'.revision)
    && w'.buffer == map[] && w'.items == [] && w'.comps == w.comps && w'.phase == Idle
  }

  /** The world of a prepared buffer, and the world after it was applied to backend and cache at the next revision. */
  function ReadyWorld(kvs: Objects, rev: nat, live: Objects, history: map<(Key, nat), Object>, p: Prepared,
                      items: seq<Item>, comps: seq<Cmp>): World {
    World(kvs, rev, live, history, p.ov, items, comps, Ready(p, live))
  }

  function RestedWorld(kvs: Objects, rev: nat, live: Objects, history: map<(Key, nat), Object>, ov: Buffer,
                       comps: seq<Cmp>): World {
    World(kvs, rev, live, Written(history, ov, kvs, rev), map[], [], comps, Idle)
  }

  lemma CommitIsStep(kvs: Objects, rev: nat, live: Objects, history: map<(Key, nat), Object>, p: Prepared,
                     items: seq<Item>, comps: seq<Cmp>)
    requires Complete(p.ov) && Fits(kvs, p.ov) && Accepted(kvs, p.ov, comps + p.comps)
    requires forall k <- p.ov :: p.ov[k].touch ==> k in live
    ensures Step(ReadyWorld(kvs, rev, live, history, p, items, comps), CommitSucceeds,
                 RestedWorld(CommitMap(kvs, p.ov, rev + 1), rev + 1, CommitMap(live, p.ov, rev + 1), history, p.ov, comps))
  {
    assert forall k <- p.ov :: Carries(p.ov[k]) && FitsAt(kvs, k, p.ov[k]);
  }

  ghost predicate IsRun(run: seq<World>, ops: seq<Op>) {
    && |run| == |ops| + 1
    && run[0] == Start
    && forall i | 0 <= i < |ops| :: StepAt(run, ops, i)
  }

  ghost predicate StepAt(run: seq<World>, ops: seq<Op>, i: nat)
    requires i < |ops| && |run| == |ops| + 1
  {
    Step(run[i], ops[i], run[i + 1])
  }

  /** The cache has the object of a key with other content than the backend. */
  predicate Stale(w: World, key: Key) {
    key in w.kvs && key in w.live && Bare(w.live[key]) != Bare(w.kvs[key])
  }

  predicate Touches(w: World, op: Op, key: Key) {
    op == OtherTouch(key) ||
    (op.CommitSucceeds? && w.phase.Ready? && key in w.phase.prepared.ov && w.phase.prepared.ov[key].touch)
  }

  /** No operation before `i` touches the key while the cache has it out of date. */
  ghost predicate NoStaleTouch(run: seq<World>, ops: seq<Op>, i: nat, key: Key)
    requires i <= |ops| < |run|
  {
    forall m | 0 <= m < i :: Touches(run[m], ops[m], key) ==> !Stale(run[m], key)
  }

  // ---- Versions identify the objects of a key ----

  ghost predicate KnownAt(history: map<(Key, nat), Object>, m: Objects, key: Key) {
    key in m ==> m[key].version > 0 && (key, m[key].version) in history && history[(key, m[key].version)] == m[key]
  }

  ghost predicate HistoryOk(history: map<(Key, nat), Object>, revision: nat) {
    forall p <- history :: 0 < p.1 <= revision && history[p].version == p.1
  }

  /** The buffer that is ready was prepared from objects the backend has held. */
  ghost predicate PhaseOk(w: World, key: Key) {
    w.phase.Ready? ==>
      && KnownAt(w.history, w.phase.read, key) && w.phase.prepared.ok
      && exists ov :: w.phase.prepared == Prepare(ov, w.items, w.phase.read)
  }

  ghost predicate Coherent(w: World, key: Key) {
    HistoryOk(w.history, w.revision) && KnownAt(w.history, w.kvs, key) && KnownAt(w.history, w.live, key) && PhaseOk(w, key)
  }

  lemma PutCoherent(w: World, k: Key, obj: Object, key: Key)
    requires Coherent(w, key)
    ensures var obj' := obj.(version := w.revision + 1);
            Coherent(w.(kvs := w.kvs[k := obj'], revision := w.revision + 1,
                        history := w.history[(k, w.revision + 1) := obj']), key)
  {
  }

  lemma TouchCoherent(w: World, k: Key, key: Key)
    requires Coherent(w, key) && k in w.kvs && k in w.live && (k == key ==> !Stale(w, key))
    ensures Coherent(Touched(w, k), key)
  {
    if k == key {
      assert w.live[key].(version := w.revision + 1) == w.kvs[key].(version := w.revision + 1) by {
        assert Bare(w.live[key]) == Bare(w.kvs[key]);
      }
    }
  }

  lemma WrittenKeeps(w: World, ov: Buffer, kvs: Objects, rev: nat)
    requires HistoryOk(w.history, w.revision) && rev == w.revision + 1
    requires forall k <- ov :: k in kvs ==> kvs[k].version == rev
    ensures HistoryOk(Written(w.history, ov, kvs, rev), rev)
    ensures forall p <- w.history :: p in Written(w.history, ov, kvs, rev) && Written(w.history, ov, kvs, rev)[p] == w.history[p]
    ensures forall k <- ov :: k in kvs ==> KnownAt(Written(w.history, ov, kvs, rev), kvs, k)
  {
  }

  lemma CommittedVersion(w: World, w': World, k: Key)
    requires Commits(w, w') && k in w.phase.prepared.ov && k in w'.kvs
    ensures w'.kvs[k].version == w'.revision
  {
    var ov := w.phase.prepared.ov;
    assert Carries(ov[k]) && FitsAt(w.kvs, k, ov[k]);
  }

  lemma CommittedAt(w: World, w': World, key: Key)
    requires Commits(w, w') && (Touches(w, CommitSucceeds, key) ==> !Stale(w, key))
    ensures var ov := w.phase.prepared.ov;
            && (key in ov && key in w'.live ==> key in w'.kvs && w'.live[key] == w'.kvs[key])
            && (key !in ov && key in w'.kvs ==> key in w.kvs && w'.kvs[key] == w.kvs[key])
            && (key !in ov && key in w'.live ==> key in w.live && w'.live[key] == w.live[key])
  {
    var ov := w.phase.prepared.ov;
    if key in ov {
      assert Carries(ov[key]) && FitsAt(w.kvs, key, ov[key]);
      if ov[key].touch { assert Bare(w.live[key]) == Bare(w.kvs[key]); }
    }
  }

  lemma CommitCoherent(w: World, w': World, key: Key)
    requires Coherent(w, key) && Commits(w, w') && (Touches(w, CommitSucceeds, key) ==> !Stale(w, key))
    ensures Coherent(w', key)
  {
    var ov := w.phase.prepared.ov;
    forall k <- ov | k in w'.kvs ensures w'.kvs[k].version == w'.revision { CommittedVersion(w, w', k); }
    CommittedAt(w, w', key);
    WrittenKeeps(w, ov, w'.kvs, w'.revision);
  }

  lemma StepCoherent(w: World, op: Op, w': World, key: Key)
    requires Coherent(w, key) && Step(w, op, w') && (Touches(w, op, key) ==> !Stale(w, key))
    ensures Coherent(w', key)
  {
    match op
    case OtherPut(k, obj) => PutCoherent(w, k, obj, key);
    case OtherDelete(_) =>
    case OtherTouch(k) => TouchCoherent(w, k, key);
    case Follow(_, _) =>
    case Forget(_) =>
    case Stage(_, _, _) =>
    case PrepareCommit =>
    case CommitFails =>
    case CommitSucceeds => CommitCoherent(w, w', key);
  }

  lemma {:induction false} RunCoherent(run: seq<World>, ops: seq<Op>, i: nat, key: Key)
    requires IsRun(run, ops) && i < |run| && NoStaleTouch(run, ops, i, key)
    ensures Coherent(run[i], key)
  {
    if i > 0 {
      RunCoherent(run, ops, i - 1, key);
      assert StepAt(run, ops, i - 1);
      StepCoherent(run[i - 1], ops[i - 1], run[i], key);
    }
  }

  // ---- What the preparation leaves for an item ----

  /** An item that no later item on the same key overrides, checked against the version it read. */
  ghost predicate Decides(items: seq<Item>, i: nat) {
    && i < |items| && items[i].resVer.None?
    && forall j | i < j < |items| :: items[j].key != items[i].key
  }

  lemma {:induction false} PreparedItem(ov: Buffer, items: seq<Item>, live: Objects, i: nat)
    requires Decides(items, i) && Prepare(ov, items, live).ok
    ensures var p, item := Prepare(ov, items, live), items[i];
            && item.key in live && item.fn(live[item.key]).Some?
            && item.key in p.ov && p.ov[item.key].oper == UpdateOper && !p.ov[item.key].touch
            && p.ov[item.key].val == Some(item.fn(live[item.key]).value)
            && Cmp(item.key, Equal, live[item.key].version) in p.comps
  {
    var n := |items| - 1;
    if i < n {
      assert items[n].key != items[i].key;
      PreparedItem(ov, items[..n], live, i);
    }
  }

  /** Every item is compared, with the version it names or else the one that was read; other keys stay as staged. */
  lemma {:induction false} EveryItemCompared(ov: Buffer, items: seq<Item>, live: Objects, i: nat)
    requires i < |items| && Prepare(ov, items, live).ok
    ensures items[i].key in live
    ensures var v := if items[i].resVer.Some? then items[i].resVer.value else live[items[i].key].version;
            Cmp(items[i].key, Equal, v) in Prepare(ov, items, live).comps
  {
    var n := |items| - 1;
    if i < n { EveryItemCompared(ov, items[..n], live, i); }
  }

  lemma {:induction false} PreparedOthers(ov: Buffer, items: seq<Item>, live: Objects, key: Key)
    ensures (forall i | 0 <= i < |items| :: items[i].key != key) ==>
              (key in Prepare(ov, items, live).ov <==> key in ov) && (key in ov ==> Prepare(ov, items, live).ov[key] == ov[key])
    ensures key in ov ==> key in Prepare(ov, items, live).ov
    ensures key in Prepare(ov, items, live).ov ==> Prepare(ov, items, live).ov[key].primary == (key in ov && ov[key].primary)
  {
    if items != [] {
      var n := |items| - 1;
      PreparedOthers(ov, items[..n], live, key);
      assert (forall i | 0 <= i < |items| :: items[i].key != key) ==> items[n].key != key;
      assert forall i | 0 <= i < n :: items[..n][i] == items[i];
    }
  }

  lemma CommitStoresUpdate(w: World, w': World, i: nat)
    requires Decides(w.items, i) && Coherent(w, w.items[i].key) && Commits(w, w')
    ensures var item := w.items[i];
            && item.key in w.kvs && item.fn(w.kvs[item.key]).Some?
            && item.key in w'.kvs
            && w'.kvs[item.key] == item.fn(w.kvs[item.key]).value.(version := w'.revision)
  {
    var item, p, read := w.items[i], w.phase.prepared, w.phase.read;
    var ov :| p == Prepare(ov, w.items, read);
    PreparedItem(ov, w.items, read, i);
    var c := Cmp(item.key, Equal, read[item.key].version);
    assert c in w.comps + p.comps && !Redundant(p.ov, c);
    assert Holds(w.kvs, c) && KnownAt(w.history, read, item.key);
    assert w.kvs[item.key] == read[item.key];
  }

  /**
   No lost update. In every run, a commit that succeeds has written, for every consistent
   update staged without a version override and not overridden in the same buffer, the
   update of exactly the object that was in the backend just before that commit, unless the
   key was touched before while the cache had it out of date.
   */
  lemma NoUpdateLost(run: seq<World>, ops: seq<Op>, i: nat, n: nat)
    requires IsRun(run, ops) && i < |ops| && ops[i].CommitSucceeds? && Decides(run[i].items, n)
    requires NoStaleTouch(run, ops, i, run[i].items[n].key)
    ensures var item := run[i].items[n];
            && item.key in run[i].kvs && item.fn(run[i].kvs[item.key]).Some?
            && item.key in run[i + 1].kvs
            && run[i + 1].kvs[item.key] == item.fn(run[i].kvs[item.key]).value.(version := run[i + 1].revision)
  {
    RunCoherent(run, ops, i, run[i].items[n].key);
    assert StepAt(run, ops, i);
    CommitStoresUpdate(run[i], run[i + 1], n);
  }

  /** What a commit leaves in the backend is what the prepared buffer showed over it. */
  lemma CommittedView(w: World, w': World)
    requires Commits(w, w')
    ensures Bares(w'.kvs) == View(w.kvs, w.phase.prepared.ov)
  {
    CommitRealisesView(w.kvs, w.phase.prepared.ov, w'.revision);
  }

  // ---- Where an update is lost ----

  lemma PrepareMore(ov: Buffer, items: seq<Item>, item: Item, live: Objects)
    ensures Prepare(ov, items + [item], live) == PrepareItem(Prepare(ov, items, live), item, live)
  {
    assert (items + [item])[..|items|] == items;
  }

  lemma PrepareOne(ov: Buffer, item: Item, live: Objects)
    ensures Prepare(ov, [item], live) == PrepareItem(Prepared(ov, [], true), item, live)
  {
    PrepareMore(ov, [], item, live);
    assert [] + [item] == [item];
  }

  /** What the backend holds when one update of a key has been prepared and committed. */
  function AfterUpdate(w: World, key: Key, fn: UpdateFn): Objects {
    CommitMap(w.kvs, Prepare(map[], [Item(key, fn, None)], w.live).ov, w.revision + 1)
  }

  /** The update was accepted and is not the update of what the backend held. */
  ghost predicate Loses(w: World, key: Key, fn: UpdateFn) {
    && key in w.kvs && key in w.live && fn(w.live[key]).Some? && fn(w.kvs[key]).Some?
    && var p := Prepare(map[], [Item(key, fn, None)], w.live);
    && p.ok && Accepted(w.kvs, p.ov, p.comps)
    && (key in AfterUpdate(w, key, fn) ==>
          Bare(AfterUpdate(w, key, fn)[key]) != Bare(fn(w.kvs[key]).value))
  }

  function Same(o: Object): Option<Object> {
    Some(o)
  }

  lemma UpdateOfCached(w: World, key: Key, fn: UpdateFn)
    requires key in w.kvs && key in w.live && fn(w.live[key]).Some?
    ensures var p := Prepare(map[], [Item(key, fn, None)], w.live);
            && p.ok && (Accepted(w.kvs, p.ov, p.comps) <==> w.live[key].version == w.kvs[key].version)
            && key in AfterUpdate(w, key, fn) && Bare(AfterUpdate(w, key, fn)[key]) == Bare(fn(w.live[key]).value)
  {
    PrepareOne(map[], Item(key, fn, None), w.live);
    var p, c := Prepare(map[], [Item(key, fn, None)], w.live), Cmp(key, Equal, w.live[key].version);
    assert p.comps == [c] && c in p.comps && !Redundant(p.ov, c);
  }

  /**
   In every world an update of a key can be lost exactly if the cache has the object with
   other content than the backend under the same version. Then even the update that changes
   nothing puts the outdated object back.
   */
  lemma LosesIff(w: World, key: Key)
    requires key in w.kvs && key in w.live
    ensures (exists fn :: Loses(w, key, fn)) <==> Stale(w, key) && w.live[key].version == w.kvs[key].version
  {
    if Stale(w, key) && w.live[key].version == w.kvs[key].version {
      UpdateOfCached(w, key, Same);
      assert Loses(w, key, Same);
    } else {
      forall fn: UpdateFn ensures !Loses(w, key, fn) {
        if fn(w.live[key]).Some? {
          UpdateOfCached(w, key, fn);
          if w.live[key].version == w.kvs[key].version { SameObject(w.live[key], w.kvs[key]); }
        }
      }
    }
  }

  lemma SameObject(a: Object, b: Object)
    requires Bare(a) == Bare(b) && a.version == b.version
    ensures a == b
  {
  }

  /** Right after a touch, which makes the versions equal, none can be lost exactly if the cache was not out of date. */
  lemma TouchSafeIff(w: World, key: Key)
    requires key in w.kvs && key in w.live
    ensures (forall fn :: !Loses(Touched(w, key), key, fn)) <==> !Stale(w, key)
  {
    var w1 := Touched(w, key);
    LosesIff(w1, key);
    assert Bare(w1.live[key]) == Bare(w.live[key]) && Bare(w1.kvs[key]) == Bare(w.kvs[key]);
  }

  function SameItem(key: Key): Item {
    Item(key, Same, None)
  }

  /** The worlds in which the update that changes nothing is staged, prepared and committed. */
  function StagedSame(w: World, key: Key): World {
    w.(buffer := map[], items := [SameItem(key)], comps := [])
  }

  function ReadySame(w: World, key: Key): World {
    var p := Prepare(map[], [SameItem(key)], w.live);
    StagedSame(w, key).(buffer := p.ov, phase := Ready(p, w.live))
  }

  function CommittedSame(w: World, key: Key): World {
    var ov, rev := Prepare(map[], [SameItem(key)], w.live).ov, w.revision + 1;
    var kvs := CommitMap(w.kvs, ov, rev);
    World(kvs, rev, CommitMap(w.live, ov, rev), Written(w.history, ov, kvs, rev), map[], [], [], Idle)
  }

  /** It is accepted when cache and backend agree on the version, and stores the object the cache had. */
  lemma SameCommits(w: World, key: Key)
    requires w.phase == Idle && key in w.kvs && key in w.live && w.live[key].version == w.kvs[key].version
    ensures Step(w, Stage(map[], [SameItem(key)], []), StagedSame(w, key))
    ensures Step(StagedSame(w, key), PrepareCommit, ReadySame(w, key))
    ensures Step(ReadySame(w, key), CommitSucceeds, CommittedSame(w, key))
    ensures key in CommittedSame(w, key).kvs && Bare(CommittedSame(w, key).kvs[key]) == Bare(w.live[key])
  {
    PrepareOne(map[], SameItem(key), w.live);
    var p := Prepare(map[], [SameItem(key)], w.live);
    assert p.ov.Keys == {key} && p.ov[key].oper == UpdateOper && p.comps == [Cmp(key, Equal, w.live[key].version)];
    assert [] + p.comps == p.comps;
  }

  /** The cache has seen the first put of a key and missed the second. */
  function Behind(x: Object, y: Object): World {
    var x1, y2 := x.(version := 1), y.(version := 2);
    Start.(kvs := map["/a" := y2], live := map["/a" := x1], revision := 2, history := map[("/a", 1) := x1, ("/a", 2) := y2])
  }

  function FallBehind(x: Object, y: Object): seq<World> {
    var x1 := x.(version := 1);
    var w1 := Start.(kvs := map["/a" := x1], revision := 1, history := map[("/a", 1) := x1]);
    [Start, w1, w1.(live := map["/a" := x1]), Behind(x, y)]
  }

  lemma FallsBehind(x: Object, y: Object)
    ensures var ws := FallBehind(x, y);
            && Step(ws[0], OtherPut("/a", x), ws[1]) && Step(ws[1], Follow("/a", 1), ws[2])
            && Step(ws[2], OtherPut("/a", y), ws[3])
  {
  }

  /** A run goes on by a step. */
  lemma OneMoreStep(run: seq<World>, ops: seq<Op>, op: Op, w: World)
    requires IsRun(run, ops) && Step(run[|ops|], op, w)
    ensures IsRun(run + [w], ops + [op])
  {
    forall i | 0 <= i < |ops + [op]| ensures StepAt(run + [w], ops + [op], i) {
      if i < |ops| { assert StepAt(run, ops, i); }
    }
  }

  /** The run up to the touch: the cache has missed a put. */
  lemma BehindRun(x: Object, y: Object) returns (run: seq<World>, ops: seq<Op>)
    ensures IsRun(run, ops) && |ops| == 3 && run[3] == Behind(x, y)
  {
    var ws := FallBehind(x, y);
    FallsBehind(x, y);
    assert IsRun([Start], []);
    OneMoreStep([Start], [], OtherPut("/a", x), ws[1]);
    run, ops := [Start] + [ws[1]], [] + [OtherPut("/a", x)];
    OneMoreStep(run, ops, Follow("/a", 1), ws[2]);
    run, ops := run + [ws[2]], ops + [Follow("/a", 1)];
    OneMoreStep(run, ops, OtherPut("/a", y), ws[3]);
    run, ops := run + [ws[3]], ops + [OtherPut("/a", y)];
  }

  /** The run from a touch on: an update is staged, prepared and committed. */
  lemma CommitRun(run0: seq<World>, ops0: seq<Op>, key: Key) returns (run: seq<World>, ops: seq<Op>)
    requires IsRun(run0, ops0) && run0[|ops0|].phase == Idle
    requires var w := run0[|ops0|]; key in w.kvs && key in w.live && w.live[key].version == w.kvs[key].version
    ensures IsRun(run, ops) && |ops| == |ops0| + 3 && ops[..|ops0|] == ops0 && run[..|run0|] == run0
    ensures var n, w := |ops0|, run0[|ops0|];
            ops[n + 2] == CommitSucceeds && run[n + 2] == ReadySame(w, key) && run[n + 3] == CommittedSame(w, key)
  {
    var w := run0[|ops0|];
    SameCommits(w, key);
    OneMoreStep(run0, ops0, Stage(map[], [SameItem(key)], []), StagedSame(w, key));
    run, ops := run0 + [StagedSame(w, key)], ops0 + [Stage(map[], [SameItem(key)], [])];
    OneMoreStep(run, ops, PrepareCommit, ReadySame(w, key));
    run, ops := run + [ReadySame(w, key)], ops + [PrepareCommit];
    OneMoreStep(run, ops, CommitSucceeds, CommittedSame(w, key));
    run, ops := run + [CommittedSame(w, key)], ops + [CommitSucceeds];
  }

  lemma TouchRun(x: Object, y: Object) returns (run: seq<World>, ops: seq<Op>)
    ensures IsRun(run, ops) && |ops| == 4 && run[3] == Behind(x, y) && ops[3] == OtherTouch("/a")
    ensures run[4] == Touched(Behind(x, y), "/a")
  {
    run, ops := BehindRun(x, y);
    OneMoreStep(run, ops, OtherTouch("/a"), Touched(Behind(x, y), "/a"));
    run, ops := run + [Touched(Behind(x, y), "/a")], ops + [OtherTouch("/a")];
  }

  /** A run in which an update is lost: the cache misses a put, the key is touched, and an update is committed. */
  lemma LostUpdateRun(x: Object, y: Object) returns (run: seq<World>, ops: seq<Op>)
    requires Bare(x) != Bare(y)
    ensures IsRun(run, ops) && |ops| == 7 && ops[6].CommitSucceeds?
    ensures run[6].items == [SameItem("/a")] && "/a" in run[6].kvs && "/a" in run[7].kvs
    ensures Bare(run[6].kvs["/a"]) == Bare(y) && Bare(run[7].kvs["/a"]) == Bare(x)
    ensures Stale(run[3], "/a") && Touches(run[3], ops[3], "/a")
  {
    var w := Touched(Behind(x, y), "/a");
    var run0, ops0 := TouchRun(x, y);
    run, ops := CommitRun(run0, ops0, "/a");
    SameCommits(w, "/a");
    assert run[3] == run[..5][3] && ops[3] == ops[..4][3];
  }

  // ---- Several updates of one key ----

  /** The last item on a key is the one whose update is staged. */
  ghost predicate LastOn(items: seq<Item>, i: nat) {
    i < |items| && forall j | i < j < |items| :: items[j].key != items[i].key
  }

  lemma {:induction false} LastItemStaged(ov: Buffer, items: seq<Item>, live: Objects, i: nat)
    requires LastOn(items, i) && Prepare(ov, items, live).ok
    ensures var p, item := Prepare(ov, items, live), items[i];
            && item.key in live && item.fn(live[item.key]).Some?
            && item.key in p.ov && p.ov[item.key].val == Some(item.fn(live[item.key]).value)
  {
    var n := |items| - 1;
    if i < n {
      assert items[n].key != items[i].key;
      LastItemStaged(ov, items[..n], live, i);
    }
  }

  /** The items with the function of one of them replaced. */
  function WithFn(items: seq<Item>, j: nat, fn: UpdateFn): seq<Item>
    requires j < |items|
  {
    items[j := items[j].(fn := fn)]
  }

  /** The items can be prepared: every object is in the cache and every function accepts its object. */
  ghost predicate Preparable(items: seq<Item>, live: Objects) {
    forall j | 0 <= j < |items| :: items[j].key in live && items[j].fn(live[items[j].key]).Some?
  }

  lemma {:induction false} PreparableOk(ov: Buffer, items: seq<Item>, live: Objects)
    requires Preparable(items, live)
    ensures Prepare(ov, items, live).ok
  {
    if items != [] {
      var n := |items| - 1;
      assert Preparable(items[..n], live);
      PreparableOk(ov, items[..n], live);
    }
  }

  lemma {:induction false} LastExists(items: seq<Item>, i: nat, j: nat) returns (l: nat)
    requires i < j < |items| && items[j].key == items[i].key
    ensures i < l < |items| && items[l].key == items[i].key && LastOn(items, l)
    decreases |items| - j
  {
    l := j;
    if m :| j < m < |items| && items[m].key == items[j].key {
      l := LastExists(items, i, m);
    }
  }

  /** What is staged for the key of item `i` is its update, whatever functions the other items have. */
  ghost predicate AlwaysStaged(ov: Buffer, items: seq<Item>, live: Objects, i: nat)
    requires i < |items| && Preparable(items, live)
  {
    forall j, fn: UpdateFn | 0 <= j < |items| && j != i && fn(live[items[j].key]).Some? ::
      StagesItem(ov, WithFn(items, j, fn), live, i)
  }

  ghost predicate StagesItem(ov: Buffer, items: seq<Item>, live: Objects, i: nat)
    requires i < |items|
  {
    var p, key := Prepare(ov, items, live), items[i].key;
    p.ok && key in live && key in p.ov && p.ov[key].val == items[i].fn(live[key])
  }

  /**
   Of the consistent updates of one key in a buffer only the last takes effect: an item
   decides what is staged for its key, whatever the other items do, exactly if no later
   item has its key.
   */
  lemma LaterItemWins(ov: Buffer, items: seq<Item>, live: Objects, i: nat)
    requires Preparable(items, live) && i < |items|
    ensures AlwaysStaged(ov, items, live, i) <==> LastOn(items, i)
  {
    if LastOn(items, i) {
      forall j, fn: UpdateFn | 0 <= j < |items| && j != i && fn(live[items[j].key]).Some?
        ensures StagesItem(ov, WithFn(items, j, fn), live, i)
      {
        var items' := WithFn(items, j, fn);
        assert Preparable(items', live) && LastOn(items', i);
        PreparableOk(ov, items', live);
        LastItemStaged(ov, items', live, i);
      }
    } else {
      var j :| i < j < |items| && items[j].key == items[i].key;
      OtherStaged(ov, items, live, i, j);
    }
  }

  lemma OtherStaged(ov: Buffer, items: seq<Item>, live: Objects, i: nat, j: nat)
    requires Preparable(items, live) && i < j < |items| && items[j].key == items[i].key
    ensures !AlwaysStaged(ov, items, live, i)
  {
    var l := LastExists(items, i, j);
    var o := items[i].fn(live[items[i].key]).value;
    var other := o.(body := o.body + "x");
    assert |other.body| != |o.body|;
    var fn: UpdateFn := _ => Some(other);
    var items' := WithFn(items, l, fn);
    assert Preparable(items', live) && LastOn(items', l);
    PreparableOk(ov, items', live);
    LastItemStaged(ov, items', live, l);
    assert !StagesItem(ov, items', live, i);
  }

  /**
   A delete staged over a consistent update is undone when the buffer is committed: the key
   the buffer no longer shows is updated and stays. A commit deletes the key exactly if no
   item of the buffer is for it.
   */
  lemma {:induction false} StagedDeleteKeptIff(base: Objects, ov: Buffer, items: seq<Item>, live: Objects, key: Key, rev: nat)
    requires key in ov && ov[key].oper == DeleteOper && Prepare(ov, items, live).ok
    ensures key !in View(base, ov)
    ensures var p := Prepare(ov, items, live);
            && key in p.ov && (p.ov[key].oper == DeleteOper <==> forall i | 0 <= i < |items| :: items[i].key != key)
            && (key !in CommitMap(base, p.ov, rev) <==> forall i | 0 <= i < |items| :: items[i].key != key)
  {
    if items != [] {
      var n := |items| - 1;
      StagedDeleteKeptIff(base, ov, items[..n], live, key, rev);
      var q := Prepare(ov, items[..n], live);
      assert Prepare(ov, items, live) == PrepareItem(q, items[n], live);
      assert (forall i | 0 <= i < |items| :: items[i].key != key) <==>
             items[n].key != key && (forall i | 0 <= i < n :: items[..n][i].key != key);
    }
  }
}
