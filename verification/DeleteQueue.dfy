/**
 The objects the store keeps, and the queue of deleted ones: a binary heap ordered by the
 time of the last update in which every object knows its own position.
 */
module DeleteQueue {
  import opened Wrappers
  import opened StoreModel

  /** What the map holds for a key: the entry, and where the object is in the queue. */
  class CacheObj {
    const key: Key
    var entry: Entry
    var inDelQ: bool
    var delQId: nat

    constructor (key: Key, rev: nat, obj: Object, now: nat)
      ensures this.key == key && !inDelQ && entry == NewEntry(rev, obj, now)
    {
      this.key, entry := key, Entry(rev, obj, now, false, map[], [], 0);
      inDelQ, delQId := false, 0;
    }

    /** Saving for a snapshot older than the last one saved for panics and changes nothing. */
    method SaveVersion(snapshotVer: nat) returns (added: bool, panicked: bool)
      modifies `entry
      ensures panicked == Backpedals(old(entry), snapshotVer)
      ensures panicked ==> !added && entry == old(entry)
      ensures !panicked ==> entry == AddVersion(old(entry), snapshotVer) && added == NeedsVersion(old(entry), snapshotVer)
    {
      if snapshotVer == 0 {
        return false, false;
      }
      if entry.lastSnapshot > snapshotVer {
        return false, true;
      }
      if entry.lastSnapshot != snapshotVer {
        var saved := Mvcc(entry.deleted, Some(entry.obj), snapshotVer, entry.revision);
        entry := entry.(snapshots := entry.snapshots[snapshotVer := saved],
                        lastSnapshot := snapshotVer,
                        snapshotList := entry.snapshotList + [snapshotVer]);
        return true, false;
      }
      return false, false;
    }

    method DropVersion(rev: nat) returns (dropped: bool)
      modifies `entry
      ensures dropped == (rev in old(entry).snapshots)
      ensures entry == old(entry).(snapshots := old(entry).snapshots - {rev})
    {
      dropped := rev in entry.snapshots;
      if dropped {
        entry := entry.(snapshots := entry.snapshots - {rev});
      } else {
        assert entry.snapshots - {rev} == entry.snapshots;
      }
    }

    method FindVersion(rev: nat) returns (v: Option<Mvcc>)
      ensures v == GetVersion(entry, rev)
    {
      if rev in entry.snapshots {
        return Some(entry.snapshots[rev]);
      }
      var prev: Option<Mvcc> := None;
      for i := 0 to |entry.snapshotList|
        invariant BestMatch(entry, rev, 0, None) == BestMatch(entry, rev, i, prev)
      {
        var s := entry.snapshotList[i];
        var at := if s in entry.snapshots then entry.snapshots[s] else ZeroMvcc;
        if s > rev {
          return if at.objRev <= rev then Some(at) else prev;
        }
        prev := Some(at);
      }
      return None;
    }
  }

  // ---- The order of a heap, on the sequence of its times ----

  predicate IsChild(p: nat, c: nat) {
    c == 2 * p + 1 || c == 2 * p + 2
  }

  ghost predicate Ordered(t: seq<nat>) {
    forall p: nat, c: nat | IsChild(p, c) && c < |t| :: t[p] <= t[c]
  }

  /** Ordered but for position `i`, whose parent and children are in order with each other. */
  ghost predicate OrderedBut(t: seq<nat>, i: nat) {
    && (forall p: nat, c: nat | IsChild(p, c) && c < |t| && p != i && c != i :: t[p] <= t[c])
    && (forall p: nat, c: nat | IsChild(p, i) && IsChild(i, c) && c < |t| :: t[p] <= t[c])
  }

  ghost predicate ChildrenOk(t: seq<nat>, i: nat) {
    forall c: nat | IsChild(i, c) && c < |t| :: t[i] <= t[c]
  }

  ghost predicate ParentOk(t: seq<nat>, i: nat)
    requires i < |t|
  {
    forall p: nat | IsChild(p, i) :: t[p] <= t[i]
  }

  function Swapped<T>(s: seq<T>, i: nat, j: nat): seq<T>
    requires i < |s| && j < |s|
  {
    s[i := s[j]][j := s[i]]
  }

  lemma SwapUp(t: seq<nat>, i: nat, j: nat)
    requires j < |t| && IsChild(i, j) && t[j] <= t[i] && OrderedBut(t, j) && ChildrenOk(t, j)
    ensures OrderedBut(Swapped(t, i, j), i) && ChildrenOk(Swapped(t, i, j), i)
  {
  }

  lemma SwapDown(t: seq<nat>, i: nat, j: nat)
    requires j < |t| && IsChild(i, j) && t[j] <= t[i] && OrderedBut(t, i)
    requires forall c: nat | IsChild(i, c) && c < |t| :: t[j] <= t[c]
    ensures OrderedBut(Swapped(t, i, j), j) && ParentOk(Swapped(t, i, j), j)
  {
    assert forall c: nat | IsChild(j, c) && c < |t| :: t[j] <= t[c];
  }

  lemma OrderedAt(t: seq<nat>, i: nat)
    requires i < |t| && OrderedBut(t, i) && ChildrenOk(t, i) && ParentOk(t, i)
    ensures Ordered(t)
  {
  }

  /** Moving the last time to the place that is out of order leaves the rest in order. */
  lemma LastMovedTo(t: seq<nat>, i: nat)
    requires i < |t| && OrderedBut(t, i)
    ensures i < |t| - 1 ==> OrderedBut(t[..|t| - 1][i := t[|t| - 1]], i)
    ensures i == |t| - 1 ==> Ordered(t[..|t| - 1])
  {
  }

  /** Putting another time in one place leaves the rest in order. */
  lemma ReplacedAt(t: seq<nat>, i: nat, x: nat)
    requires i < |t| && Ordered(t)
    ensures OrderedBut(t[i := x], i)
  {
  }

  lemma ExtendedBy(t: seq<nat>, x: nat)
    requires Ordered(t)
    ensures OrderedBut(t + [x], |t|) && ChildrenOk(t + [x], |t|)
  {
  }

  /** The first of a heap is the oldest. */
  lemma {:induction false} FirstIsLeast(t: seq<nat>, i: nat)
    requires i < |t| && Ordered(t)
    ensures t[0] <= t[i]
  {
    if i > 0 {
      assert IsChild((i - 1) / 2, i);
      FirstIsLeast(t, (i - 1) / 2);
    }
  }

  ghost predicate AreTimes(t: seq<nat>, l: seq<CacheObj>)
    reads l`entry
  {
    |t| == |l| && forall i | 0 <= i < |l| :: t[i] == l[i].entry.lastUpd
  }

  lemma TimesExist(l: seq<CacheObj>)
    ensures exists t :: AreTimes(t, l)
  {
    if l == [] {
      assert AreTimes([], l);
    } else {
      TimesExist(l[..|l| - 1]);
      var t :| AreTimes(t, l[..|l| - 1]);
      assert AreTimes(t + [l[|l| - 1].entry.lastUpd], l);
    }
  }

  ghost function TimesOf(l: seq<CacheObj>): (t: seq<nat>)
    reads l`entry
    ensures AreTimes(t, l)
  {
    TimesExist(l);
    var t :| AreTimes(t, l);
    t
  }

  class DelPendingHeap {
    var l: seq<CacheObj>

    constructor ()
      ensures l == []
    {
      l := [];
    }

    ghost function Items(): set<CacheObj>
      reads `l
    {
      set o | o in l
    }

    ghost function Times(): seq<nat>
      reads `l, l`entry
    {
      TimesOf(l)
    }

    /** Every object knows its position, so no object is queued twice. */
    ghost predicate Positioned()
      reads `l, l`delQId
    {
      forall i | 0 <= i < |l| :: l[i].delQId == i
    }

    ghost predicate Valid()
      reads `l, l`delQId, l`entry, l`inDelQ
    {
      && Positioned()
      && Ordered(Times())
      && (forall o <- l :: o.inDelQ)
    }

    method Swap(i: nat, j: nat)
      requires i < |l| && j < |l| && Positioned()
      modifies `l, Items()`delQId
      ensures Positioned() && l == Swapped(old(l), i, j) && Times() == Swapped(old(Times()), i, j)
      ensures Items() == old(Items())
    {
      var a, b := l[i], l[j];
      a.delQId := j;
      b.delQId := i;
      l := l[i := b][j := a];
      assert l[i] == old(l)[j] && l[j] == old(l)[i];
      assert forall k | 0 <= k < |l| && k != i && k != j :: l[k] == old(l)[k];
    }

    method Up(j0: nat)
      requires j0 < |l| && Positioned() && OrderedBut(Times(), j0) && ChildrenOk(Times(), j0)
      modifies `l, Items()`delQId
      ensures Positioned() && Items() == old(Items()) && |l| == old(|l|) && Ordered(Times())
    {
      var j: nat := j0;
      while j > 0 && l[j].entry.lastUpd < l[(j - 1) / 2].entry.lastUpd
        invariant j < |l| == old(|l|) && Positioned() && Items() == old(Items())
        invariant OrderedBut(Times(), j) && ChildrenOk(Times(), j)
        decreases j
      {
        var i := (j - 1) / 2;
        SwapUp(Times(), i, j);
        Swap(i, j);
        j := i;
      }
      assert forall p: nat | IsChild(p, j) :: p == (j - 1) / 2;
      OrderedAt(Times(), j);
    }

    method LesserChild(i: nat) returns (j: nat)
      requires 2 * i + 1 < |l|
      ensures i < j < |l| && IsChild(i, j)
      ensures forall c: nat | IsChild(i, c) && c < |l| :: Times()[j] <= Times()[c]
    {
      j := 2 * i + 1;
      if j + 1 < |l| && l[j + 1].entry.lastUpd < l[j].entry.lastUpd {
        j := j + 1;
      }
    }

    /** An object changes places with the lesser of its children. */
    method SinkTo(i: nat, j: nat)
      requires i < j < |l| && IsChild(i, j) && Positioned() && OrderedBut(Times(), i) && Times()[j] < Times()[i]
      requires forall c: nat | IsChild(i, c) && c < |l| :: Times()[j] <= Times()[c]
      modifies `l, Items()`delQId
      ensures Positioned() && Items() == old(Items()) && |l| == old(|l|)
      ensures OrderedBut(Times(), j) && ParentOk(Times(), j)
    {
      SwapDown(Times(), i, j);
      Swap(i, j);
    }

    method Down(i0: nat) returns (moved: bool)
      requires i0 < |l| && Positioned() && OrderedBut(Times(), i0)
      modifies `l, Items()`delQId
      ensures Positioned() && Items() == old(Items()) && |l| == old(|l|)
      ensures moved ==> Ordered(Times())
      ensures !moved ==> OrderedBut(Times(), i0) && ChildrenOk(Times(), i0)
    {
      var i: nat := i0;
      while 2 * i + 1 < |l|
        invariant i0 <= i < |l| == old(|l|) && Positioned() && Items() == old(Items())
        invariant OrderedBut(Times(), i) && (i > i0 ==> ParentOk(Times(), i))
        invariant 2 * i + 1 >= |l| ==> ChildrenOk(Times(), i)
        decreases |l| - i
      {
        var j := LesserChild(i);
        if l[j].entry.lastUpd >= l[i].entry.lastUpd {
          assert ChildrenOk(Times(), i);
          break;
        }
        SinkTo(i, j);
        i := j;
      }
      moved := i > i0;
      if moved { OrderedAt(Times(), i); }
    }

    method Fix(i: nat)
      requires i < |l| && Positioned() && OrderedBut(Times(), i)
      modifies `l, Items()`delQId
      ensures Positioned() && Items() == old(Items()) && |l| == old(|l|) && Ordered(Times())
    {
      var moved := Down(i);
      if !moved {
        Up(i);
      }
    }

    method Push(o: CacheObj)
      requires Valid() && o !in l && o.inDelQ
      modifies `l, Items()`delQId, o`delQId
      ensures Valid() && Items() == old(Items()) + {o}
    {
      ExtendedBy(Times(), o.entry.lastUpd);
      o.delQId := |l|;
      l := l + [o];
      assert Times() == old(Times()) + [o.entry.lastUpd];
      Fix(o.delQId);
      assert forall x <- l :: x in Items();
    }

    method PopLast() returns (o: CacheObj)
      requires Positioned() && |l| > 0
      modifies `l, {l[|l| - 1]}`delQId, {l[|l| - 1]}`inDelQ
      ensures o == old(l[|l| - 1]) && !o.inDelQ && o !in l && |l| == old(|l|) - 1
      ensures Positioned() && Items() == old(Items()) - {o} && Times() == old(Times())[..|l|]
    {
      o := l[|l| - 1];
      l := l[..|l| - 1];
      o.delQId, o.inDelQ := 0, false;
    }

    /** Takes out the object at position `i` and puts the last one there. */
    method TakeOut(i: nat) returns (o: CacheObj)
      requires Positioned() && i < |l| && OrderedBut(Times(), i)
      modifies `l, Items()`delQId, {l[i]}`inDelQ
      ensures o == old(l[i]) && !o.inDelQ && o !in l && |l| == old(|l|) - 1
      ensures Positioned() && Items() == old(Items()) - {o}
      ensures if i < |l| then OrderedBut(Times(), i) else Ordered(Times())
    {
      LastMovedTo(Times(), i);
      ghost var t, n := Times(), |l| - 1;
      Swap(i, |l| - 1);
      o := PopLast();
      assert Times() == if i < n then t[..n][i := t[n]] else t[..n];
    }

    /** Takes out the object at position `i`, whose time may have changed. */
    method Remove(i: nat) returns (o: CacheObj)
      requires Positioned() && (forall x <- l :: x.inDelQ) && i < |l| && OrderedBut(Times(), i)
      modifies `l, Items()`delQId, {l[i]}`inDelQ
      ensures Valid() && o == old(l[i]) && !o.inDelQ && o !in l && Items() == old(Items()) - {o}
    {
      o := TakeOut(i);
      if i < |l| {
        Fix(i);
      }
      assert forall x :: x in l <==> x in Items();
    }

    /** Takes out the oldest object. */
    method Pop() returns (o: CacheObj)
      requires Valid() && |l| > 0
      modifies `l, Items()`delQId, {l[0]}`inDelQ
      ensures Valid() && o == old(l[0]) && !o.inDelQ && o !in l && Items() == old(Items()) - {o}
      ensures forall x <- l :: x in old(l)
      ensures forall x <- old(l) :: x == o || x in l
    {
      ghost var t := Times();
      assert t == t[0 := t[0]];
      ReplacedAt(t, 0, t[0]);
      o := Remove(0);
      assert forall x :: x in l <==> x in Items();
      assert forall x :: x in old(l) <==> x in old(Items());
    }
  }
}
