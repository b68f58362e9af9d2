/**
 The graph of references between API objects: a set of labelled edges, reconciled with the
 references an object asks for.
 */
module ReferenceGraph {
  import opened Wrappers

  datatype Kind = Strict | Weak | Selector

  datatype Quad = Quad(subject: string, field: string, target: string, kind: Kind)

  datatype Direction = RefIn | RefOut

  type Refs = map<string, seq<string>>

  datatype Node = Node(id: string, dir: Direction, refs: Refs, weakRefs: Refs, selectorRefs: Refs)

  function Lists(n: Node, kind: Kind): Refs {
    match kind
    case Strict => n.refs
    case Weak => n.weakRefs
    case Selector => n.selectorRefs
  }

  predicate Has(m: Refs, p: string, o: string) {
    p in m && o in m[p]
  }

  /** The edge between a node and another, which is the subject when references are followed backwards. */
  function Edge(id: string, dir: Direction, p: string, o: string, kind: Kind): Quad {
    if dir == RefOut then Quad(id, p, o, kind) else Quad(o, p, id, kind)
  }

  function This(q: Quad, dir: Direction): string {
    if dir == RefOut then q.subject else q.target
  }

  function Far(q: Quad, dir: Direction): string {
    if dir == RefOut then q.target else q.subject
  }

  function EdgesOf(quads: set<Quad>, id: string, dir: Direction): set<Quad> {
    set q | q in quads && This(q, dir) == id
  }

  function Append<T>(m: map<string, seq<T>>, p: string, x: T): map<string, seq<T>> {
    m[p := (if p in m then m[p] else []) + [x]]
  }

  /** A list for every field that has edges, each naming the far ends of those edges once. */
  ghost predicate Describes(m: Refs, quads: set<Quad>, id: string, dir: Direction, kind: Kind) {
    && (forall p, o :: Has(m, p, o) <==> Edge(id, dir, p, o, kind) in quads)
    && (forall p <- m :: m[p] != [] && forall i, j | 0 <= i < j < |m[p]| :: m[p][i] != m[p][j])
  }

  lemma DescribesMore(m: Refs, quads: set<Quad>, id: string, dir: Direction, kind: Kind, q: Quad)
    requires Describes(m, quads, id, dir, kind) && q !in quads && This(q, dir) == id
    ensures Describes(if q.kind == kind then Append(m, q.field, Far(q, dir)) else m, quads + {q}, id, dir, kind)
  {
    if q.kind == kind {
      var p := q.field;
      var m' := Append(m, p, Far(q, dir));
      forall p', o ensures Has(m', p', o) <==> Edge(id, dir, p', o, kind) in quads + {q} {
        assert Has(m', p', o) <==> Has(m, p', o) || (p' == p && o == Far(q, dir));
      }
      assert !Has(m, p, Far(q, dir));
    }
  }

  /** No node has two selectors for one field, and no selector is empty. */
  ghost predicate OneSelector(quads: set<Quad>) {
    && (forall q <- quads :: q.kind == Selector ==> q.target != "")
    && forall q, q' | q in quads && q' in quads && q.kind == q'.kind == Selector ::
         q.subject == q'.subject && q.field == q'.field ==> q == q'
  }

  // ---- Differences ----

  /** What is to be added and deleted for one field; an empty selector is none. */
  datatype RefDiff = RefDiff(
    add: set<string>, del: set<string>,
    wadd: set<string>, wdel: set<string>,
    sadd: string, sdel: string)

  const NoDiff := RefDiff({}, {}, {}, {}, "", "")

  type Diffs = map<string, RefDiff>

  function DiffAt(d: Diffs, p: string): RefDiff {
    if p in d then d[p] else NoDiff
  }

  function Targets(m: Refs, p: string): set<string> {
    if p in m then set o | o in m[p] else {}
  }

  /** The first selector is the one that counts. */
  function Selected(m: Refs, p: string): string
    requires p in m ==> m[p] != []
  {
    if p in m then m[p][0] else ""
  }

  ghost predicate NonEmpty(m: Refs) {
    forall p <- m :: m[p] != []
  }

  method SetDiff(old_: seq<string>, new_: seq<string>) returns (add: set<string>, del: set<string>)
    ensures add == (set o | o in new_) - (set o | o in old_) && del == (set o | o in old_) - (set o | o in new_)
  {
    var ns, os: set<string> := {}, {};
    for i := 0 to |new_|
      invariant ns == set o | o in new_[..i]
    {
      ns := ns + {new_[i]};
    }
    for i := 0 to |old_|
      invariant os == set o | o in old_[..i]
    {
      os := os + {old_[i]};
    }
    assert new_[..|new_|] == new_ && old_[..|old_|] == old_;
    return ns - os, os - ns;
  }

  /** The two lists that are compared element by element. */
  function WithDiff(d: RefDiff, kind: Kind, add: set<string>, del: set<string>): RefDiff
    requires kind != Selector
  {
    if kind == Strict then d.(add := add, del := del) else d.(wadd := add, wdel := del)
  }

  function Adds(d: RefDiff, kind: Kind): set<string> {
    match kind
    case Strict => d.add
    case Weak => d.wadd
    case Selector => if d.sadd == "" then {} else {d.sadd}
  }

  function Dels(d: RefDiff, kind: Kind): set<string> {
    match kind
    case Strict => d.del
    case Weak => d.wdel
    case Selector => if d.sdel == "" then {} else {d.sdel}
  }

  function Compared(d: RefDiff, kind: Kind, old_: Refs, new_: Refs, p: string): RefDiff
    requires kind != Selector
  {
    WithDiff(d, kind, Targets(new_, p) - Targets(old_, p), Targets(old_, p) - Targets(new_, p))
  }

  lemma ComparedCases(d: RefDiff, kind: Kind, old_: Refs, new_: Refs, p: string)
    requires kind != Selector && Adds(d, kind) == {} && Dels(d, kind) == {}
    ensures p !in old_ ==> Compared(d, kind, old_, new_, p) == WithDiff(d, kind, Targets(new_, p), {})
    ensures p !in new_ ==> Compared(d, kind, old_, new_, p) == WithDiff(d, kind, {}, Targets(old_, p))
    ensures p !in old_ && p !in new_ ==> Compared(d, kind, old_, new_, p) == d
  {
  }

  ghost predicate ComparedOn(d0: Diffs, d: Diffs, kind: Kind, old_: Refs, new_: Refs, done: set<string>)
    requires kind != Selector
  {
    forall p :: DiffAt(d, p) == if p in done then Compared(DiffAt(d0, p), kind, old_, new_, p) else DiffAt(d0, p)
  }

  lemma ComparedStep(d0: Diffs, d: Diffs, kind: Kind, old_: Refs, new_: Refs, done: set<string>, p: string, v: RefDiff)
    requires kind != Selector && ComparedOn(d0, d, kind, old_, new_, done)
    requires v == Compared(DiffAt(d0, p), kind, old_, new_, p)
    ensures ComparedOn(d0, d[p := v], kind, old_, new_, done + {p})
  {
  }

  lemma ComparedEnd(d0: Diffs, d: Diffs, kind: Kind, old_: Refs, new_: Refs)
    requires kind != Selector && forall p :: Adds(DiffAt(d0, p), kind) == {} && Dels(DiffAt(d0, p), kind) == {}
    requires ComparedOn(d0, d, kind, old_, new_, new_.Keys + old_.Keys)
    ensures forall p :: DiffAt(d, p) == Compared(DiffAt(d0, p), kind, old_, new_, p)
  {
    forall p ensures DiffAt(d, p) == Compared(DiffAt(d0, p), kind, old_, new_, p) {
      ComparedCases(DiffAt(d0, p), kind, old_, new_, p);
    }
  }

  method DiffLists(d0: Diffs, kind: Kind, old_: Refs, new_: Refs) returns (d: Diffs)
    requires kind != Selector && forall p :: Adds(DiffAt(d0, p), kind) == {} && Dels(DiffAt(d0, p), kind) == {}
    ensures forall p :: DiffAt(d, p) == Compared(DiffAt(d0, p), kind, old_, new_, p)
  {
    d := d0;
    var todo := new_.Keys;
    while todo != {}
      invariant todo <= new_.Keys && ComparedOn(d0, d, kind, old_, new_, new_.Keys - todo)
    {
      var p :| p in todo;
      ghost var done := new_.Keys - todo;
      assert new_.Keys - (todo - {p}) == done + {p};
      var v := DiffAt(d, p);
      if p in old_ {
        var add, del := SetDiff(old_[p], new_[p]);
        v := WithDiff(v, kind, add, del);
      } else {
        ComparedCases(DiffAt(d0, p), kind, old_, new_, p);
        v := WithDiff(v, kind, Targets(new_, p), {});
      }
      ComparedStep(d0, d, kind, old_, new_, done, p, v);
      d := d[p := v];
      todo := todo - {p};
    }
    assert new_.Keys - {} == new_.Keys;
    d := DiffDropped(d0, d, kind, old_, new_);
    ComparedEnd(d0, d, kind, old_, new_);
  }

  /** What the new lists do not mention at all is deleted. */
  method DiffDropped(ghost d0: Diffs, d1: Diffs, kind: Kind, old_: Refs, new_: Refs) returns (d: Diffs)
    requires kind != Selector && forall p :: Adds(DiffAt(d0, p), kind) == {} && Dels(DiffAt(d0, p), kind) == {}
    requires ComparedOn(d0, d1, kind, old_, new_, new_.Keys)
    ensures ComparedOn(d0, d, kind, old_, new_, new_.Keys + old_.Keys)
  {
    d := d1;
    var todo := old_.Keys;
    while todo != {}
      invariant todo <= old_.Keys && ComparedOn(d0, d, kind, old_, new_, new_.Keys + (old_.Keys - todo))
    {
      var p :| p in todo;
      ghost var done := new_.Keys + (old_.Keys - todo);
      assert new_.Keys + (old_.Keys - (todo - {p})) == done + {p};
      if p !in new_ {
        ComparedCases(DiffAt(d0, p), kind, old_, new_, p);
        var v := WithDiff(DiffAt(d, p), kind, {}, Targets(old_, p));
        ComparedStep(d0, d, kind, old_, new_, done, p, v);
        d := d[p := v];
      } else {
        assert done + {p} == done;
      }
      todo := todo - {p};
    }
    assert new_.Keys + (old_.Keys - {}) == new_.Keys + old_.Keys;
  }

  function SelectorChanged(d: RefDiff, old_: Refs, new_: Refs, p: string): RefDiff
    requires (p in old_ ==> old_[p] != []) && (p in new_ ==> new_[p] != [])
  {
    var o, n := Selected(old_, p), Selected(new_, p);
    if o == n then d else d.(sdel := o, sadd := n)
  }

  method DiffSelectors(d0: Diffs, old_: Refs, new_: Refs) returns (d: Diffs)
    requires NonEmpty(old_) && NonEmpty(new_)
    requires forall p :: DiffAt(d0, p).sadd == "" && DiffAt(d0, p).sdel == ""
    ensures forall p :: DiffAt(d, p) == SelectorChanged(DiffAt(d0, p), old_, new_, p)
  {
    d := d0;
    var todo := old_.Keys;
    while todo != {}
      invariant todo <= old_.Keys
      invariant forall p :: DiffAt(d, p) ==
                  if p in old_.Keys - todo then SelectorChanged(DiffAt(d0, p), old_, new_, p) else DiffAt(d0, p)
    {
      var p :| p in todo;
      todo := todo - {p};
      var news := Selected(new_, p);
      if old_[p][0] != news {
        d := d[p := DiffAt(d, p).(sdel := old_[p][0], sadd := news)];
      }
    }
    todo := new_.Keys;
    while todo != {}
      invariant todo <= new_.Keys
      invariant forall p :: DiffAt(d, p) ==
                  if p in old_ || p in new_.Keys - todo then SelectorChanged(DiffAt(d0, p), old_, new_, p) else DiffAt(d0, p)
    {
      var p :| p in todo;
      todo := todo - {p};
      if p !in old_ {
        d := d[p := DiffAt(d, p).(sadd := new_[p][0])];
      }
    }
  }

  /** The difference between what a node asks for and what it has. */
  method GetDiff(new_: Node, old_: Node) returns (d: Diffs)
    requires NonEmpty(old_.selectorRefs) && NonEmpty(new_.selectorRefs)
    ensures forall p :: IsDiff(DiffAt(d, p), new_, old_, p)
  {
    d := map[];
    d := DiffLists(d, Strict, old_.refs, new_.refs);
    d := DiffLists(d, Weak, old_.weakRefs, new_.weakRefs);
    d := DiffSelectors(d, old_.selectorRefs, new_.selectorRefs);
  }

  // ---- The store ----

  /** The edges a node asks for. */
  ghost predicate Requested(n: Node, q: Quad)
    requires NonEmpty(n.selectorRefs)
  {
    && q.subject == n.id
    && if q.kind == Selector then q.target != "" && q.target == Selected(n.selectorRefs, q.field)
       else Has(Lists(n, q.kind), q.field, q.target)
  }

  /** Every edge from the node is one it asks for, and the other nodes' edges are as they were. */
  ghost predicate Reconciled(before: set<Quad>, n: Node, after: set<Quad>)
    requires NonEmpty(n.selectorRefs)
  {
    forall q :: q in after <==> if q.subject == n.id then Requested(n, q) else q in before
  }

  /** Reconciling keeps the condition it needs. */
  lemma StaysOneSelector(before: set<Quad>, n: Node, after: set<Quad>)
    requires NonEmpty(n.selectorRefs) && OneSelector(before) && Reconciled(before, n, after)
    ensures OneSelector(after)
  {
  }

  function WithEdge(n: Node, q: Quad): Node {
    match q.kind
    case Strict => n.(refs := Append(n.refs, q.field, Far(q, n.dir)))
    case Weak => n.(weakRefs := Append(n.weakRefs, q.field, Far(q, n.dir)))
    case Selector => n.(selectorRefs := Append(n.selectorRefs, q.field, Far(q, n.dir)))
  }

  /** Whether a node has an edge once a difference has been applied to its field. */
  ghost predicate AfterDiff(d: RefDiff, q: Quad, had: bool) {
    if q.kind == Selector then (had && q.target !in Dels(d, Selector)) || q.target in Adds(d, Selector)
    else (had || q.target in Adds(d, q.kind)) && q.target !in Dels(d, q.kind)
  }

  ghost predicate IsDiff(d: RefDiff, new_: Node, old_: Node, p: string)
    requires NonEmpty(old_.selectorRefs) && NonEmpty(new_.selectorRefs)
  {
    && d.add == Targets(new_.refs, p) - Targets(old_.refs, p) && d.del == Targets(old_.refs, p) - Targets(new_.refs, p)
    && d.wadd == Targets(new_.weakRefs, p) - Targets(old_.weakRefs, p)
    && d.wdel == Targets(old_.weakRefs, p) - Targets(new_.weakRefs, p)
    && var o, n := Selected(old_.selectorRefs, p), Selected(new_.selectorRefs, p);
       d.sdel == (if o == n then "" else o) && d.sadd == (if o == n then "" else n)
  }

  /** The difference turns the edges there are into the edges asked for. */
  lemma DiffReconciles(quads: set<Quad>, n: Node, old_: Node, d: RefDiff, q: Quad)
    requires OneSelector(quads) && NonEmpty(n.selectorRefs) && q.subject == n.id
    requires forall kind :: Describes(Lists(old_, kind), quads, n.id, RefOut, kind)
    requires NonEmpty(old_.selectorRefs) && IsDiff(d, n, old_, q.field)
    ensures AfterDiff(d, q, q in quads) <==> Requested(n, q)
  {
    assert q == Edge(n.id, RefOut, q.field, q.target, q.kind);
    assert Describes(Lists(old_, q.kind), quads, n.id, RefOut, q.kind);
    assert q in quads <==> Has(Lists(old_, q.kind), q.field, q.target);
    if q.kind == Selector {
      var o := Selected(old_.selectorRefs, q.field);
      if q.field in old_.selectorRefs {
        assert Has(old_.selectorRefs, q.field, o);
        assert Edge(n.id, RefOut, q.field, o, Selector) in quads;
      }
    }
  }

  lemma OnlyOne(l: seq<string>, x: string)
    requires l != [] && (forall i | 0 <= i < |l| :: l[i] == x) && (forall i, j | 0 <= i < j < |l| :: l[i] != l[j])
    ensures l == [x]
  {
    var first, last := l[0], l[|l| - 1];
    if |l| > 1 { assert false; }
  }

  /** What is read of a node after it is updated is what was asked for, a single selector for a field. */
  lemma ReferencesAreRequested(before: set<Quad>, n: Node, after: set<Quad>, r: Node, p: string, o: string)
    requires NonEmpty(n.selectorRefs) && Reconciled(before, n, after)
    requires forall kind :: Describes(Lists(r, kind), after, n.id, RefOut, kind)
    ensures Has(r.refs, p, o) <==> Has(n.refs, p, o)
    ensures Has(r.weakRefs, p, o) <==> Has(n.weakRefs, p, o)
    ensures p in r.selectorRefs <==> Selected(n.selectorRefs, p) != ""
    ensures p in r.selectorRefs ==> r.selectorRefs[p] == [n.selectorRefs[p][0]]
  {
    forall kind, x ensures Has(Lists(r, kind), p, x) <==> Requested(n, Quad(n.id, p, x, kind)) {
      assert Describes(Lists(r, kind), after, n.id, RefOut, kind);
      assert Quad(n.id, p, x, kind) == Edge(n.id, RefOut, p, x, kind);
    }
    assert Has(r.refs, p, o) == Has(Lists(r, Strict), p, o) && Has(r.weakRefs, p, o) == Has(Lists(r, Weak), p, o);
    assert Describes(Lists(r, Selector), after, n.id, RefOut, Selector);
    var x := Selected(n.selectorRefs, p);
    assert Has(Lists(r, Selector), p, x) <==> x != "";
    if p in r.selectorRefs {
      var l := r.selectorRefs[p];
      forall i | 0 <= i < |l| ensures l[i] == x { assert Has(Lists(r, Selector), p, l[i]); }
      OnlyOne(l, x);
    }
  }

  /** What is read of a node in terms of edges: forwards those it is the subject of, backwards those it is the target of. */
  lemma ReadsEdges(quads: set<Quad>, id: string, n: Node, kind: Kind, p: string, o: string)
    requires Describes(Lists(n, kind), quads, id, n.dir, kind)
    ensures Has(Lists(n, kind), p, o) <==> (if n.dir == RefOut then Quad(id, p, o, kind) else Quad(o, p, id, kind)) in quads
  {
    assert Edge(id, n.dir, p, o, kind) == if n.dir == RefOut then Quad(id, p, o, kind) else Quad(o, p, id, kind);
  }

  /** One object refers to another exactly if the other is referred to by it. */
  lemma BackAndForth(quads: set<Quad>, a: Node, b: Node, kind: Kind, p: string)
    requires a.dir == RefOut && b.dir == RefIn
    requires Describes(Lists(a, kind), quads, a.id, RefOut, kind) && Describes(Lists(b, kind), quads, b.id, RefIn, kind)
    ensures Has(Lists(a, kind), p, b.id) <==> Has(Lists(b, kind), p, a.id)
  {
    ReadsEdges(quads, a.id, a, kind, p, b.id);
    ReadsEdges(quads, b.id, b, kind, p, a.id);
  }

  class Store {
    var quads: set<Quad>

    constructor ()
      ensures quads == {} && OneSelector(quads)
    {
      quads := {};
    }

    /** The node with the far ends of its edges; nothing when it has no edges. */
    method GetNode(id: string, dir: Direction) returns (r: Option<Node>)
      ensures r.None? <==> EdgesOf(quads, id, dir) == {}
      ensures r.Some? ==> r.value.id == id && r.value.dir == dir &&
                          forall kind :: Describes(Lists(r.value, kind), quads, id, dir, kind)
    {
      var edges := EdgesOf(quads, id, dir);
      if edges == {} { return None; }
      var n := Node(id, dir, map[], map[], map[]);
      var todo := edges;
      while todo != {}
        invariant todo <= edges && n.id == id && n.dir == dir
        invariant forall kind :: Describes(Lists(n, kind), edges - todo, id, dir, kind)
      {
        var q :| q in todo;
        forall kind ensures Describes(Lists(WithEdge(n, q), kind), edges - todo + {q}, id, dir, kind) {
          DescribesMore(Lists(n, kind), edges - todo, id, dir, kind, q);
        }
        assert edges - (todo - {q}) == edges - todo + {q};
        todo := todo - {q};
        n := WithEdge(n, q);
      }
      assert edges - {} == edges;
      forall kind ensures Describes(Lists(n, kind), quads, id, dir, kind) {
        assert Describes(Lists(n, kind), edges, id, dir, kind);
      }
      r := Some(n);
    }

    /** Adding an edge that is there changes nothing, and so does deleting one that is not. */
    method AddRelations(subject: string, field: string, targets: set<string>, kind: Kind)
      modifies this
      ensures forall q :: q in quads <==>
                q in old(quads) || (q.subject == subject && q.field == field && q.kind == kind && q.target in targets)
    {
      var todo := targets;
      while todo != {}
        invariant todo <= targets
        invariant forall q :: q in quads <==>
                    q in old(quads) || (q.subject == subject && q.field == field && q.kind == kind && q.target in targets - todo)
      {
        var t :| t in todo;
        quads := quads + {Quad(subject, field, t, kind)};
        todo := todo - {t};
      }
    }

    method DelRelations(subject: string, field: string, targets: set<string>, kind: Kind)
      modifies this
      ensures forall q :: q in quads <==>
                q in old(quads) && !(q.subject == subject && q.field == field && q.kind == kind && q.target in targets)
    {
      var todo := targets;
      while todo != {}
        invariant todo <= targets
        invariant forall q :: q in quads <==>
                    q in old(quads) && !(q.subject == subject && q.field == field && q.kind == kind && q.target in targets - todo)
      {
        var t :| t in todo;
        quads := quads - {Quad(subject, field, t, kind)};
        todo := todo - {t};
      }
    }

    method Apply(subject: string, field: string, d: RefDiff)
      modifies this
      ensures forall q :: q in quads <==>
                if q.subject == subject && q.field == field then AfterDiff(d, q, q in old(quads)) else q in old(quads)
    {
      AddRelations(subject, field, d.add, Strict);
      DelRelations(subject, field, d.del, Strict);
      AddRelations(subject, field, d.wadd, Weak);
      DelRelations(subject, field, d.wdel, Weak);
      if d.sdel != "" {
        DelRelations(subject, field, {d.sdel}, Selector);
      }
      if d.sadd != "" {
        AddRelations(subject, field, {d.sadd}, Selector);
      }
    }

    /** The edges from a node become the ones asked for, and no other edge changes. */
    method UpdateNode(n: Node)
      requires OneSelector(quads) && NonEmpty(n.selectorRefs)
      modifies this
      ensures Reconciled(old(quads), n, quads) && OneSelector(quads)
    {
      var found := GetNode(n.id, RefOut);
      var old_ := if found.Some? then found.value else Node(n.id, RefOut, map[], map[], map[]);
      ghost var before := quads;
      NothingDescribed(before, n.id, found, old_);
      var diffs := GetDiff(n, old_);
      var todo := diffs.Keys;
      while todo != {}
        invariant todo <= diffs.Keys
        invariant forall q :: q in quads <==>
                    if q.subject == n.id && q.field in diffs.Keys - todo then Requested(n, q) else q in before
      {
        var p :| p in todo;
        Apply(n.id, p, diffs[p]);
        forall q: Quad | q.subject == n.id && q.field == p ensures q in quads <==> Requested(n, q) {
          DiffReconciles(before, n, old_, DiffAt(diffs, p), q);
        }
        todo := todo - {p};
      }
      forall q: Quad | q.subject == n.id && q.field !in diffs ensures q in before <==> Requested(n, q) {
        DiffReconciles(before, n, old_, DiffAt(diffs, q.field), q);
      }
      StaysOneSelector(before, n, quads);
    }
  }

  lemma NothingDescribed(quads: set<Quad>, id: string, found: Option<Node>, n: Node)
    requires found.None? <==> EdgesOf(quads, id, RefOut) == {}
    requires found.Some? ==> n == found.value && forall kind :: Describes(Lists(n, kind), quads, id, RefOut, kind)
    requires found.None? ==> n == Node(id, RefOut, map[], map[], map[])
    ensures NonEmpty(n.selectorRefs) && forall kind :: Describes(Lists(n, kind), quads, id, RefOut, kind)
  {
    forall kind ensures Describes(Lists(n, kind), quads, id, RefOut, kind) {
      if found.None? {
        forall p, o ensures Edge(id, RefOut, p, o, kind) !in quads {
          assert Edge(id, RefOut, p, o, kind) !in EdgesOf(quads, id, RefOut);
        }
      }
    }
    assert Describes(Lists(n, Selector), quads, id, RefOut, Selector);
  }
}
