/**
 The tree of references from an object: a walk of the graph that makes one vertex for every
 object it meets, on graphs with cycles as on others.
 */
module ReferenceTree {
  import opened ReferenceGraph

  class Vertex {
    const id: string
    const dir: Direction
    var refs: map<string, seq<Vertex>>
    var weakRefs: map<string, seq<Vertex>>
    var selectorRefs: Refs

    constructor (id: string, dir: Direction)
      ensures this.id == id && this.dir == dir && refs == weakRefs == map[] && selectorRefs == map[]
    {
      this.id, this.dir := id, dir;
      refs, weakRefs, selectorRefs := map[], map[], map[];
    }
  }

  /** The vertices met so far, shared by the whole walk. */
  class Visited {
    var at: map<string, Vertex>

    constructor ()
      ensures at == map[]
    {
      at := map[];
    }
  }

  // ---- Reachability ----

  /** An edge that is followed: strict or weak. */
  ghost predicate Follows(quads: set<Quad>, dir: Direction, a: string, b: string) {
    exists q <- quads :: q.kind != Selector && This(q, dir) == a && Far(q, dir) == b
  }

  /** Forwards from subject to target along edges that are not selectors, and backwards the other way. */
  lemma FollowsEdges(quads: set<Quad>, a: string, b: string)
    ensures Follows(quads, RefOut, a, b) <==>
            exists q <- quads :: q.subject == a && q.target == b && (q.kind == Strict || q.kind == Weak)
    ensures Follows(quads, RefIn, a, b) <==> Follows(quads, RefOut, b, a)
  {
    if q :| q in quads && q.subject == a && q.target == b && q.kind != Selector {
      assert This(q, RefOut) == a && Far(q, RefOut) == b;
    }
    if q :| q in quads && q.subject == b && q.target == a && q.kind != Selector {
      assert This(q, RefOut) == b && Far(q, RefOut) == a && This(q, RefIn) == a && Far(q, RefIn) == b;
    }
  }

  ghost predicate IsPath(quads: set<Quad>, dir: Direction, path: seq<string>) {
    path != [] && forall i | 0 <= i < |path| - 1 :: Follows(quads, dir, path[i], path[i + 1])
  }

  ghost predicate Reaches(quads: set<Quad>, dir: Direction, a: string, b: string) {
    exists path :: IsPath(quads, dir, path) && path[0] == a && path[|path| - 1] == b
  }

  lemma ReachesSelf(quads: set<Quad>, dir: Direction, a: string)
    ensures Reaches(quads, dir, a, a)
  {
    assert IsPath(quads, dir, [a]) && [a][0] == a;
  }

  lemma ReachesBefore(quads: set<Quad>, dir: Direction, a: string, b: string, c: string)
    requires Follows(quads, dir, a, b) && Reaches(quads, dir, b, c)
    ensures Reaches(quads, dir, a, c)
  {
    var path :| IsPath(quads, dir, path) && path[0] == b && path[|path| - 1] == c;
    var longer := [a] + path;
    forall i | 0 <= i < |longer| - 1 ensures Follows(quads, dir, longer[i], longer[i + 1]) {
      if i > 0 { assert Follows(quads, dir, path[i - 1], path[i]); }
    }
    assert IsPath(quads, dir, longer) && longer[0] == a && longer[|longer| - 1] == c;
  }

  /** A set with the root, closed under the edges, holds all that is reached. */
  lemma {:induction false} ClosedHolds(quads: set<Quad>, dir: Direction, keys: set<string>, path: seq<string>)
    requires IsPath(quads, dir, path) && path[0] in keys
    requires forall a, b | a in keys && Follows(quads, dir, a, b) :: b in keys
    ensures path[|path| - 1] in keys
  {
    if |path| > 1 {
      var shorter := path[1..];
      assert Follows(quads, dir, path[0], path[1]);
      forall i | 0 <= i < |shorter| - 1 ensures Follows(quads, dir, shorter[i], shorter[i + 1]) {
        assert Follows(quads, dir, path[i + 1], path[i + 2]);
      }
      ClosedHolds(quads, dir, keys, shorter);
    }
  }

  // ---- Vertices that match the edges ----

  ghost predicate Listed(m: map<string, seq<Vertex>>, p: string, o: string) {
    p in m && exists i | 0 <= i < |m[p]| :: m[p][i].id == o
  }

  /** Lists of the vertices at the far ends of these edges, each once. */
  ghost predicate Links(m: map<string, seq<Vertex>>, at: map<string, Vertex>, edges: set<Quad>,
                        id: string, dir: Direction, kind: Kind)
  {
    && (forall p, o :: Listed(m, p, o) <==> Edge(id, dir, p, o, kind) in edges)
    && (forall p, i | p in m && 0 <= i < |m[p]| :: m[p][i].id in at && at[m[p][i].id] == m[p][i])
    && (forall p, i, j | p in m && 0 <= i < j < |m[p]| :: m[p][i].id != m[p][j].id)
  }

  lemma LinksMore(m: map<string, seq<Vertex>>, at: map<string, Vertex>, edges: set<Quad>, id: string, dir: Direction,
                  kind: Kind, q: Quad, v: Vertex)
    requires Links(m, at, edges, id, dir, kind) && q !in edges && This(q, dir) == id && q.kind == kind
    requires v.id == Far(q, dir) && v.id in at && at[v.id] == v
    ensures Links(Append(m, q.field, v), at, edges + {q}, id, dir, kind)
  {
    var m' := Append(m, q.field, v);
    forall p, o ensures Listed(m', p, o) <==> Edge(id, dir, p, o, kind) in edges + {q} {
      AppendLists(m, q.field, v, p, o);
    }
    assert !Listed(m, q.field, v.id);
  }

  lemma AppendLists(m: map<string, seq<Vertex>>, p: string, v: Vertex, p': string, o: string)
    ensures Listed(Append(m, p, v), p', o) <==> Listed(m, p', o) || (p' == p && o == v.id)
  {
    var m' := Append(m, p, v);
    if p' == p {
      var n := |m'[p]| - 1;
      assert m'[p][n] == v;
      assert forall i | 0 <= i < n :: p in m && m'[p][i] == m[p][i];
    }
  }

  /** More vertices, and edges of other kinds, leave the lists right. */
  lemma LinksStill(m: map<string, seq<Vertex>>, at: map<string, Vertex>, at': map<string, Vertex>,
                   edges: set<Quad>, edges': set<Quad>, id: string, dir: Direction, kind: Kind)
    requires Links(m, at, edges, id, dir, kind)
    requires forall k <- at :: k in at' && at'[k] == at[k]
    requires forall p, o :: Edge(id, dir, p, o, kind) in edges <==> Edge(id, dir, p, o, kind) in edges'
    ensures Links(m, at', edges', id, dir, kind)
  {
  }

  /** A vertex with exactly these of its edges. */
  ghost predicate Matches(v: Vertex, at: map<string, Vertex>, edges: set<Quad>)
    reads v
  {
    && Links(v.refs, at, edges, v.id, v.dir, Strict)
    && Links(v.weakRefs, at, edges, v.id, v.dir, Weak)
    && Describes(v.selectorRefs, edges, v.id, v.dir, Selector)
  }

  /** A vertex with all of its edges. */
  ghost predicate Finished(at: map<string, Vertex>, quads: set<Quad>, dir: Direction, id: string)
    requires id in at
    reads at[id]
  {
    at[id].id == id && at[id].dir == dir && Matches(at[id], at, EdgesOf(quads, id, dir))
  }

  lemma FinishedStill(at: map<string, Vertex>, at': map<string, Vertex>, quads: set<Quad>, dir: Direction, id: string)
    requires id in at && Finished(at, quads, dir, id)
    requires forall k <- at :: k in at' && at'[k] == at[k]
    ensures Finished(at', quads, dir, id)
  {
    var v, edges := at[id], EdgesOf(quads, id, dir);
    LinksStill(v.refs, at, at', edges, edges, id, dir, Strict);
    LinksStill(v.weakRefs, at, at', edges, edges, id, dir, Weak);
  }

  ghost predicate Closed(quads: set<Quad>, universe: set<string>) {
    forall q <- quads :: q.subject in universe && q.target in universe
  }

  ghost predicate Extends(at: map<string, Vertex>, at': map<string, Vertex>) {
    forall k <- at :: k in at' && at'[k] == at[k]
  }

  /** Every new vertex but the one at `id` is finished, and all of them are reached from there. */
  ghost predicate Walked(before: map<string, Vertex>, at: map<string, Vertex>, quads: set<Quad>, dir: Direction, id: string)
    reads at.Values
  {
    && Extends(before, at)
    && forall k | k in at && k !in before :: Reaches(quads, dir, id, k) && (k != id ==> Finished(at, quads, dir, k))
  }

  /** A walk from a neighbour is part of the walk. */
  lemma WalkedOn(before: map<string, Vertex>, mid: map<string, Vertex>, at: map<string, Vertex>,
                 quads: set<Quad>, dir: Direction, id: string, next: string)
    requires Walked(before, mid, quads, dir, id) && Extends(mid, at) && Follows(quads, dir, id, next)
    requires forall k | k in at && k !in mid :: Reaches(quads, dir, next, k) && Finished(at, quads, dir, k)
    ensures Walked(before, at, quads, dir, id)
  {
    forall k | k in at && k !in before
      ensures Reaches(quads, dir, id, k) && (k != id ==> Finished(at, quads, dir, k))
    {
      if k !in mid {
        ReachesBefore(quads, dir, id, next, k);
      } else if k != id {
        FinishedStill(mid, at, quads, dir, k);
      }
    }
  }

  /** An edge listed at the vertex it leaves. */
  lemma LinkMatches(v: Vertex, at: map<string, Vertex>, edges: set<Quad>, q: Quad, w: Vertex)
    requires Matches(v, at, edges) && q !in edges && This(q, v.dir) == v.id && q.kind != Selector
    requires w.id == Far(q, v.dir) && w.id in at && at[w.id] == w
    ensures Links(if q.kind == Strict then Append(v.refs, q.field, w) else v.refs, at, edges + {q}, v.id, v.dir, Strict)
    ensures Links(if q.kind == Weak then Append(v.weakRefs, q.field, w) else v.weakRefs, at, edges + {q}, v.id, v.dir, Weak)
    ensures Describes(v.selectorRefs, edges + {q}, v.id, v.dir, Selector)
  {
    if q.kind == Strict {
      LinksMore(v.refs, at, edges, v.id, v.dir, Strict, q, w);
      LinksStill(v.weakRefs, at, at, edges, edges + {q}, v.id, v.dir, Weak);
    } else {
      LinksMore(v.weakRefs, at, edges, v.id, v.dir, Weak, q, w);
      LinksStill(v.refs, at, at, edges, edges + {q}, v.id, v.dir, Strict);
    }
    DescribesMore(v.selectorRefs, edges, v.id, v.dir, Selector, q);
  }

  lemma MatchesStill(v: Vertex, at: map<string, Vertex>, at': map<string, Vertex>, edges: set<Quad>)
    requires Matches(v, at, edges) && Extends(at, at')
    ensures Matches(v, at', edges)
  {
    LinksStill(v.refs, at, at', edges, edges, v.id, v.dir, Strict);
    LinksStill(v.weakRefs, at, at', edges, edges, v.id, v.dir, Weak);
  }

  lemma SelectorMatches(v: Vertex, at: map<string, Vertex>, edges: set<Quad>, q: Quad)
    requires Matches(v, at, edges) && q !in edges && This(q, v.dir) == v.id && q.kind == Selector
    ensures Links(v.refs, at, edges + {q}, v.id, v.dir, Strict) && Links(v.weakRefs, at, edges + {q}, v.id, v.dir, Weak)
    ensures Describes(Append(v.selectorRefs, q.field, Far(q, v.dir)), edges + {q}, v.id, v.dir, Selector)
  {
    LinksStill(v.refs, at, at, edges, edges + {q}, v.id, v.dir, Strict);
    LinksStill(v.weakRefs, at, at, edges, edges + {q}, v.id, v.dir, Weak);
    DescribesMore(v.selectorRefs, edges, v.id, v.dir, Selector, q);
  }

  class Walker {
    const quads: set<Quad>
    const dir: Direction

    constructor (quads: set<Quad>, dir: Direction)
      ensures this.quads == quads && this.dir == dir
    {
      this.quads, this.dir := quads, dir;
    }

    ghost predicate Valid(visited: Visited, universe: set<string>)
      reads visited
    {
      && Closed(quads, universe) && visited.at.Keys <= universe
      && forall k <- visited.at :: visited.at[k].id == k
    }

    /**
     The vertex of an object. What was visited stays as it is; every vertex that is new has
     all its edges, and its object is reached from this one.
     */
    method GetVertex(id: string, visited: Visited, ghost universe: set<string>) returns (v: Vertex)
      requires Valid(visited, universe) && id in universe
      modifies visited
      ensures Valid(visited, universe) && id in visited.at && v == visited.at[id]
      ensures Extends(old(visited.at), visited.at)
      ensures forall k | k in visited.at && k !in old(visited.at) ::
                Reaches(quads, dir, id, k) && Finished(visited.at, quads, dir, k)
      decreases universe - visited.at.Keys, 0
    {
      if id in visited.at { return visited.at[id]; }
      v := new Vertex(id, dir);
      ghost var before := visited.at;
      visited.at := visited.at[id := v];
      ReachesSelf(quads, dir, id);
      var edges := EdgesOf(quads, id, dir);
      var todo := edges;
      while todo != {}
        invariant todo <= edges && Valid(visited, universe) && id in visited.at && visited.at[id] == v
        invariant Walked(before, visited.at, quads, dir, id) && Matches(v, visited.at, edges - todo)
      {
        var q :| q in todo;
        assert edges - (todo - {q}) == edges - todo + {q};
        AddEdge(v, q, visited, universe, before, edges - todo);
        todo := todo - {q};
      }
      assert edges - {} == edges;
    }

    /** One edge of a vertex, with a walk from its far end unless it is a selector. */
    method AddEdge(v: Vertex, q: Quad, visited: Visited, ghost universe: set<string>,
                   ghost before: map<string, Vertex>, ghost done: set<Quad>)
      requires Valid(visited, universe) && v.id in visited.at && visited.at[v.id] == v && v.dir == dir
      requires v.id !in before && Walked(before, visited.at, quads, dir, v.id)
      requires q in quads && q !in done && This(q, dir) == v.id && Matches(v, visited.at, done)
      modifies visited, v
      ensures Valid(visited, universe) && v.id in visited.at && visited.at[v.id] == v
      ensures Extends(old(visited.at), visited.at)
      ensures Walked(before, visited.at, quads, dir, v.id) && Matches(v, visited.at, done + {q})
      decreases universe - visited.at.Keys, 1
    {
      if q.kind == Selector {
        SelectorMatches(v, visited.at, done, q);
        v.selectorRefs := Append(v.selectorRefs, q.field, Far(q, dir));
      } else {
        var w := GetVertex(Far(q, dir), visited, universe);
        assert Follows(quads, dir, v.id, Far(q, dir));
        WalkedOn(before, old(visited.at), visited.at, quads, dir, v.id, Far(q, dir));
        MatchesStill(v, old(visited.at), visited.at, done);
        Attach(v, q, w, visited.at, before, done);
      }
    }

    method Attach(v: Vertex, q: Quad, w: Vertex, ghost at: map<string, Vertex>,
                  ghost before: map<string, Vertex>, ghost done: set<Quad>)
      requires v.id !in before && Walked(before, at, quads, dir, v.id) && (forall k <- at :: at[k].id == k)
      requires q !in done && q.kind != Selector && v.dir == dir && This(q, dir) == v.id && Matches(v, at, done)
      requires w.id == Far(q, dir) && w.id in at && at[w.id] == w
      modifies v
      ensures Walked(before, at, quads, dir, v.id) && Matches(v, at, done + {q})
    {
      LinkMatches(v, at, done, q, w);
      if q.kind == Strict {
        v.refs := Append(v.refs, q.field, w);
      } else {
        v.weakRefs := Append(v.weakRefs, q.field, w);
      }
    }

    /**
     The tree of an object: one vertex for every object that is reached, itself included, each
     with lists of exactly the vertices its edges lead to.
     */
    method Tree(id: string) returns (v: Vertex, ghost at: map<string, Vertex>)
      ensures id in at && v == at[id]
      ensures forall k :: k in at <==> Reaches(quads, dir, id, k)
      ensures forall k <- at :: Finished(at, quads, dir, k)
    {
      var visited := new Visited();
      ghost var universe := {id} + (set q | q in quads :: q.subject) + (set q | q in quads :: q.target);
      v := GetVertex(id, visited, universe);
      at := visited.at;
      AllReached(quads, dir, id, at);
    }
  }

  lemma AllReached(quads: set<Quad>, dir: Direction, id: string, at: map<string, Vertex>)
    requires id in at && forall k <- at :: Finished(at, quads, dir, k)
    ensures forall k | Reaches(quads, dir, id, k) :: k in at
  {
    forall a, b | a in at.Keys && Follows(quads, dir, a, b) ensures b in at.Keys {
      assert Finished(at, quads, dir, a);
      var q :| q in quads && q.kind != Selector && This(q, dir) == a && Far(q, dir) == b;
      assert Edge(a, dir, q.field, b, q.kind) == q && q in EdgesOf(quads, a, dir);
      assert Listed(if q.kind == Strict then at[a].refs else at[a].weakRefs, q.field, b);
    }
    forall k | Reaches(quads, dir, id, k) ensures k in at {
      var path :| IsPath(quads, dir, path) && path[0] == id && path[|path| - 1] == k;
      ClosedHolds(quads, dir, at.Keys, path);
    }
  }
}
