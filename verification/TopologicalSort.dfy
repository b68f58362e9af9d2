/**
 The order in which objects are configured: dependencies first, or an error when they depend
 on each other in a circle.
 */
module TopologicalSort {
  type Graph<T> = map<T, seq<T>>

  /** A walk along dependencies among the graph's own nodes. */
  ghost predicate IsWalk<T>(g: Graph<T>, walk: seq<T>) {
    && (forall i | 0 <= i < |walk| :: walk[i] in g)
    && forall i | 0 <= i < |walk| - 1 :: StepAt(g, walk, i)
  }

  ghost predicate StepAt<T>(g: Graph<T>, walk: seq<T>, i: nat)
    requires i < |walk| - 1 && walk[i] in g
  {
    walk[i + 1] in g[walk[i]]
  }

  ghost predicate IsCycle<T>(g: Graph<T>, walk: seq<T>) {
    |walk| >= 2 && IsWalk(g, walk) && walk[0] == walk[|walk| - 1]
  }

  ghost predicate Cyclic<T(!new)>(g: Graph<T>) {
    exists walk: seq<T> :: IsCycle(g, walk)
  }

  function Nodes<T>(sorted: seq<(T, seq<T>)>): seq<T> {
    seq(|sorted|, i requires 0 <= i < |sorted| => sorted[i].0)
  }

  ghost predicate Distinct<T>(s: seq<T>) {
    forall i, j | 0 <= i < j < |s| :: s[i] != s[j]
  }

  /** Every node comes with its dependencies, after those of them that are in the graph. */
  ghost predicate DependenciesFirst<T>(g: Graph<T>, sorted: seq<(T, seq<T>)>) {
    && (forall i | 0 <= i < |sorted| :: sorted[i].0 in g && sorted[i].1 == g[sorted[i].0])
    && forall i, e | 0 <= i < |sorted| && e in sorted[i].1 && e in g :: e in Nodes(sorted[..i])
  }

  lemma TailWalks<T>(g: Graph<T>, walk: seq<T>)
    requires IsWalk(g, walk) && |walk| > 0
    ensures IsWalk(g, walk[1..])
  {
    var tail := walk[1..];
    forall i | 0 <= i < |tail| - 1 ensures StepAt(g, tail, i) { assert StepAt(g, walk, i + 1); }
  }

  // ---- An order excludes a cycle ----

  /** Along a walk in an ordered graph positions fall. */
  lemma {:induction false} WalkDescends<T>(g: Graph<T>, sorted: seq<(T, seq<T>)>, walk: seq<T>, i: nat) returns (j: nat)
    requires DependenciesFirst(g, sorted) && IsWalk(g, walk) && |walk| > 0
    requires i < |sorted| && sorted[i].0 == walk[0]
    ensures j <= i && sorted[j].0 == walk[|walk| - 1] && (|walk| > 1 ==> j < i)
  {
    j := i;
    if |walk| > 1 {
      assert StepAt(g, walk, 0);
      TailWalks(g, walk);
      var before := Nodes(sorted[..i]);
      j :| 0 <= j < |before| && before[j] == walk[1];
      j := WalkDescends(g, sorted, walk[1..], j);
    }
  }

  lemma OrderedIsAcyclic<T(!new)>(g: Graph<T>, sorted: seq<(T, seq<T>)>)
    requires DependenciesFirst(g, sorted) && Distinct(Nodes(sorted)) && forall n <- g :: n in Nodes(sorted)
    ensures !Cyclic(g)
  {
    forall walk: seq<T> | |walk| >= 2 && IsWalk(g, walk) ensures walk[0] != walk[|walk| - 1] {
      var nodes := Nodes(sorted);
      var i :| 0 <= i < |nodes| && nodes[i] == walk[0];
      var j := WalkDescends(g, sorted, walk, i);
      assert nodes[j] == walk[|walk| - 1];
    }
  }

  // ---- What cannot be ordered holds a cycle ----

  lemma {:induction false} Pigeonhole<T>(s: seq<T>, holes: set<T>)
    requires |s| > |holes| && forall x <- s :: x in holes
    ensures exists i, j :: 0 <= i < j < |s| && s[i] == s[j]
  {
    var x := s[0];
    assert x in holes;
    if i :| 0 < i < |s| && s[i] == x {
      assert s[0] == s[i];
    } else {
      Pigeonhole(s[1..], holes - {x});
      var i, j :| 0 <= i < j < |s[1..]| && s[1..][i] == s[1..][j];
      assert s[i + 1] == s[j + 1];
    }
  }

  /** No node of these is free of dependencies on them. */
  ghost predicate Stuck<T>(g: Graph<T>, left: set<T>) {
    left <= g.Keys && forall n <- left :: HasNext(g, left, n)
  }

  ghost predicate HasNext<T>(g: Graph<T>, left: set<T>, n: T)
    requires n in g
  {
    exists e <- g[n] :: e in left
  }

  /** From any of them a walk goes on as long as one likes. */
  lemma {:induction false} LongWalk<T>(g: Graph<T>, left: set<T>, n: T, k: nat) returns (walk: seq<T>)
    requires Stuck(g, left) && n in left
    ensures |walk| == k + 1 && walk[0] == n && IsWalk(g, walk) && forall x <- walk :: x in left
  {
    if k == 0 {
      walk := [n];
    } else {
      assert HasNext(g, left, n);
      var e :| e in g[n] && e in left;
      var rest := LongWalk(g, left, e, k - 1);
      walk := [n] + rest;
      forall i | 0 <= i < k ensures StepAt(g, walk, i) {
        if i > 0 { assert StepAt(g, rest, i - 1); }
      }
    }
  }

  lemma StuckIsCyclic<T(!new)>(g: Graph<T>, left: set<T>)
    requires Stuck(g, left) && left != {}
    ensures Cyclic(g)
  {
    var n :| n in left;
    var walk := LongWalk(g, left, n, |left|);
    Pigeonhole(walk, left);
    var i, j :| 0 <= i < j < |walk| && walk[i] == walk[j];
    var cycle := walk[i..j + 1];
    forall k | 0 <= k < |cycle| - 1 ensures StepAt(g, cycle, k) { assert StepAt(g, walk, i + k); }
    assert IsCycle(g, cycle);
  }

  // ---- The sort ----

  datatype Result<T> = Sorted(nodes: seq<(T, seq<T>)>) | Raised

  /** What is sorted and what is not make up the graph. */
  ghost predicate Split<T>(g: Graph<T>, sorted: seq<(T, seq<T>)>, left: Graph<T>) {
    && left.Keys <= g.Keys && (forall n <- left :: left[n] == g[n])
    && (forall n <- g :: n in left <==> n !in Nodes(sorted))
    && Distinct(Nodes(sorted)) && DependenciesFirst(g, sorted)
  }

  lemma SplitMore<T>(g: Graph<T>, sorted: seq<(T, seq<T>)>, left: Graph<T>, n: T)
    requires Split(g, sorted, left) && n in left && forall e <- g[n] :: e !in left
    ensures Split(g, sorted + [(n, g[n])], left - {n})
  {
    var more := sorted + [(n, g[n])];
    assert Nodes(more) == Nodes(sorted) + [n];
    forall i, e | 0 <= i < |more| && e in more[i].1 && e in g ensures e in Nodes(more[..i]) {
      assert more[..i] == sorted[..i];
      if i == |sorted| { assert sorted[..i] == sorted; }
    }
  }

  method HasEdgeIn<T(==)>(edges: seq<T>, left: Graph<T>) returns (found: bool)
    ensures found <==> exists e <- edges :: e in left
  {
    for i := 0 to |edges|
      invariant forall j | 0 <= j < i :: edges[j] !in left
    {
      if edges[i] in left { return true; }
    }
    return false;
  }

  /**
   One pass over the nodes that were left when it began, in any order: each that depends on
   nothing left is taken out. A pass that takes none has found every node stuck.
   */
  method Pass<T(==,!new)>(ghost g: Graph<T>, sorted0: seq<(T, seq<T>)>, left0: Graph<T>)
    returns (sorted: seq<(T, seq<T>)>, left: Graph<T>, acyclic: bool)
    requires Split(g, sorted0, left0)
    ensures Split(g, sorted, left) && left.Keys <= left0.Keys
    ensures if acyclic then |left| < |left0| else left == left0 && Stuck(g, left.Keys)
  {
    sorted, left, acyclic := sorted0, left0, false;
    var todo := left0.Keys;
    while todo != {}
      invariant todo <= left.Keys <= left0.Keys && Split(g, sorted, left)
      invariant if acyclic then left.Keys < left0.Keys else left == left0
      invariant !acyclic ==> forall n <- left.Keys - todo :: HasNext(g, left.Keys, n)
    {
      var n :| n in todo;
      todo := todo - {n};
      var found := HasEdgeIn(left[n], left);
      if !found {
        SplitMore(g, sorted, left, n);
        acyclic := true;
        sorted := sorted + [(n, left[n])];
        left := left - {n};
      }
    }
    if acyclic { FewerKeys(left, left0); }
  }

  lemma FewerKeys<T>(a: Graph<T>, b: Graph<T>)
    requires a.Keys < b.Keys
    ensures |a| < |b|
  {
    Fewer(a.Keys, b.Keys);
    assert |a| == |a.Keys| && |b| == |b.Keys|;
  }

  lemma Fewer<T>(a: set<T>, b: set<T>)
    requires a < b
    ensures |a| < |b|
  {
    assert b == a + (b - a);
    var x :| x in b - a;
    assert |b - a| > 0;
  }

  /**
   The sort raises exactly when the graph has a cycle among its own nodes, and then leaves a
   part of the graph in which every node is stuck. Otherwise nothing is left, and every node
   is listed once, with its dependencies, after those that are in the graph.
   */
  method Sort<T(==,!new)>(g: Graph<T>) returns (r: Result<T>, left: Graph<T>)
    ensures r.Raised? <==> Cyclic(g)
    ensures r.Raised? ==> left != map[] && Stuck(g, left.Keys)
    ensures r.Sorted? ==> left == map[] && DependenciesFirst(g, r.nodes) && Distinct(Nodes(r.nodes))
    ensures r.Sorted? ==> |r.nodes| == |g| && forall n :: n in Nodes(r.nodes) <==> n in g
  {
    var sorted: seq<(T, seq<T>)>;
    sorted, left := [], g;
    while left != map[]
      invariant Split(g, sorted, left)
      decreases |left|
    {
      var acyclic;
      sorted, left, acyclic := Pass(g, sorted, left);
      if !acyclic {
        StuckIsCyclic(g, left.Keys);
        return Raised, left;
      }
    }
    OrderedIsAcyclic(g, sorted);
    AllOnce(g, sorted);
    r := Sorted(sorted);
  }

  lemma {:induction false} DistinctCount<T>(s: seq<T>)
    requires Distinct(s)
    ensures |set x | x in s| == |s|
  {
    if s != [] {
      DistinctCount(s[1..]);
      assert (set x | x in s) == {s[0]} + set x | x in s[1..];
    }
  }

  lemma AllOnce<T>(g: Graph<T>, sorted: seq<(T, seq<T>)>)
    requires Split(g, sorted, map[])
    ensures |sorted| == |g| && forall n :: n in Nodes(sorted) <==> n in g
  {
    var nodes := Nodes(sorted);
    forall n | n in nodes ensures n in g {
      var i :| 0 <= i < |nodes| && nodes[i] == n;
      assert sorted[i].0 == n;
    }
    DistinctCount(nodes);
    assert (set n | n in nodes) == g.Keys;
    assert |g| == |g.Keys|;
  }
}
