/** Directed graphs with insertion-ordered nodes and edges, as the lineage recorder
    keeps them, and reachability in them. */
module Digraph {
  import opened Basics

  datatype Attributes =
    | SourceFile(title: string)
    | StepNode(step: string, stepType: string)
    | SourceColumn(step: string, column: string)
    | OutputColumn(step: string, column: string)
    | OutputFile(title: string)

  /** A node created only as the end of an edge has no attributes. */
  datatype Graph = Graph(nodes: seq<string>, edges: seq<(string, string)>, attrs: map<string, Attributes>)

  const EMPTY := Graph([], [], map[])

  ghost predicate Valid(g: Graph) {
    && Distinct(g.nodes) && Distinct(g.edges)
    && (forall e :: e in g.edges ==> e.0 in g.nodes && e.1 in g.nodes)
    && (forall n :: n in g.attrs ==> n in g.nodes)
  }

  function Insert<T(==, !new)>(s: seq<T>, x: T): (r: seq<T>)
    ensures forall y :: y in r <==> y in s || y == x
    ensures Distinct(s) ==> Distinct(r)
  {
    if x in s then s else s + [x]
  }

  function AddNode(g: Graph, n: string, a: Attributes): Graph {
    g.(nodes := Insert(g.nodes, n), attrs := g.attrs[n := a])
  }

  function AddEdge(g: Graph, u: string, v: string): Graph {
    g.(nodes := Insert(Insert(g.nodes, u), v), edges := Insert(g.edges, (u, v)))
  }

  /** The predecessors of a node in the order their edges were added. */
  function Preds(edges: seq<(string, string)>, v: string): (r: seq<string>)
    ensures forall u :: u in r <==> (u, v) in edges
  {
    if edges == [] then []
    else Preds(edges[..|edges| - 1], v) + (if edges[|edges| - 1].1 == v then [edges[|edges| - 1].0] else [])
  }

  // ----- paths

  ghost predicate IsPath(g: Graph, p: seq<string>) {
    && p != [] && (forall i :: 0 <= i < |p| ==> p[i] in g.nodes)
    && forall i :: 0 <= i < |p| - 1 ==> (p[i], p[i + 1]) in g.edges
  }

  ghost predicate PathFromTo(g: Graph, p: seq<string>, u: string, v: string) {
    IsPath(g, p) && p[0] == u && p[|p| - 1] == v
  }

  ghost predicate Reach(g: Graph, u: string, v: string) {
    exists p :: PathFromTo(g, p, u, v)
  }

  /** A path of at least one edge from a node to itself. */
  ghost predicate IsCycle(g: Graph, p: seq<string>) {
    IsPath(g, p) && |p| > 1 && p[0] == p[|p| - 1]
  }

  lemma ReachSelf(g: Graph, n: string)
    requires n in g.nodes
    ensures Reach(g, n, n)
  {
    assert PathFromTo(g, [n], n, n);
  }

  lemma ReachEdge(g: Graph, u: string, v: string, w: string)
    requires Valid(g) && (u, v) in g.edges && Reach(g, v, w)
    ensures Reach(g, u, w)
  {
    var p :| PathFromTo(g, p, v, w);
    assert PathFromTo(g, [u] + p, u, w);
  }

  lemma ReachTrans(g: Graph, u: string, v: string, w: string)
    requires Reach(g, u, v) && Reach(g, v, w)
    ensures Reach(g, u, w)
  {
    var p :| PathFromTo(g, p, u, v);
    var q :| PathFromTo(g, q, v, w);
    assert PathFromTo(g, p + q[1..], u, w);
  }

  lemma ReachLast(g: Graph, u: string, v: string, w: string)
    requires Valid(g) && Reach(g, u, v) && (v, w) in g.edges
    ensures Reach(g, u, w)
  {
    ReachSelf(g, w);
    ReachEdge(g, v, w, w);
    ReachTrans(g, u, v, w);
  }

  lemma PathPrefix(g: Graph, p: seq<string>, n: nat)
    requires IsPath(g, p) && 0 < n <= |p|
    ensures Reach(g, p[0], p[n - 1])
  {
    assert PathFromTo(g, p[..n], p[0], p[n - 1]);
  }

  // ----- rankings

  ghost predicate Ranks(g: Graph, rank: string -> int) {
    forall e :: e in g.edges ==> rank(e.0) < rank(e.1)
  }

  lemma {:induction false} PathClimbs(g: Graph, rank: string -> int, p: seq<string>)
    requires Ranks(g, rank) && IsPath(g, p)
    ensures rank(p[0]) + |p| - 1 <= rank(p[|p| - 1])
    decreases |p|
  {
    if |p| > 1 {
      var q := p[..|p| - 1];
      PathClimbs(g, rank, q);
      assert (p[|p| - 2], p[|p| - 1]) in g.edges;
    }
  }

  lemma RankedIsAcyclic(g: Graph, rank: string -> int)
    requires Ranks(g, rank)
    ensures !exists p :: IsCycle(g, p)
  {
    forall p | IsPath(g, p) && |p| > 1
      ensures p[0] != p[|p| - 1]
    {
      PathClimbs(g, rank, p);
    }
  }

  lemma ReachClimbs(g: Graph, rank: string -> int, u: string, v: string)
    requires Ranks(g, rank) && Reach(g, u, v)
    ensures u == v || rank(u) < rank(v)
  {
    var p :| PathFromTo(g, p, u, v);
    PathClimbs(g, rank, p);
  }

  // ----- backward breadth-first search

  /** A set that holds the target and every predecessor of its members holds every
      node that reaches the target. */
  lemma {:induction false} ClosedHoldsPath(g: Graph, s: set<string>, p: seq<string>)
    requires IsPath(g, p) && p[|p| - 1] in s
    requires forall e :: e in g.edges && e.1 in s ==> e.0 in s
    ensures p[0] in s
    decreases |p|
  {
    if |p| > 1 {
      assert (p[|p| - 2], p[|p| - 1]) in g.edges;
      ClosedHoldsPath(g, s, p[..|p| - 1]);
    }
  }

  lemma ClosedHoldsReach(g: Graph, s: set<string>, target: string)
    requires target in s
    requires forall e :: e in g.edges && e.1 in s ==> e.0 in s
    ensures forall n :: Reach(g, n, target) ==> n in s
  {
    forall n | Reach(g, n, target)
      ensures n in s
    {
      var p :| PathFromTo(g, p, n, target);
      ClosedHoldsPath(g, s, p);
    }
  }

  /** The search the ancestry query runs.  `order` lists the nodes as they are taken
      from the queue: each node that reaches the target once, and no other. */
  method SearchBackward(g: Graph, target: string) returns (order: seq<string>)
    requires Valid(g) && target in g.nodes
    ensures Distinct(order)
    ensures forall n :: n in order <==> Reach(g, n, target)
  {
    var visited, queue := {target}, [target];
    order := [];
    ReachSelf(g, target);
    ghost var left := set n | n in g.nodes;
    while queue != []
      invariant Distinct(order + queue)
      invariant visited == set n | n in order + queue
      invariant target in visited
      invariant forall n :: n in visited ==> n in g.nodes && Reach(g, n, target)
      invariant forall e :: e in g.edges && e.1 in order ==> e.0 in visited
      invariant forall n :: n in left <==> n in g.nodes && n !in order
      decreases left
    {
      var node := queue[0];
      ghost var before, order0 := order + queue, order;
      queue := queue[1..];
      order := order + [node];
      assert order + queue == before;
      assert before[|order0|] == node && forall i :: 0 <= i < |order0| ==> before[i] == order0[i];
      assert node in before && node !in order0;
      left := left - {node};
      visited, queue := VisitPredecessors(g, target, node, order, visited, queue);
    }
    assert order + [] == order;
    ClosedHoldsReach(g, visited, target);
  }

  /** The inner loop: every predecessor not seen before is marked and queued. */
  method VisitPredecessors(g: Graph, ghost target: string, node: string, ghost order: seq<string>,
                           visited0: set<string>, queue0: seq<string>)
    returns (visited: set<string>, queue: seq<string>)
    requires Valid(g) && node in g.nodes && Reach(g, node, target)
    requires Distinct(order + queue0) && visited0 == set n | n in order + queue0
    requires forall n :: n in visited0 ==> n in g.nodes && Reach(g, n, target)
    ensures Distinct(order + queue) && visited == set n | n in order + queue
    ensures visited0 <= visited
    ensures forall n :: n in visited ==> n in g.nodes && Reach(g, n, target)
    ensures forall u :: (u, node) in g.edges ==> u in visited
  {
    visited, queue := visited0, queue0;
    var preds := Preds(g.edges, node);
    for j := 0 to |preds|
      invariant Distinct(order + queue) && visited == set n | n in order + queue
      invariant visited0 <= visited
      invariant forall n :: n in visited ==> n in g.nodes && Reach(g, n, target)
      invariant forall i :: 0 <= i < j ==> preds[i] in visited
    {
      var u := preds[j];
      assert u in preds;
      if u !in visited {
        ReachEdge(g, u, node, target);
        assert order + (queue + [u]) == (order + queue) + [u];
        visited, queue := visited + {u}, queue + [u];
      }
    }
  }
}
