/** The graph the relations are turned into (`Graph` in the source): node
    labels, an edge list of index pairs and, optionally, the acceptance
    matrix as weights; plus the vocabulary both searches are stated in. */
module Graphs {
  import opened Seqs

  type Edge = (int, int)

  datatype Graph = Graph(nodes: seq<string>, edges: seq<Edge>, matrix: seq<seq<int>>)

  /** Every edge names two existing nodes; the searches index their
      `visited` arrays with edge endpoints and rely on this. */
  predicate WellFormed(g: Graph) {
    forall k :: 0 <= k < |g.edges| ==> 0 <= g.edges[k].0 < |g.nodes| && 0 <= g.edges[k].1 < |g.nodes|
  }

  /** No edge joins a node to itself. */
  predicate NoSelfLoops(g: Graph) {
    forall k :: 0 <= k < |g.edges| ==> g.edges[k].0 != g.edges[k].1
  }

  /** The indices 0 .. n-1. */
  function NodeSet(n: nat): (r: set<int>)
    ensures forall i :: i in r <==> 0 <= i < n
  {
    if n == 0 then {} else NodeSet(n - 1) + {n - 1}
  }

  /** `e.Item1 == node || e.Item2 == node`: the filter both searches put
      on the edge list. */
  predicate Incident(e: Edge, u: int) {
    e.0 == u || e.1 == u
  }

  /** `e.Item1 == node ? e.Item2 : e.Item1`: the neighbour reached over `e`. */
  function Other(e: Edge, u: int): int {
    if e.0 == u then e.1 else e.0
  }

  /** `v` is reached from `u` over some edge at position `from` or later. */
  predicate AdjacentFrom(g: Graph, u: int, v: int, from: nat) {
    exists k :: from <= k < |g.edges| && Incident(g.edges[k], u) && Other(g.edges[k], u) == v
  }

  /** `v` is a neighbour of `u`, in the sense the searches step along. */
  predicate Adjacent(g: Graph, u: int, v: int) {
    AdjacentFrom(g, u, v, 0)
  }

  /** Stepping from `u` to `v` is possible exactly when the edge list holds
      the pair in one orientation or the other. */
  lemma AdjacentIffEdge(g: Graph, u: int, v: int)
    ensures Adjacent(g, u, v) <==> (u, v) in g.edges || (v, u) in g.edges
  {
    if (u, v) in g.edges {
      var k :| 0 <= k < |g.edges| && g.edges[k] == (u, v);
      assert Incident(g.edges[k], u) && Other(g.edges[k], u) == v;
    } else if (v, u) in g.edges {
      var k :| 0 <= k < |g.edges| && g.edges[k] == (v, u);
      assert Incident(g.edges[k], u) && Other(g.edges[k], u) == v;
    }
    if Adjacent(g, u, v) {
      var k :| 0 <= k < |g.edges| && Incident(g.edges[k], u) && Other(g.edges[k], u) == v;
      assert g.edges[k] == (u, v) || g.edges[k] == (v, u);
    }
  }

  predicate InRange(g: Graph, p: seq<int>) {
    forall i :: 0 <= i < |p| ==> 0 <= p[i] < |g.nodes|
  }

  /** Consecutive nodes of `p` are neighbours. */
  predicate IsWalk(g: Graph, p: seq<int>) {
    forall i :: 0 <= i < |p| - 1 ==> Adjacent(g, p[i], p[i + 1])
  }

  /** A path that visits no node twice (the empty path included). */
  predicate SimplePath(g: Graph, p: seq<int>) {
    InRange(g, p) && NoDuplicates(p) && IsWalk(g, p)
  }

  /** Stepping from the end of a simple path to a neighbour not on it gives
      a simple path. */
  lemma ExtendSimplePath(g: Graph, p: seq<int>, v: int)
    requires SimplePath(g, p) && 0 <= v < |g.nodes| && v !in p
    requires |p| > 0 ==> Adjacent(g, p[|p| - 1], v)
    ensures SimplePath(g, p + [v])
  {
    var q := p + [v];
    forall i | 0 <= i < |q| - 1
      ensures Adjacent(g, q[i], q[i + 1])
    {
      if i < |p| - 1 {
        assert q[i] == p[i] && q[i + 1] == p[i + 1];
      }
    }
  }

  /** A stretch of a simple path is a simple path. */
  lemma SimpleSuffix(g: Graph, p: seq<int>, at: nat)
    requires SimplePath(g, p) && at <= |p|
    ensures SimplePath(g, p[at..])
  {
    var q := p[at..];
    assert forall i :: 0 <= i < |q| ==> q[i] == p[at + i];
  }

  /** A closed walk `v0, …, vk, v0` with at least three distinct nodes
      before the closing repeat. */
  predicate IsCycle(g: Graph, c: seq<int>) {
    |c| >= 4 && c[0] == c[|c| - 1] && SimplePath(g, c[..|c| - 1]) && Adjacent(g, c[|c| - 2], c[|c| - 1])
  }
}
