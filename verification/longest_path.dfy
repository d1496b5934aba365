/** `Graph.DFSForLongestPath` and the loop of `PrintLongestPath`: an
    exhaustive backtracking search, from every start node, for a simple
    path with the most nodes. */
module LongestPath {
  import opened Seqs
  import opened Graphs

  /** What the search mutates: the `visited` array, `currentPath`, and the
      `longestPath` passed by reference. */
  datatype SearchState = SearchState(visited: set<int>, path: seq<int>, best: seq<int>)

  /** One call `DFSForLongestPath(node, …)`: mark and push `node`, recurse
      into every unvisited neighbour in edge-list order, keep the current
      path if it is strictly longer than the best, then unmark and pop. */
  function Visit(g: Graph, node: int, st: SearchState): (r: SearchState)
    requires WellFormed(g)
    requires 0 <= node < |g.nodes| && node !in st.visited
    requires st.visited <= NodeSet(|g.nodes|)
    ensures r.visited == st.visited && r.path == st.path
    ensures |r.best| >= |st.best| && |r.best| > |st.path|
    decreases NodeSet(|g.nodes|) - st.visited, 0, 0
  {
    var entered := SearchState(st.visited + {node}, st.path + [node], st.best);
    var explored := Explore(g, node, 0, entered);
    var kept := if |explored.path| > |explored.best| then explored.(best := explored.path) else explored;
    SearchState(kept.visited - {node}, kept.path[..|kept.path| - 1], kept.best)
  }

  /** The `foreach` over the edges incident to `node`, from edge `k` on. */
  function Explore(g: Graph, node: int, k: nat, st: SearchState): (r: SearchState)
    requires WellFormed(g)
    requires 0 <= node < |g.nodes| && k <= |g.edges|
    requires st.visited <= NodeSet(|g.nodes|)
    ensures r.visited == st.visited && r.path == st.path && |r.best| >= |st.best|
    decreases NodeSet(|g.nodes|) - st.visited, 1, |g.edges| - k
  {
    if k == |g.edges| then st
    else if Incident(g.edges[k], node) && Other(g.edges[k], node) !in st.visited then
      Explore(g, node, k + 1, Visit(g, Other(g.edges[k], node), st))
    else
      Explore(g, node, k + 1, st)
  }

  /** The loop of `PrintLongestPath` from start node `i` on: a start
      current path per start, the same `visited` array and best path. */
  function FromRoots(g: Graph, i: nat, st: SearchState): (r: SearchState)
    requires WellFormed(g) && i <= |g.nodes| && st.visited == {}
    ensures r.visited == {} && |r.best| >= |st.best|
    ensures i < |g.nodes| ==> |r.best| >= 1
    decreases |g.nodes| - i
  {
    if i == |g.nodes| then st
    else FromRoots(g, i + 1, Visit(g, i, SearchState(st.visited, [], st.best)))
  }

  /** The path `PrintLongestPath` prints. */
  function LongestPath(g: Graph): (p: seq<int>)
    requires WellFormed(g)
    ensures |g.nodes| > 0 ==> |p| >= 1
  {
    FromRoots(g, 0, SearchState({}, [], [])).best
  }

  /** The search state while descending: the current path is simple and
      its nodes are exactly the visited ones, and the best path is simple. */
  predicate Consistent(g: Graph, st: SearchState) {
    SimplePath(g, st.path) && Elems(st.path) == st.visited && SimplePath(g, st.best)
  }

  lemma {:induction false} VisitSound(g: Graph, node: int, st: SearchState)
    requires WellFormed(g)
    requires 0 <= node < |g.nodes| && node !in st.visited
    requires st.visited <= NodeSet(|g.nodes|)
    requires Consistent(g, st)
    requires |st.path| > 0 ==> Adjacent(g, st.path[|st.path| - 1], node)
    ensures SimplePath(g, Visit(g, node, st).best)
    decreases NodeSet(|g.nodes|) - st.visited, 0, 0
  {
    var entered := SearchState(st.visited + {node}, st.path + [node], st.best);
    ExtendSimplePath(g, st.path, node);
    assert Elems(entered.path) == entered.visited;
    ExploreSound(g, node, 0, entered);
  }

  lemma {:induction false} ExploreSound(g: Graph, node: int, k: nat, st: SearchState)
    requires WellFormed(g)
    requires 0 <= node < |g.nodes| && k <= |g.edges|
    requires st.visited <= NodeSet(|g.nodes|)
    requires Consistent(g, st) && |st.path| > 0 && st.path[|st.path| - 1] == node
    ensures Consistent(g, Explore(g, node, k, st))
    decreases NodeSet(|g.nodes|) - st.visited, 1, |g.edges| - k
  {
    if k < |g.edges| {
      var next := Other(g.edges[k], node);
      if Incident(g.edges[k], node) && next !in st.visited {
        assert Adjacent(g, node, next);
        VisitSound(g, next, st);
        ExploreSound(g, node, k + 1, Visit(g, next, st));
      } else {
        ExploreSound(g, node, k + 1, st);
      }
    }
  }

  /** A simple path starting at `start` that avoids the nodes in `avoid`. */
  predicate FreshPathFrom(g: Graph, w: seq<int>, start: int, avoid: set<int>) {
    SimplePath(g, w) && |w| > 0 && w[0] == start && Elems(w) !! avoid
  }

  /** After visiting `node`, the best path is at least as long as the
      current path extended by any simple path from `node` through
      unvisited nodes. */
  lemma {:induction false} VisitLongest(g: Graph, node: int, st: SearchState)
    requires WellFormed(g)
    requires 0 <= node < |g.nodes| && node !in st.visited
    requires st.visited <= NodeSet(|g.nodes|)
    ensures forall w :: FreshPathFrom(g, w, node, st.visited) ==> |Visit(g, node, st).best| >= |st.path| + |w|
    decreases NodeSet(|g.nodes|) - st.visited, 0, 0
  {
    var entered := SearchState(st.visited + {node}, st.path + [node], st.best);
    ExploreLongest(g, node, 0, entered);
    forall w | FreshPathFrom(g, w, node, st.visited)
      ensures |Visit(g, node, st).best| >= |st.path| + |w|
    {
      if |w| > 1 {
        var rest := w[1..];
        assert Adjacent(g, w[0], w[1]);
        assert forall i :: 0 <= i < |rest| ==> rest[i] == w[i + 1];
        assert SimplePath(g, rest);
        assert node !in rest;
        assert Elems(rest) !! entered.visited;
        assert FreshPathFrom(g, rest, rest[0], entered.visited);
      }
    }
  }

  /** Exploring the edges from `k` on covers every simple path that leaves
      `node` over one of them and avoids the visited nodes. */
  lemma {:induction false} ExploreLongest(g: Graph, node: int, k: nat, st: SearchState)
    requires WellFormed(g)
    requires 0 <= node < |g.nodes| && k <= |g.edges|
    requires st.visited <= NodeSet(|g.nodes|)
    ensures forall w :: |w| > 0 && FreshPathFrom(g, w, w[0], st.visited) && AdjacentFrom(g, node, w[0], k) ==>
              |Explore(g, node, k, st).best| >= |st.path| + |w|
    decreases NodeSet(|g.nodes|) - st.visited, 1, |g.edges| - k
  {
    if k < |g.edges| {
      var next := Other(g.edges[k], node);
      var taken := Incident(g.edges[k], node) && next !in st.visited;
      var after := if taken then Visit(g, next, st) else st;
      if taken {
        VisitLongest(g, next, st);
      }
      ExploreLongest(g, node, k + 1, after);
      forall w | |w| > 0 && FreshPathFrom(g, w, w[0], st.visited) && AdjacentFrom(g, node, w[0], k)
        ensures |Explore(g, node, k, st).best| >= |st.path| + |w|
      {
        var j :| k <= j < |g.edges| && Incident(g.edges[j], node) && Other(g.edges[j], node) == w[0];
        if j == k {
          assert w[0] in Elems(w);
          assert FreshPathFrom(g, w, next, st.visited);
        } else {
          assert AdjacentFrom(g, node, w[0], k + 1);
        }
      }
    }
  }

  lemma {:induction false} FromRootsSound(g: Graph, i: nat, st: SearchState)
    requires WellFormed(g) && i <= |g.nodes| && st.visited == {}
    requires SimplePath(g, st.best)
    ensures SimplePath(g, FromRoots(g, i, st).best)
    decreases |g.nodes| - i
  {
    if i < |g.nodes| {
      var start := SearchState(st.visited, [], st.best);
      VisitSound(g, i, start);
      FromRootsSound(g, i + 1, Visit(g, i, start));
    }
  }

  /** No simple path starting at node `i` or later is longer than the best
      path the roots from `i` on leave behind. */
  lemma {:induction false} FromRootsLongest(g: Graph, i: nat, st: SearchState, w: seq<int>)
    requires WellFormed(g) && i <= |g.nodes| && st.visited == {}
    requires SimplePath(g, w) && |w| > 0 && i <= w[0]
    ensures |FromRoots(g, i, st).best| >= |w|
    decreases |g.nodes| - i
  {
    assert w[0] in Elems(w);
    var start := SearchState(st.visited, [], st.best);
    var after := Visit(g, i, start);
    if w[0] == i {
      VisitLongest(g, i, start);
      assert FreshPathFrom(g, w, i, start.visited);
    } else {
      FromRootsLongest(g, i + 1, after, w);
    }
  }

  /** The printed path is a simple path of the graph, and no simple path of
      the graph has more nodes. */
  lemma LongestPathIsLongest(g: Graph)
    requires WellFormed(g)
    ensures SimplePath(g, LongestPath(g))
    ensures forall w :: SimplePath(g, w) ==> |w| <= |LongestPath(g)|
  {
    var init := SearchState({}, [], []);
    FromRootsSound(g, 0, init);
    forall w | SimplePath(g, w)
      ensures |w| <= |LongestPath(g)|
    {
      if |w| > 0 {
        FromRootsLongest(g, 0, init, w);
      }
    }
  }
}
