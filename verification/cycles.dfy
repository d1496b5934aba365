/** `Graph.DFSForCycles` and the loop of `PrintCycles`: a depth-first
    search that consumes edges and stops at the first cycle it closes from
    each root. */
module Cycles {
  import opened Seqs
  import opened Graphs

  /** What the search mutates: the `visited` array, `currentPath`, the
      `cycles` list and the `visitedEdges` set. */
  datatype CycleState = CycleState(visited: set<int>, path: seq<int>, cycles: seq<seq<int>>, usedEdges: set<Edge>)

  /** The value a call returns (did it stop at a cycle?) and the state it
      leaves behind. */
  datatype Outcome = Outcome(found: bool, state: CycleState)

  /** The key an edge is consumed under: its endpoints, smaller first. */
  function EdgeKey(u: int, v: int): (key: Edge)
    ensures key.0 <= key.1
    ensures {key.0, key.1} == {u, v}
  {
    (Min(u, v), Max(u, v))
  }

  /** One call `DFSForCycles(node, visited, parent, …)`: mark and push
      `node` and scan its edges. A call that stops at a cycle returns at
      once, leaving `node` marked and on the path; one that does not
      unmarks and pops it, so it leaves the state as it found it. */
  function Visit(g: Graph, node: int, parent: int, st: CycleState): (r: Outcome)
    requires WellFormed(g)
    requires 0 <= node < |g.nodes| && node !in st.visited
    requires st.visited <= NodeSet(|g.nodes|)
    ensures !r.found ==> r.state == st
    ensures r.found ==> |r.state.cycles| == |st.cycles| + 1 && r.state.cycles[..|st.cycles|] == st.cycles
    ensures st.visited <= r.state.visited <= NodeSet(|g.nodes|)
    decreases NodeSet(|g.nodes|) - st.visited, 0, 0
  {
    var entered := st.(visited := st.visited + {node}, path := st.path + [node]);
    var o := Scan(g, node, parent, 0, entered);
    if o.found then o
    else Outcome(false, o.state.(path := o.state.path[..|o.state.path| - 1], visited := o.state.visited - {node}))
  }

  /** The `foreach` over the edges incident to `node`, from edge `k` on.
      An unvisited neighbour over an unconsumed edge is descended into with
      the edge consumed, and the edge is given back if that descent finds
      nothing. A visited neighbour other than the parent, reached over an
      unconsumed edge while the path holds more than two nodes, closes the
      cycle from its place on the path, if it is on the path. */
  function Scan(g: Graph, node: int, parent: int, k: nat, st: CycleState): (r: Outcome)
    requires WellFormed(g)
    requires 0 <= node < |g.nodes| && k <= |g.edges|
    requires st.visited <= NodeSet(|g.nodes|)
    ensures !r.found ==> r.state == st
    ensures r.found ==> |r.state.cycles| == |st.cycles| + 1 && r.state.cycles[..|st.cycles|] == st.cycles
    ensures st.visited <= r.state.visited <= NodeSet(|g.nodes|)
    decreases NodeSet(|g.nodes|) - st.visited, 1, |g.edges| - k
  {
    if k == |g.edges| then Outcome(false, st)
    else if !Incident(g.edges[k], node) then Scan(g, node, parent, k + 1, st)
    else
      var next := Other(g.edges[k], node);
      var key := EdgeKey(node, next);
      if next !in st.visited then
        if key !in st.usedEdges then
          var o := Visit(g, next, node, st.(usedEdges := st.usedEdges + {key}));
          if o.found then o
          else Scan(g, node, parent, k + 1, o.state.(usedEdges := o.state.usedEdges - {key}))
        else
          Scan(g, node, parent, k + 1, st)
      else if next != parent && |st.path| > 2 && key !in st.usedEdges then
        var at := IndexOf(st.path, next);
        if at != -1 then Outcome(true, st.(cycles := st.cycles + [st.path[at..] + [next]]))
        else Scan(g, node, parent, k + 1, st)
      else
        Scan(g, node, parent, k + 1, st)
  }

  /** The loop of `PrintCycles` from node `i` on: every node not left
      marked by an earlier root starts a search with a fresh current path
      and parent -1; `visited`, `cycles` and `visitedEdges` are shared. */
  function FromRoots(g: Graph, i: nat, st: CycleState): (r: CycleState)
    requires WellFormed(g) && i <= |g.nodes|
    requires st.visited <= NodeSet(|g.nodes|)
    ensures |st.cycles| <= |r.cycles| <= |st.cycles| + (|g.nodes| - i)
    ensures r.cycles[..|st.cycles|] == st.cycles
    decreases |g.nodes| - i
  {
    if i == |g.nodes| then st
    else if i in st.visited then FromRoots(g, i + 1, st)
    else FromRoots(g, i + 1, Visit(g, i, -1, st.(path := [])).state)
  }

  /** The cycles `PrintCycles` reports; each root contributes at most one,
      so there are no more cycles than nodes. */
  function FindCycles(g: Graph): (cycles: seq<seq<int>>)
    requires WellFormed(g)
    ensures |cycles| <= |g.nodes|
  {
    FromRoots(g, 0, CycleState({}, [], [], {})).cycles
  }

  predicate AllCycles(g: Graph, cs: seq<seq<int>>) {
    forall k :: 0 <= k < |cs| ==> IsCycle(g, cs[k])
  }

  /** A back edge from the end of the current path to a node on it, other
      than the parent, closes a cycle of at least three nodes. */
  lemma BackEdgeCloses(g: Graph, p: seq<int>, at: nat, parent: int)
    requires SimplePath(g, p) && |p| > 2 && at < |p|
    requires p[|p| - 2] == parent && p[at] != parent && p[at] != p[|p| - 1]
    requires Adjacent(g, p[|p| - 1], p[at])
    ensures IsCycle(g, p[at..] + [p[at]])
  {
    var c := p[at..] + [p[at]];
    SimpleSuffix(g, p, at);
    assert c[..|c| - 1] == p[at..];
  }

  lemma {:induction false} VisitSound(g: Graph, node: int, parent: int, st: CycleState)
    requires WellFormed(g) && NoSelfLoops(g)
    requires 0 <= node < |g.nodes| && node !in st.visited
    requires st.visited <= NodeSet(|g.nodes|)
    requires SimplePath(g, st.path) && Elems(st.path) <= st.visited && AllCycles(g, st.cycles)
    requires |st.path| > 0 ==> parent == st.path[|st.path| - 1] && Adjacent(g, parent, node)
    ensures AllCycles(g, Visit(g, node, parent, st).state.cycles)
    decreases NodeSet(|g.nodes|) - st.visited, 0, 0
  {
    var entered := st.(visited := st.visited + {node}, path := st.path + [node]);
    assert node !in Elems(st.path);
    ExtendSimplePath(g, st.path, node);
    ScanSound(g, node, parent, 0, entered);
  }

  lemma {:induction false} ScanSound(g: Graph, node: int, parent: int, k: nat, st: CycleState)
    requires WellFormed(g) && NoSelfLoops(g)
    requires 0 <= node < |g.nodes| && k <= |g.edges|
    requires st.visited <= NodeSet(|g.nodes|)
    requires SimplePath(g, st.path) && Elems(st.path) <= st.visited && AllCycles(g, st.cycles)
    requires |st.path| > 0 && st.path[|st.path| - 1] == node
    requires |st.path| > 1 ==> st.path[|st.path| - 2] == parent
    ensures AllCycles(g, Scan(g, node, parent, k, st).state.cycles)
    decreases NodeSet(|g.nodes|) - st.visited, 1, |g.edges| - k
  {
    if k < |g.edges| {
      if !Incident(g.edges[k], node) {
        ScanSound(g, node, parent, k + 1, st);
      } else {
        var next := Other(g.edges[k], node);
        var key := EdgeKey(node, next);
        assert Adjacent(g, node, next);
        if next !in st.visited {
          if key !in st.usedEdges {
            var consumed := st.(usedEdges := st.usedEdges + {key});
            VisitSound(g, next, node, consumed);
            var o := Visit(g, next, node, consumed);
            if !o.found {
              assert o.state.(usedEdges := o.state.usedEdges - {key}) == st;
              ScanSound(g, node, parent, k + 1, st);
            }
          } else {
            ScanSound(g, node, parent, k + 1, st);
          }
        } else if next != parent && |st.path| > 2 && key !in st.usedEdges {
          var at := IndexOf(st.path, next);
          if at != -1 {
            BackEdgeCloses(g, st.path, at, parent);
          } else {
            ScanSound(g, node, parent, k + 1, st);
          }
        } else {
          ScanSound(g, node, parent, k + 1, st);
        }
      }
    }
  }

  lemma {:induction false} FromRootsSound(g: Graph, i: nat, st: CycleState)
    requires WellFormed(g) && NoSelfLoops(g) && i <= |g.nodes|
    requires st.visited <= NodeSet(|g.nodes|)
    requires AllCycles(g, st.cycles)
    ensures AllCycles(g, FromRoots(g, i, st).cycles)
    decreases |g.nodes| - i
  {
    if i < |g.nodes| {
      if i in st.visited {
        FromRootsSound(g, i + 1, st);
      } else {
        var root := st.(path := []);
        assert SimplePath(g, root.path) && Elems(root.path) == {};
        VisitSound(g, i, -1, root);
        var after := Visit(g, i, -1, root).state;
        assert FromRoots(g, i, st) == FromRoots(g, i + 1, after);
        FromRootsSound(g, i + 1, after);
      }
    }
  }

  /** Every reported cycle is closed, has at least three distinct nodes
      before the closing repeat, and steps along edges of the graph. */
  lemma FoundCyclesAreCycles(g: Graph)
    requires WellFormed(g) && NoSelfLoops(g)
    ensures AllCycles(g, FindCycles(g))
  {
    FromRootsSound(g, 0, CycleState({}, [], [], {}));
  }
}
