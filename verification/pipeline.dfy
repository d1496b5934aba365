/** The stages put together as the program runs them: nodes → relations →
    graphs → searches. */
module Pipeline {
  import opened Seqs
  import opened Knowledge
  import opened Labels
  import opened Graphs
  import opened Relations
  import LongestPath
  import Cycles

  /** In the graph `GenerateGraph` derives, two nodes are neighbours
      exactly when they are different nodes holding a statement in common. */
  lemma GeneratedAdjacency(nodes: seq<Node>)
    ensures var g := GenerateGraph(Derive(nodes));
            forall u, v :: Adjacent(g, u, v) <==>
              0 <= u < |nodes| && 0 <= v < |nodes| && u != v &&
              |Elems(nodes[u].statements) * Elems(nodes[v].statements)| > 0
  {
    var rel := Derive(nodes);
    var g := GenerateGraph(rel);
    assert rel.matrix == AcceptanceMatrix(nodes);
    forall u, v
      ensures Adjacent(g, u, v) <==>
              0 <= u < |nodes| && 0 <= v < |nodes| && u != v &&
              |Elems(nodes[u].statements) * Elems(nodes[v].statements)| > 0
    {
      AdjacentIffEdge(g, u, v);
    }
  }

  /** The derived graph's edge list and the friendship list before sorting
      name the same pairs in the same order. */
  lemma EdgesAreFriendshipPairs(nodes: seq<Node>)
    ensures var rel := Derive(nodes);
            GenerateGraph(rel).edges == PairsOf(EmitFriendships(nodes, rel.matrix))
  {
  }

  /** The graph `GenerateGraphWithGrades` derives has no edge list, so the
      searches find no cycle and only single-node paths on it. */
  lemma GradedGraphSearches(rel: Relations)
    ensures var g := GenerateGraphWithGrades(rel);
            && Cycles.FindCycles(g) == []
            && (|rel.matrix| > 0 ==> |LongestPath.LongestPath(g)| == 1)
  {
    var g := GenerateGraphWithGrades(rel);
    var path := LongestPath.LongestPath(g);
    LongestPath.LongestPathIsLongest(g);
    EdgelessPaths(g, path);
    var cycles := Cycles.FindCycles(g);
    Cycles.FoundCyclesAreCycles(g);
    EdgelessCycles(g, cycles);
  }

  lemma WalkStep(g: Graph, p: seq<int>, i: nat)
    requires IsWalk(g, p) && i < |p| - 1
    ensures Adjacent(g, p[i], p[i + 1])
  {
  }

  lemma FirstCycleCloses(g: Graph, cs: seq<seq<int>>)
    requires Cycles.AllCycles(g, cs) && |cs| > 0
    ensures Adjacent(g, cs[0][|cs[0]| - 2], cs[0][|cs[0]| - 1])
  {
  }

  /** Without edges a walk has at most one node. */
  lemma EdgelessPaths(g: Graph, p: seq<int>)
    requires |g.edges| == 0 && IsWalk(g, p)
    ensures |p| <= 1
  {
    if |p| > 1 {
      WalkStep(g, p, 0);
      assert false;
    }
  }

  /** Without edges there is no cycle. */
  lemma EdgelessCycles(g: Graph, cs: seq<seq<int>>)
    requires |g.edges| == 0 && Cycles.AllCycles(g, cs)
    ensures cs == []
  {
    if |cs| > 0 {
      FirstCycleCloses(g, cs);
      assert false;
    }
  }

  /** Three nodes sharing one statement pairwise and a fourth knowing
      nothing. */
  function TriangleNodes(): seq<Node> {
    [Node(["x", "y"]), Node(["y", "z"]), Node(["z", "x"]), Node([])]
  }

  /** The matrix of the triangle scenario: grade 1 around the triangle and
      0 towards the node that knows nothing. */
  lemma TriangleMatrix()
    ensures var m := AcceptanceMatrix(TriangleNodes());
            && m[0][1] == 1 && m[1][2] == 1 && m[0][2] == 1
            && m[0][3] == 0 && m[1][3] == 0 && m[2][3] == 0
  {
    var nodes := TriangleNodes();
    assert Elems(nodes[0].statements) == {"x", "y"};
    assert Elems(nodes[1].statements) == {"y", "z"};
    assert Elems(nodes[2].statements) == {"z", "x"};
    assert Elems(nodes[3].statements) == {};
    assert {"x", "y"} * {"y", "z"} == {"y"};
    assert {"y", "z"} * {"z", "x"} == {"z"};
    assert {"x", "y"} * {"z", "x"} == {"x"};
  }

  /** The triangle scenario's graph: the three triangle edges, in row-major
      order, and nothing towards the fourth node. */
  lemma TriangleGraph()
    ensures GenerateGraph(Derive(TriangleNodes())).edges == [(0, 1), (0, 2), (1, 2)]
  {
    TriangleMatrix();
    TrianglePairs(AcceptanceMatrix(TriangleNodes()));
  }

  /** The row-major scan of a 4×4 matrix whose upper triangle is positive
      exactly at (0, 1), (0, 2) and (1, 2). */
  lemma TrianglePairs(m: Matrix)
    requires IsSquare(m, 4)
    requires m[0][1] > 0 && m[0][2] > 0 && m[1][2] > 0
    requires m[0][3] == 0 && m[1][3] == 0 && m[2][3] == 0
    ensures PositivePairs(m, 4) == [(0, 1), (0, 2), (1, 2)]
  {
    assert RowPairs(m, 4, 0, 3) == [];
    assert RowPairs(m, 4, 0, 2) == [(0, 2)];
    assert RowPairs(m, 4, 0, 1) == [(0, 1), (0, 2)];
    assert RowPairs(m, 4, 1, 3) == [];
    assert RowPairs(m, 4, 1, 2) == [(1, 2)];
    assert RowPairs(m, 4, 2, 3) == [];
    assert RowPairs(m, 4, 3, 4) == [];
    assert PairsFrom(m, 4, 3) == [];
    assert PairsFrom(m, 4, 2) == [];
    assert PairsFrom(m, 4, 1) == [(1, 2)];
  }

  /** Two triangles 0-1-2 and 3-4-5 joined by the edge 2-3. */
  function TwoTriangles(): Graph {
    Graph(NodeLabels(6), [(0, 1), (1, 2), (0, 2), (2, 3), (3, 4), (4, 5), (3, 5)], [])
  }

  /** What the traces below use of `TwoTriangles()`: six nodes and its
      edge list, whatever the labels. */
  predicate ShapedLikeTwoTriangles(g: Graph) {
    && WellFormed(g)
    && |g.nodes| == 6
    && g.edges == [(0, 1), (1, 2), (0, 2), (2, 3), (3, 4), (4, 5), (3, 5)]
  }

  /** The state after root 0 has closed the first triangle. */
  function FirstClosed(): Cycles.CycleState {
    Cycles.CycleState({0, 1, 2}, [0, 1, 2], [[0, 1, 2, 0]], {(0, 1), (1, 2)})
  }

  /** The state after root 3 has closed the second triangle. */
  function SecondClosed(): Cycles.CycleState {
    Cycles.CycleState({0, 1, 2, 3, 4, 5}, [3, 4, 5], [[0, 1, 2, 0], [3, 4, 5, 3]], {(0, 1), (1, 2), (3, 4), (4, 5)})
  }

  /** From path 0-1, the search descends to 2 and closes 0-1-2-0 over the
      edge (0, 2). */
  lemma FirstTriangleInner(g: Graph)
    requires ShapedLikeTwoTriangles(g)
    ensures Cycles.Scan(g, 1, 0, 0, Cycles.CycleState({0, 1}, [0, 1], [], {(0, 1)}))
         == Cycles.Outcome(true, FirstClosed())
  {
    var done1 := FirstClosed();
    var at2 := Cycles.CycleState({0, 1, 2}, [0, 1, 2], [], {(0, 1), (1, 2)});
    assert Cycles.EdgeKey(2, 0) == (0, 2) && IndexOf(at2.path, 0) == 0;
    assert at2.path[0..] + [0] == [0, 1, 2, 0];
    assert Cycles.Scan(g, 2, 1, 2, at2) == Cycles.Outcome(true, done1);
    assert Cycles.Scan(g, 2, 1, 0, at2) == Cycles.Outcome(true, done1);
    var at1 := Cycles.CycleState({0, 1}, [0, 1], [], {(0, 1)});
    assert at1.(usedEdges := {(0, 1), (1, 2)}).(visited := {0, 1} + {2}, path := [0, 1] + [2]) == at2;
    assert Cycles.Visit(g, 2, 1, at1.(usedEdges := {(0, 1), (1, 2)})) == Cycles.Outcome(true, done1);
    assert Cycles.EdgeKey(1, 2) == (1, 2) && at1.usedEdges + {(1, 2)} == {(0, 1), (1, 2)};
    assert Cycles.Scan(g, 1, 0, 1, at1) == Cycles.Outcome(true, done1);
  }

  /** Root 0 reaches 1 first and, through it, closes the first triangle. */
  lemma FirstTriangle(g: Graph)
    requires ShapedLikeTwoTriangles(g)
    ensures Cycles.Visit(g, 0, -1, Cycles.CycleState({}, [], [], {}))
         == Cycles.Outcome(true, FirstClosed())
  {
    var done1 := FirstClosed();
    var at1 := Cycles.CycleState({0, 1}, [0, 1], [], {(0, 1)});
    FirstTriangleInner(g);
    var at0 := Cycles.CycleState({0}, [0], [], {});
    assert at0.(usedEdges := {(0, 1)}).(visited := {0} + {1}, path := [0] + [1]) == at1;
    assert Cycles.Visit(g, 1, 0, at0.(usedEdges := {(0, 1)})) == Cycles.Outcome(true, done1);
    assert Cycles.EdgeKey(0, 1) == (0, 1) && at0.usedEdges + {(0, 1)} == {(0, 1)};
    assert Cycles.Scan(g, 0, -1, 0, at0) == Cycles.Outcome(true, done1);
    var init := Cycles.CycleState({}, [], [], {});
    assert init.(visited := {} + {0}, path := [] + [0]) == at0;
  }

  /** From path 3-4, the search descends to 5 and closes 3-4-5-3 over the
      edge (3, 5). */
  lemma SecondTriangleInner(g: Graph)
    requires ShapedLikeTwoTriangles(g)
    ensures Cycles.Scan(g, 4, 3, 0, Cycles.CycleState({0, 1, 2, 3, 4}, [3, 4], [[0, 1, 2, 0]], {(0, 1), (1, 2), (3, 4)}))
         == Cycles.Outcome(true, SecondClosed())
  {
    var done2 := SecondClosed();
    var used2 := {(0, 1), (1, 2), (3, 4), (4, 5)};
    var at5 := Cycles.CycleState({0, 1, 2, 3, 4, 5}, [3, 4, 5], [[0, 1, 2, 0]], used2);
    assert at5.path[0..] + [3] == [3, 4, 5, 3];
    assert at5.cycles + [[3, 4, 5, 3]] == [[0, 1, 2, 0], [3, 4, 5, 3]];
    assert done2 == at5.(cycles := at5.cycles + [at5.path[0..] + [3]]);
    assert Cycles.EdgeKey(5, 3) == (3, 5) && IndexOf(at5.path, 3) == 0;
    assert Cycles.Scan(g, 5, 4, 6, at5) == Cycles.Outcome(true, done2);
    assert Cycles.Scan(g, 5, 4, 5, at5) == Cycles.Outcome(true, done2);
    assert Cycles.Scan(g, 5, 4, 4, at5) == Cycles.Outcome(true, done2);
    assert Cycles.Scan(g, 5, 4, 3, at5) == Cycles.Outcome(true, done2);
    assert Cycles.Scan(g, 5, 4, 2, at5) == Cycles.Outcome(true, done2);
    assert Cycles.Scan(g, 5, 4, 1, at5) == Cycles.Outcome(true, done2);
    assert Cycles.Scan(g, 5, 4, 0, at5) == Cycles.Outcome(true, done2);
    var at4 := Cycles.CycleState({0, 1, 2, 3, 4}, [3, 4], [[0, 1, 2, 0]], {(0, 1), (1, 2), (3, 4)});
    assert at4.(usedEdges := used2).(visited := at4.visited + {5}, path := [3, 4] + [5]) == at5;
    assert Cycles.Visit(g, 5, 4, at4.(usedEdges := used2)) == Cycles.Outcome(true, done2);
    assert Cycles.EdgeKey(4, 5) == (4, 5) && at4.usedEdges + {(4, 5)} == used2;
    assert Cycles.Scan(g, 4, 3, 5, at4) == Cycles.Outcome(true, done2);
    assert Cycles.Scan(g, 4, 3, 4, at4) == Cycles.Outcome(true, done2);
    assert Cycles.Scan(g, 4, 3, 3, at4) == Cycles.Outcome(true, done2);
    assert Cycles.Scan(g, 4, 3, 2, at4) == Cycles.Outcome(true, done2);
    assert Cycles.Scan(g, 4, 3, 1, at4) == Cycles.Outcome(true, done2);
  }

  /** From path 3, the search descends to 4 over the edge (3, 4). */
  lemma SecondTriangleMiddle(g: Graph)
    requires ShapedLikeTwoTriangles(g)
    ensures Cycles.Scan(g, 3, -1, 4, Cycles.CycleState({0, 1, 2, 3}, [3], [[0, 1, 2, 0]], {(0, 1), (1, 2)}))
         == Cycles.Outcome(true, SecondClosed())
  {
    var done2 := SecondClosed();
    var at4 := Cycles.CycleState({0, 1, 2, 3, 4}, [3, 4], [[0, 1, 2, 0]], {(0, 1), (1, 2), (3, 4)});
    SecondTriangleInner(g);
    var at3 := Cycles.CycleState({0, 1, 2, 3}, [3], [[0, 1, 2, 0]], {(0, 1), (1, 2)});
    assert at3.(usedEdges := {(0, 1), (1, 2), (3, 4)}).(visited := at3.visited + {4}, path := [3] + [4]) == at4;
    assert Cycles.Visit(g, 4, 3, at3.(usedEdges := {(0, 1), (1, 2), (3, 4)})) == Cycles.Outcome(true, done2);
    assert Cycles.EdgeKey(3, 4) == (3, 4) && at3.usedEdges + {(3, 4)} == {(0, 1), (1, 2), (3, 4)};
  }

  /** Root 3, with 0, 1 and 2 still marked, skips the edges into them and
      closes the second triangle. */
  lemma SecondTriangle(g: Graph)
    requires ShapedLikeTwoTriangles(g)
    ensures Cycles.Visit(g, 3, -1, FirstClosed().(path := []))
         == Cycles.Outcome(true, SecondClosed())
  {
    var done2 := SecondClosed();
    SecondTriangleMiddle(g);
    var at3 := Cycles.CycleState({0, 1, 2, 3}, [3], [[0, 1, 2, 0]], {(0, 1), (1, 2)});
    assert Cycles.Scan(g, 3, -1, 2, at3) == Cycles.Outcome(true, done2);
    assert Cycles.Scan(g, 3, -1, 0, at3) == Cycles.Outcome(true, done2);
    assert FirstClosed().(path := []).(visited := FirstClosed().visited + {3}, path := [] + [3]) == at3;
  }

  /** Nodes 0 to 5 lie on one simple path, so the two triangles are in a
      single connected component. */
  lemma TwoTrianglesConnected()
    ensures SimplePath(TwoTriangles(), [0, 1, 2, 3, 4, 5])
  {
    var g := TwoTriangles();
    var p := [0, 1, 2, 3, 4, 5];
    forall i | 0 <= i < |p| - 1
      ensures Adjacent(g, p[i], p[i + 1])
    {
      var k := if i < 2 then i else i + 1;
      assert Incident(g.edges[k], p[i]) && Other(g.edges[k], p[i]) == p[i + 1];
    }
  }

  /** Roots 3 to 5: root 3 closes the second triangle, and 4 and 5 are
      skipped because they are left marked. */
  lemma LaterRoots(g: Graph)
    requires ShapedLikeTwoTriangles(g)
    ensures Cycles.FromRoots(g, 3, FirstClosed()) == SecondClosed()
  {
    var done2 := SecondClosed();
    SecondTriangle(g);
    assert Cycles.FromRoots(g, 6, done2) == done2;
    assert Cycles.FromRoots(g, 4, done2) == done2;
  }

  /** All six roots: root 0 closes the first triangle, 1 and 2 are
      skipped, and roots 3 to 5 close the second. */
  lemma AllRoots(g: Graph)
    requires ShapedLikeTwoTriangles(g)
    ensures Cycles.FindCycles(g) == [[0, 1, 2, 0], [3, 4, 5, 3]]
  {
    var done1 := FirstClosed();
    FirstTriangle(g);
    LaterRoots(g);
    assert Cycles.FromRoots(g, 1, done1) == SecondClosed();
  }

  /** The cycle search reports one cycle per triangle although the graph is
      a single connected component: the first root leaves 0, 1, 2 marked,
      and root 3 then closes the second triangle on its own. */
  lemma TwoCyclesInOneComponent()
    ensures SimplePath(TwoTriangles(), [0, 1, 2, 3, 4, 5])
    ensures Cycles.FindCycles(TwoTriangles()) == [[0, 1, 2, 0], [3, 4, 5, 3]]
  {
    TwoTrianglesConnected();
    assert ShapedLikeTwoTriangles(TwoTriangles());
    AllRoots(TwoTriangles());
  }
}
