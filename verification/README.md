# Relation engine of `appka.cs`, modelled in Dafny

The program assigns statements (strings) to a population of knowledge
holders, the `Node`s. It then derives relations between them:

- an acceptance matrix, where entry (i, j) is how many distinct values nodes i and j both hold;
- a list of graded friendships, one per related pair, sorted by grade;
- a graph whose edges join related nodes.

Two depth-first searches run over that graph. One finds a longest simple path. The other reports cycles, stopping at the first cycle found from each root.

The model follows the code's structure, one module per concern:

| module | file | what it holds |
|---|---|---|
| `Seqs` | seqs.dfy | values of a list, distinctness, `List.IndexOf` |
| `Knowledge` | knowledge.dfy | `Node`, the three `Share` views, LINQ `Take`/`Skip`/`Intersect`, `Listen`/`Compare` |
| `Labels` | labels.dfy | the `"Node k"` labels and their distinctness |
| `Graphs` | graphs.dfy | `Graph`, neighbourhood as the searches see it, simple paths and cycles |
| `Relations` | relations.dfy | `BuildMatrix`, `BuildFriendships` with its sort, `GenerateGraph`, `GenerateGraphWithGrades` |
| `LongestPath` | longest_path.dfy | `DFSForLongestPath` and the loop of `PrintLongestPath` |
| `Cycles` | cycles.dfy | `DFSForCycles` and the loop of `PrintCycles` |
| `Pipeline` | pipeline.dfy | properties across stages, and two worked scenarios |

Every mutable structure is modelled as a value threaded through pure functions:
- the `visited` arrays;
- `currentPath`;
- the `ref longestPath`;
- the `cycles` list;
- the `visitedEdges` hash set.

Each search call returns the state it leaves behind. The contracts then say what that state is: whether it is restored after backtracking, and what it holds after an early return.

## Model

| member | source | states |
|---|---|---|
| Knowledge.Take | appka.cs:134 | LINQ `Take` yields the first `count` elements, clipped to the list; a count of zero or less yields nothing |
| Knowledge.Skip | appka.cs:135 | LINQ `Skip` drops the first `count` elements, clipped to the list; a count of zero or less drops nothing |
| Knowledge.Share | appka.cs:133 | `Share()` is a copy of the statements: every one of them, in order |
| Knowledge.ShareIsWidestView | appka.cs:133-135 | the full copy equals `Share(n)` for any n at least the list's length, and `Share(0, j)` for any j from the last index up to `int.MaxValue - 1` |
| Knowledge.ShareFirst | appka.cs:134 | `Share(n)` is a prefix of the statements, of length min(n, count) for positive n and empty otherwise |
| Knowledge.ShareRange | appka.cs:135 | with the count j - i + 1 inside the `int` range, `Share(i, j)` is the slice i..j inclusive, clipped to the list, empty when j < i, and for negative i the first j - i + 1 statements rather than a shifted window; a count above `int.MaxValue` wraps to zero or below and yields nothing; a count below `int.MinValue` wraps to one that runs 2^32 past j + 1 |
| Knowledge.ShareRangeWraps | appka.cs:135 | `Share(0, int.MaxValue)` is empty, and `Share(2, int.MinValue)` is every statement from position 2 on |
| Knowledge.ShareRangeExtendsShareFirst | appka.cs:134-135 | `Share(i)` followed by `Share(i, j)` is the prefix up to max(i, j + 1) when the count does not wrap, `Share(i)` alone (which is empty) when it overflows, and the prefix up to j + 1 + 2^32 when it underflows |
| Knowledge.IntersectPending | appka.cs:152 | the scan behind `Intersect` yields exactly the values of the first list still pending, each once, in order of first occurrence |
| Knowledge.Intersect | appka.cs:152 | `first.Intersect(second)` holds exactly the common values, without duplicates, ordered by first occurrence in `first` |
| Knowledge.Listen | appka.cs:149-159 | `Listen` (through `Compare`) is the number of distinct values the two lists share; repeats do not count |
| Labels.ParseNatToString | appka.cs:691 | the decimal number interpolated into a label can be read back, so the rendering is injective |
| Labels.NatToString | appka.cs:691 | a number renders as at least one decimal digit, with no leading zero |
| Labels.NodeLabels | appka.cs:689-692 | the labels are `"Node 1"` … `"Node n"`, one per node, in node order |
| Labels.LabelsDistinct | appka.cs:689-692 | no two nodes of a generated graph carry the same label |
| Seqs.IndexOf | appka.cs:344-345 | `List.IndexOf` is -1 exactly when the value is absent, and otherwise the first position holding it |
| Graphs.AdjacentIffEdge | appka.cs:283-285 | stepping over an edge incident to `u` reaches `v` exactly when (u, v) or (v, u) is in the edge list |
| Graphs.ExtendSimplePath | appka.cs:280-288 | pushing an unvisited neighbour onto a simple current path keeps it simple |
| Graphs.SimpleSuffix | appka.cs:347 | the stretch of the current path from any index on is a simple path |
| Relations.Entry | appka.cs:440-447 | entry (i, j) is 0 on the diagonal and the number of distinct values nodes i and j share off it |
| Relations.AcceptanceMatrix | appka.cs:434-450 | the matrix is n × n, zero on the diagonal, symmetric, and each off-diagonal entry is the size of the set intersection |
| Relations.RowPairs | appka.cs:457-466 | the inner loop emits, in column order, exactly the columns of row i (from j on) with a positive entry |
| Relations.RowThenRest | appka.cs:455-468 | appending the later rows to row i keeps every pair positive and in range, covers all of them, and stays row-major |
| Relations.PairsFrom | appka.cs:455-468 | the two loops from row i on emit every pair a < b with a positive entry, only those, once each, in row-major order |
| Relations.PositivePairs | appka.cs:455-468 | the same for the whole matrix: the pairs `BuildFriendships` and `GenerateGraph` visit |
| Relations.EmitFriendships | appka.cs:455-468 | before the sort there is one friendship per pair i < j with a positive entry and no other; its grade is the entry and its evidence is `Intersect` of the two nodes; pairs come in row-major order |
| Relations.FriendshipEvidence | appka.cs:462-465 | a friendship's shared statements are duplicate-free, are exactly the values both nodes hold, and number exactly its grade |
| Relations.ConsByGrade | appka.cs:471 | a friendship graded at least as high as the head of a grade-ordered list can be put in front of it |
| Relations.InsertByGrade | appka.cs:471 | insertion into a grade-ordered list adds exactly one copy of the element and keeps the order |
| Relations.InsertBehindHead | appka.cs:471 | inserting behind a head graded at least as high keeps the order and adds one copy |
| Relations.SortByGrade | appka.cs:471 | the sort result is a permutation of its input with non-increasing grades |
| Relations.GradesOfPermutation | appka.cs:471 | permuting friendships permutes their grades |
| Relations.SortedDescendingUnique | appka.cs:471 | two non-increasing integer lists holding the same values are equal |
| Relations.GradeOrderingsAgree | appka.cs:471 | every result the unstable sort may give has the same grade at each position; only the order within equal grades is free |
| Relations.BuildFriendships | appka.cs:452-472 | the stored friendships are the emitted ones, reordered by non-increasing grade |
| Relations.Derive | appka.cs:423-432 | the constructor keeps the nodes, stores their acceptance matrix, and then orders the friendships of that matrix by grade |
| Relations.EmittedPairs | appka.cs:455-468 | the unsorted list names exactly the pairs i < j with a positive entry |
| Relations.EmittedRecorded | appka.cs:459-465 | every unsorted friendship is a pair i < j with its positive entry as grade, and evidence that lists each shared value once and has `grade` entries |
| Relations.ReorderedFriendships | appka.cs:471 | a reordering keeps the pairs named, keeps them distinct, and keeps each friendship's promise |
| Relations.StoredFriendships | appka.cs:423-472 | after the sort there is a friendship for (i, j) exactly when i < j and the entry is positive; no pair appears twice; each grade is its entry; each evidence is the duplicate-free common values, as many as the grade |
| Relations.GenerateGraph | appka.cs:686-706 | the graph is labelled `"Node 1"` … `"Node n"`; (i, j) is an edge exactly when i < j and the entry is positive; edges are row-major, in range and never self-loops; the matrix is left 0 × 0 |
| Relations.GenerateGraphWithGrades | appka.cs:708-712 | the labels follow the matrix dimension, the matrix is kept, and the edge list is empty |
| LongestPath.Visit | appka.cs:278-299 | a call leaves `visited` and `currentPath` as it found them; the best path never shrinks and ends longer than the current path |
| LongestPath.Explore | appka.cs:283-290 | the edge loop leaves `visited` and `currentPath` unchanged and never shrinks the best path |
| LongestPath.FromRoots | appka.cs:305-308 | the driver leaves nothing visited, and any start node gives a best path of at least one node |
| LongestPath.LongestPath | appka.cs:301-308 | a graph with nodes yields a path of at least one node |
| LongestPath.VisitSound | appka.cs:278-299 | while the current path is simple, every best path recorded is a simple path |
| LongestPath.ExploreSound | appka.cs:283-290 | the edge loop keeps the current path simple, its nodes exactly the visited ones, and the best path simple |
| LongestPath.VisitLongest | appka.cs:278-299 | after a call, the best path is at least as long as the current path plus any simple path from the node through unvisited nodes |
| LongestPath.ExploreLongest | appka.cs:283-290 | the edges from k on cover every simple path that leaves the node over one of them through unvisited nodes |
| LongestPath.FromRootsSound | appka.cs:305-308 | the driver's result is a simple path |
| LongestPath.FromRootsLongest | appka.cs:305-308 | no simple path starting at node i or later is longer than the result of the roots from i on |
| LongestPath.LongestPathIsLongest | appka.cs:301-308 | the printed path is a simple path of the graph and no simple path is longer |
| Cycles.EdgeKey | appka.cs:327 | an edge is consumed under its endpoints, smaller first |
| Cycles.Visit | appka.cs:319-358 | a call that finds nothing leaves the state exactly as it found it; one that finds a cycle appends exactly one and keeps the earlier ones; `visited` only grows, within the node range |
| Cycles.Scan | appka.cs:324-353 | the same for the edge loop from edge k on |
| Cycles.FromRoots | appka.cs:366-372 | each remaining root adds at most one cycle, and earlier cycles are kept |
| Cycles.FindCycles | appka.cs:360-372 | no more cycles are reported than there are nodes |
| Cycles.BackEdgeCloses | appka.cs:341-349 | a back edge from the end of a simple path to a node on it, other than the parent, closes a cycle of at least three distinct nodes |
| Cycles.VisitSound | appka.cs:319-358 | starting from a simple current path and valid cycles, every cycle reported is valid |
| Cycles.ScanSound | appka.cs:324-353 | the same for the edge loop |
| Cycles.FromRootsSound | appka.cs:366-372 | the driver only ever adds valid cycles |
| Cycles.FoundCyclesAreCycles | appka.cs:360-372 | on a graph without self-loops, every reported cycle is closed, repeats no node before the closing one, has at least three nodes, and steps along edges; the restriction is needed because a self-loop (u, u) makes the search report the two-node cycle [u, u], and `GenerateGraph` never produces one (`NoSelfLoops` in its ensures) |
| Pipeline.GeneratedAdjacency | appka.cs:686-706 | in the generated graph, two nodes are neighbours exactly when they are distinct and hold a statement in common |
| Pipeline.EdgesAreFriendshipPairs | appka.cs:455-468 | the generated edge list and the unsorted friendship list name the same pairs in the same order |
| Pipeline.GradedGraphSearches | appka.cs:708-712 | on the graph with grades, which has no edges, the cycle search finds nothing and the longest path has one node |
| Pipeline.EdgelessPaths | appka.cs:283-288 | without edges a walk has at most one node |
| Pipeline.EdgelessCycles | appka.cs:341-349 | without edges no cycle exists |
| Pipeline.TriangleMatrix | appka.cs:434-450 | three nodes that pairwise share one statement get grade 1 around the triangle, and a node that knows nothing gets 0 |
| Pipeline.TrianglePairs | appka.cs:694-703 | the row-major scan of such a matrix emits (0, 1), (0, 2), (1, 2) |
| Pipeline.TriangleGraph | appka.cs:686-706 | the triangle population yields exactly those three edges |
| Pipeline.TwoCyclesInOneComponent | appka.cs:360-372 | two triangles joined by a bridge lie in one component, yet the search reports both triangles |
| Pipeline.AllRoots | appka.cs:366-372 | on that graph, root 0 reports 0-1-2-0, roots 1 and 2 are skipped, and root 3 reports 3-4-5-3 |
| Pipeline.FirstTriangle | appka.cs:319-358 | root 0 descends 0 → 1 → 2 and closes 0-1-2-0 over edge (0, 2), leaving 0, 1 and 2 marked |
| Pipeline.SecondTriangle | appka.cs:319-358 | root 3 skips the marked nodes, descends 3 → 4 → 5 and closes 3-4-5-3 |

## How the code behaves at two points

- **Tie order.** `List.Sort` (appka.cs:471) compares grades alone and is unstable, so the order among friendships of equal grade is unspecified. The model leaves it open: `IsGradeOrdering` states what any admissible result satisfies, and `GradeOrderingsAgree` proves that all admissible results agree on the grade at every position.
- **Cycles per component.** A connected component can yield more than one cycle. A cycle found from a root returns at once and leaves its nodes marked in `visited`, so a later root in the same component can close a second cycle. `Pipeline.TwoCyclesInOneComponent` exhibits this on two triangles joined by a bridge: nodes 0 to 5 form one simple path, and the search reports [0,1,2,0] and [3,4,5,3]. What does hold, and is proved, is at most one cycle per root, so no more cycles than nodes.

## Left out

- Loading, merging and flattening the knowledge bases (`Universe.FromJson`, `MergeUniverses`, `GetAllStatements`): JSON parsing and I/O. The model starts from a list of nodes.
- Random assignment of statements to nodes (`Program.GenerateNodes`): randomness. The nodes are a parameter.
- All printing and formatting: `Say`, `Population.Show`, `PrintMatrix`, the plain-text/JSON/YAML-like friendship formatters, `Print`, `PrintGraph`, `Fill`, `PrintStandardWay*`, `PrintAsSets` and the empty `PrintPseudoGraphically`. `PrintLongestPath` and `PrintCycles` are modelled up to the values they print, and the console output is dropped.
- `Main` and its sample data.
- Null lists: the `Node` constructor replaces a missing list with an empty one, so the model's nodes always hold a sequence.
- Relations.SortByGrade: one admissible result of the unstable sort (insertion by grade). The model does not claim it matches the tie order the .NET introsort produces. Every property stated about the friendship list goes through `IsGradeOrdering`, which any result satisfies.
- Relations.GenerateGraph: requires the matrix to be n × n. The `Relations` constructor allocates it that way (appka.cs:427), and `Relations.Derive` ensures it.
- Integer width: matrix entries, grades and node indices are unbounded integers. They are counts bounded by the number of nodes and statements, which cannot approach 2^31 in the source's setting, so 32-bit overflow is not modelled for them. The one caller-supplied arithmetic, the count j - i + 1 in `Share(i, j)`, is modelled with its 32-bit wrap.
- `DFSForLongestPath` and `DFSForCycles` take time exponential in the graph size. Only their results are modelled, not their cost.
