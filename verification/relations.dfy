/** The relations of one population snapshot (`Relations` in the source):
    the acceptance matrix, the graded friendships read off it, and the two
    graphs derived from it. */
module Relations {
  import opened Seqs
  import opened Knowledge
  import opened Labels
  import opened Graphs

  /** `int[n, n]`, stored by rows. */
  type Matrix = seq<seq<int>>

  predicate IsSquare(m: Matrix, n: nat) {
    |m| == n && forall i :: 0 <= i < n ==> |m[i]| == n
  }

  /** `BuildMatrix`: entry (i, j) is `nodes[j].Listen(nodes[i].Share())`
      off the diagonal and 0 on it. */
  function AcceptanceMatrix(nodes: seq<Node>): (m: Matrix)
    ensures IsSquare(m, |nodes|)
    ensures forall i :: 0 <= i < |nodes| ==> m[i][i] == 0
    ensures forall i, j :: 0 <= i < |nodes| && 0 <= j < |nodes| && i != j ==>
              m[i][j] == |Elems(nodes[i].statements) * Elems(nodes[j].statements)|
    ensures forall i, j :: 0 <= i < |nodes| && 0 <= j < |nodes| ==> m[i][j] == m[j][i]
  {
    seq(|nodes|, i requires 0 <= i < |nodes| =>
      seq(|nodes|, j requires 0 <= j < |nodes| => Entry(nodes, i, j)))
  }

  /** One matrix entry: what node j hears when node i shares everything;
      the same number either way round. */
  function Entry(nodes: seq<Node>, i: nat, j: nat): (c: int)
    requires i < |nodes| && j < |nodes|
    ensures i == j ==> c == 0
    ensures i != j ==> c == |Elems(nodes[i].statements) * Elems(nodes[j].statements)|
  {
    if i != j then
      var heard := Listen(nodes[j], Share(nodes[i]));
      assert Elems(nodes[j].statements) * Elems(nodes[i].statements)
          == Elems(nodes[i].statements) * Elems(nodes[j].statements);
      heard
    else 0
  }

  /** Row-major order on index pairs. */
  predicate PairBefore(p: Edge, q: Edge) {
    p.0 < q.0 || (p.0 == q.0 && p.1 < q.1)
  }

  /** The pairs (i, c), j <= c < n, whose entry is positive, by column. */
  function RowPairs(m: Matrix, n: nat, i: nat, j: nat): (ps: seq<Edge>)
    requires IsSquare(m, n) && i < n && j <= n
    ensures forall k :: 0 <= k < |ps| ==> ps[k].0 == i && j <= ps[k].1 < n && m[i][ps[k].1] > 0
    ensures forall c :: j <= c < n && m[i][c] > 0 ==> (i, c) in ps
    ensures forall k, l :: 0 <= k < l < |ps| ==> ps[k].1 < ps[l].1
    decreases n - j
  {
    if j == n then []
    else if m[i][j] > 0 then
      var rest := RowPairs(m, n, i, j + 1);
      assert forall k :: 0 < k < |rest| + 1 ==> ([(i, j)] + rest)[k] == rest[k - 1];
      [(i, j)] + rest
    else RowPairs(m, n, i, j + 1)
  }

  /** The scan of row i followed by the scan of the rows after it covers
      the rows from i on, still in row-major order. */
  lemma RowThenRest(m: Matrix, n: nat, i: nat, row: seq<Edge>, rest: seq<Edge>)
    requires IsSquare(m, n) && i < n
    requires row == RowPairs(m, n, i, i + 1)
    requires forall k :: 0 <= k < |rest| ==> i + 1 <= rest[k].0 < rest[k].1 < n && m[rest[k].0][rest[k].1] > 0
    requires forall a, b :: i + 1 <= a < b < n && m[a][b] > 0 ==> (a, b) in rest
    requires forall k, l :: 0 <= k < l < |rest| ==> PairBefore(rest[k], rest[l])
    ensures forall k :: 0 <= k < |row + rest| ==> i <= (row + rest)[k].0 < (row + rest)[k].1 < n && m[(row + rest)[k].0][(row + rest)[k].1] > 0
    ensures forall a, b :: i <= a < b < n && m[a][b] > 0 ==> (a, b) in row + rest
    ensures forall k, l :: 0 <= k < l < |row + rest| ==> PairBefore((row + rest)[k], (row + rest)[l])
  {
    var ps := row + rest;
    assert forall k :: 0 <= k < |row| ==> ps[k] == row[k];
    assert forall k :: |row| <= k < |ps| ==> ps[k] == rest[k - |row|];
    forall a, b | i <= a < b < n && m[a][b] > 0
      ensures (a, b) in ps
    {
      if a == i {
        assert (a, b) in row;
      } else {
        assert (a, b) in rest;
      }
    }
    forall k, l | 0 <= k < l < |ps|
      ensures PairBefore(ps[k], ps[l])
    {
      if l < |row| {
        assert ps[k].1 < ps[l].1;
      } else if k >= |row| {
        assert PairBefore(rest[k - |row|], rest[l - |row|]);
      }
    }
  }

  /** The pairs a < b with a >= i whose entry is positive, in row-major
      order: the scan both `BuildFriendships` and `GenerateGraph` make
      over the upper triangle. */
  function PairsFrom(m: Matrix, n: nat, i: nat): (ps: seq<Edge>)
    requires IsSquare(m, n) && i <= n
    ensures forall k :: 0 <= k < |ps| ==> i <= ps[k].0 < ps[k].1 < n && m[ps[k].0][ps[k].1] > 0
    ensures forall a, b :: i <= a < b < n && m[a][b] > 0 ==> (a, b) in ps
    ensures forall k, l :: 0 <= k < l < |ps| ==> PairBefore(ps[k], ps[l])
    decreases n - i
  {
    if i == n then []
    else
      var row, rest := RowPairs(m, n, i, i + 1), PairsFrom(m, n, i + 1);
      RowThenRest(m, n, i, row, rest);
      row + rest
  }

  /** Every pair i < j with a positive entry, once each, in row-major order. */
  function PositivePairs(m: Matrix, n: nat): (ps: seq<Edge>)
    requires IsSquare(m, n)
    ensures forall k :: 0 <= k < |ps| ==> 0 <= ps[k].0 < ps[k].1 < n && m[ps[k].0][ps[k].1] > 0
    ensures forall a, b :: 0 <= a < b < n && m[a][b] > 0 ==> (a, b) in ps
    ensures forall k, l :: 0 <= k < l < |ps| ==> PairBefore(ps[k], ps[l])
  {
    PairsFrom(m, n, 0)
  }

  /** A graded edge between two nodes, with the statements they share. */
  datatype Friendship = Friendship(nodeA: int, nodeB: int, grade: int, sharedStatements: seq<string>)

  function PairOf(f: Friendship): Edge {
    (f.nodeA, f.nodeB)
  }

  /** The friendship `BuildFriendships` records for pair `p`. */
  function Befriend(nodes: seq<Node>, m: Matrix, p: Edge): Friendship
    requires IsSquare(m, |nodes|)
    requires 0 <= p.0 < |nodes| && 0 <= p.1 < |nodes|
  {
    Friendship(p.0, p.1, m[p.0][p.1], Intersect(Share(nodes[p.0]), Share(nodes[p.1])))
  }

  /** The friendship list before sorting: one entry per pair i < j with a
      positive entry, in the order the two loops meet them. */
  function EmitFriendships(nodes: seq<Node>, m: Matrix): (fs: seq<Friendship>)
    requires IsSquare(m, |nodes|)
    ensures forall k :: 0 <= k < |fs| ==>
              && 0 <= fs[k].nodeA < fs[k].nodeB < |nodes|
              && fs[k].grade == m[fs[k].nodeA][fs[k].nodeB] > 0
              && fs[k].sharedStatements == Intersect(nodes[fs[k].nodeA].statements, nodes[fs[k].nodeB].statements)
    ensures forall i, j :: 0 <= i < j < |nodes| && m[i][j] > 0 ==> (i, j) in PairsOf(fs)
    ensures forall k, l :: 0 <= k < l < |fs| ==> PairBefore(PairOf(fs[k]), PairOf(fs[l]))
  {
    var ps := PositivePairs(m, |nodes|);
    var fs := seq(|ps|, k requires 0 <= k < |ps| => Befriend(nodes, m, ps[k]));
    assert PairsOf(fs) == ps;
    fs
  }

  function PairsOf(fs: seq<Friendship>): (ps: seq<Edge>)
    ensures |ps| == |fs|
    ensures forall k :: 0 <= k < |fs| ==> ps[k] == PairOf(fs[k])
  {
    seq(|fs|, k requires 0 <= k < |fs| => PairOf(fs[k]))
  }

  /** On the acceptance matrix of the same nodes, a friendship's evidence
      is exactly the set of values both nodes hold, each listed once, and
      there are as many of them as the grade says. */
  lemma FriendshipEvidence(nodes: seq<Node>)
    ensures var fs := EmitFriendships(nodes, AcceptanceMatrix(nodes));
            forall k :: 0 <= k < |fs| ==>
              && NoDuplicates(fs[k].sharedStatements)
              && Elems(fs[k].sharedStatements) == Elems(nodes[fs[k].nodeA].statements) * Elems(nodes[fs[k].nodeB].statements)
              && |fs[k].sharedStatements| == fs[k].grade
  {
    var fs := EmitFriendships(nodes, AcceptanceMatrix(nodes));
    forall k | 0 <= k < |fs|
      ensures |fs[k].sharedStatements| == fs[k].grade
    {
      DistinctCard(fs[k].sharedStatements);
    }
  }

  /** Grades never increase along the list. */
  predicate GradesNonIncreasing(fs: seq<Friendship>) {
    forall k, l :: 0 <= k < l < |fs| ==> fs[k].grade >= fs[l].grade
  }

  /** What `friendships.Sort((a, b) => b.Grade.CompareTo(a.Grade))`
      promises: the same friendships, by non-increasing grade. The sort is
      unstable, so the order among equal grades is not part of it. */
  predicate IsGradeOrdering(sorted: seq<Friendship>, emitted: seq<Friendship>) {
    multiset(sorted) == multiset(emitted) && GradesNonIncreasing(sorted)
  }

  /** A friendship graded at least as high as the head of an ordered list
      may go in front of it. */
  lemma ConsByGrade(x: Friendship, tail: seq<Friendship>)
    requires GradesNonIncreasing(tail)
    requires |tail| > 0 ==> tail[0].grade <= x.grade
    ensures GradesNonIncreasing([x] + tail)
  {
    var r := [x] + tail;
    forall k, l | 0 <= k < l < |r|
      ensures r[k].grade >= r[l].grade
    {
      if k == 0 {
        assert r[l] == tail[l - 1];
        if l > 1 {
          assert tail[0].grade >= tail[l - 1].grade;
        }
      } else {
        assert r[k] == tail[k - 1] && r[l] == tail[l - 1];
      }
    }
  }

  /** Places `f` into a list ordered by non-increasing grade. */
  function InsertByGrade(f: Friendship, sorted: seq<Friendship>): (r: seq<Friendship>)
    requires GradesNonIncreasing(sorted)
    ensures multiset(r) == multiset(sorted) + multiset{f}
    ensures GradesNonIncreasing(r)
    ensures |r| > 0 && (r[0] == f || (|sorted| > 0 && r[0] == sorted[0]))
  {
    if |sorted| == 0 || sorted[0].grade < f.grade then
      ConsByGrade(f, sorted);
      [f] + sorted
    else
      var tail := InsertByGrade(f, sorted[1..]);
      InsertBehindHead(f, sorted, tail);
      [sorted[0]] + tail
  }

  /** The step of `InsertByGrade` that keeps the head: inserting behind a
      head graded at least as high as `f` keeps the list ordered and adds
      one copy of `f`. */
  lemma InsertBehindHead(f: Friendship, sorted: seq<Friendship>, tail: seq<Friendship>)
    requires |sorted| > 0 && GradesNonIncreasing(sorted) && sorted[0].grade >= f.grade
    requires multiset(tail) == multiset(sorted[1..]) + multiset{f}
    requires GradesNonIncreasing(tail)
    requires |tail| > 0 && (tail[0] == f || (|sorted[1..]| > 0 && tail[0] == sorted[1..][0]))
    ensures multiset([sorted[0]] + tail) == multiset(sorted) + multiset{f}
    ensures GradesNonIncreasing([sorted[0]] + tail)
  {
    assert sorted == [sorted[0]] + sorted[1..];
    assert multiset(sorted) == multiset{sorted[0]} + multiset(sorted[1..]);
    assert multiset([sorted[0]] + tail) == multiset{sorted[0]} + multiset(tail);
    if tail[0] != f {
      assert tail[0] == sorted[1];
    }
    ConsByGrade(sorted[0], tail);
  }

  /** One admissible result of the source's sort: insertion by grade. */
  function SortByGrade(fs: seq<Friendship>): (r: seq<Friendship>)
    ensures IsGradeOrdering(r, fs)
  {
    if |fs| == 0 then []
    else
      assert fs == fs[..|fs| - 1] + [fs[|fs| - 1]];
      InsertByGrade(fs[|fs| - 1], SortByGrade(fs[..|fs| - 1]))
  }

  /** The grades read along a friendship list. */
  function Grades(fs: seq<Friendship>): (gs: seq<int>)
    ensures |gs| == |fs|
    ensures forall k :: 0 <= k < |fs| ==> gs[k] == fs[k].grade
  {
    seq(|fs|, k requires 0 <= k < |fs| => fs[k].grade)
  }

  /** The list without its element at `l`. */
  function RemoveAt<T>(b: seq<T>, l: nat): (r: seq<T>)
    requires l < |b|
    ensures |r| == |b| - 1
  {
    b[..l] + b[l + 1..]
  }

  /** Removing the element at `l` removes one copy of it. */
  lemma MultisetRemoveAt<T>(b: seq<T>, l: nat)
    requires l < |b|
    ensures multiset(RemoveAt(b, l)) == multiset(b) - multiset{b[l]}
  {
    assert b == b[..l] + [b[l]] + b[l + 1..];
  }

  /** Removing the element at `l` removes one copy of its grade. */
  lemma GradesRemoveAt(b: seq<Friendship>, l: nat)
    requires l < |b|
    ensures multiset(Grades(b)) == multiset(Grades(RemoveAt(b, l))) + multiset{b[l].grade}
  {
    assert Grades(b) == Grades(b[..l]) + [b[l].grade] + Grades(b[l + 1..]);
    assert Grades(b[..l] + b[l + 1..]) == Grades(b[..l]) + Grades(b[l + 1..]);
  }

  /** A position holding an element known to be in the list. */
  lemma Locate<T>(b: seq<T>, x: T) returns (l: nat)
    requires x in multiset(b)
    ensures l < |b| && b[l] == x
  {
    assert x in b;
    l :| 0 <= l < |b| && b[l] == x;
  }

  /** Taking the same element out of two permutations of each other leaves
      permutations of each other. */
  lemma RemoveMatching<T>(a: seq<T>, b: seq<T>, l: nat)
    requires multiset(a) == multiset(b) && |a| > 0 && l < |b| && b[l] == a[0]
    ensures multiset(RemoveAt(a, 0)) == multiset(RemoveAt(b, l))
  {
    MultisetRemoveAt(a, 0);
    MultisetRemoveAt(b, l);
  }

  /** Permuting a list permutes its grades. */
  lemma {:induction false} GradesOfPermutation(a: seq<Friendship>, b: seq<Friendship>)
    requires multiset(a) == multiset(b)
    ensures multiset(Grades(a)) == multiset(Grades(b))
    decreases |a|
  {
    if |a| > 0 {
      assert a[0] in multiset(a);
      var l := Locate(b, a[0]);
      RemoveMatching(a, b, l);
      GradesOfPermutation(RemoveAt(a, 0), RemoveAt(b, l));
      GradesRemoveAt(a, 0);
      GradesRemoveAt(b, l);
    } else {
      assert |b| == |multiset(b)| == 0;
    }
  }

  /** Values never increase along the list. */
  predicate NonIncreasing(s: seq<int>) {
    forall k, l :: 0 <= k < l < |s| ==> s[k] >= s[l]
  }

  /** A non-increasing list stays so without its head. */
  lemma NonIncreasingTail(s: seq<int>)
    requires NonIncreasing(s) && |s| > 0
    ensures NonIncreasing(s[1..])
  {
    forall k, l | 0 <= k < l < |s| - 1
      ensures s[1..][k] >= s[1..][l]
    {
      assert s[1..][k] == s[k + 1] && s[1..][l] == s[l + 1];
    }
  }

  /** The head of a non-increasing list is its largest value. */
  lemma HeadIsLargest(s: seq<int>, i: nat)
    requires NonIncreasing(s) && i < |s|
    ensures s[0] >= s[i]
  {
    if i > 0 {
      assert s[0] >= s[i];
    }
  }

  /** Two non-increasing lists holding the same values start with the same
      value, their largest. */
  lemma SameHead(a: seq<int>, b: seq<int>)
    requires multiset(a) == multiset(b) && |a| > 0
    requires NonIncreasing(a) && NonIncreasing(b)
    ensures |b| > 0 && a[0] == b[0]
  {
    assert a[0] in multiset(a);
    var i := Locate(b, a[0]);
    assert b[0] in multiset(b);
    var j := Locate(a, b[0]);
    HeadIsLargest(b, i);
    HeadIsLargest(a, j);
  }

  /** Two lists holding the same values and starting alike hold the same
      values after their heads. */
  lemma SameTails(a: seq<int>, b: seq<int>)
    requires multiset(a) == multiset(b) && |a| > 0 && |b| > 0 && a[0] == b[0]
    ensures multiset(a[1..]) == multiset(b[1..])
  {
    assert a == [a[0]] + a[1..] && b == [b[0]] + b[1..];
    assert multiset(a) == multiset{a[0]} + multiset(a[1..]);
    assert multiset(b) == multiset{b[0]} + multiset(b[1..]);
    assert multiset(a[1..]) == multiset(a) - multiset{a[0]};
    assert multiset(b[1..]) == multiset(b) - multiset{b[0]};
  }

  /** Two non-increasing integer lists holding the same values are equal. */
  lemma {:induction false} SortedDescendingUnique(a: seq<int>, b: seq<int>)
    requires multiset(a) == multiset(b)
    requires NonIncreasing(a) && NonIncreasing(b)
    ensures a == b
    decreases |a|
  {
    if |a| == 0 {
      assert |b| == |multiset(b)| == 0;
    } else {
      SameHead(a, b);
      SameTails(a, b);
      NonIncreasingTail(a);
      NonIncreasingTail(b);
      SortedDescendingUnique(a[1..], b[1..]);
      assert a == [a[0]] + a[1..] && b == [b[0]] + b[1..];
    }
  }

  /** The sort's freedom among equal grades is the only freedom it has:
      every admissible result lists the same grades in the same places. */
  lemma GradeOrderingsAgree(a: seq<Friendship>, b: seq<Friendship>, emitted: seq<Friendship>)
    requires IsGradeOrdering(a, emitted) && IsGradeOrdering(b, emitted)
    ensures Grades(a) == Grades(b)
  {
    GradesOfPermutation(a, b);
    assert NonIncreasing(Grades(a)) && NonIncreasing(Grades(b));
    SortedDescendingUnique(Grades(a), Grades(b));
  }

  /** `BuildFriendships`: the emitted friendships, ordered by grade. */
  function BuildFriendships(nodes: seq<Node>, m: Matrix): (fs: seq<Friendship>)
    requires IsSquare(m, |nodes|)
    ensures IsGradeOrdering(fs, EmitFriendships(nodes, m))
  {
    SortByGrade(EmitFriendships(nodes, m))
  }

  /** A `Relations` object after construction. */
  datatype Relations = Relations(nodes: seq<Node>, matrix: Matrix, friendships: seq<Friendship>)

  /** The `Relations` constructor: matrix first, then friendships. */
  function Derive(nodes: seq<Node>): (rel: Relations)
    ensures rel.nodes == nodes
    ensures rel.matrix == AcceptanceMatrix(nodes)
    ensures IsGradeOrdering(rel.friendships, EmitFriendships(nodes, rel.matrix))
  {
    var m := AcceptanceMatrix(nodes);
    Relations(nodes, m, BuildFriendships(nodes, m))
  }

  /** A value at two positions of a list occurs at least twice in it. */
  lemma CountedTwice<T>(s: seq<T>, k: nat, l: nat)
    requires k < l < |s| && s[k] == s[l]
    ensures multiset(s)[s[k]] >= 2
  {
    assert s == s[..l] + [s[l]] + s[l + 1..];
    assert s[k] in s[..l];
  }

  /** In a duplicate-free list every value occurs at most once. */
  lemma {:induction false} CountedOnce<T>(s: seq<T>, x: T)
    requires NoDuplicates(s)
    ensures multiset(s)[x] <= 1
  {
    if |s| > 0 {
      assert s == [s[0]] + s[1..];
      assert NoDuplicates(s[1..]) by {
        forall i, j | 0 <= i < j < |s| - 1
          ensures s[1..][i] != s[1..][j]
        {
          assert s[1..][i] == s[i + 1] && s[1..][j] == s[j + 1];
        }
      }
      CountedOnce(s[1..], x);
      if x == s[0] {
        assert x !in s[1..] by {
          forall i | 0 <= i < |s| - 1
            ensures s[1..][i] != x
          {
            assert s[1..][i] == s[i + 1];
          }
        }
      }
    }
  }

  /** A permutation holds the same values. */
  lemma SameValues<T>(a: seq<T>, b: seq<T>)
    requires multiset(a) == multiset(b)
    ensures forall x :: x in a <==> x in b
  {
    forall x
      ensures x in a <==> x in b
    {
      assert x in a <==> x in multiset(a);
      assert x in b <==> x in multiset(b);
    }
  }

  /** The pairs of a list in strict row-major order are distinct. */
  lemma OrderedDistinct(e: seq<Friendship>)
    requires forall k, l :: 0 <= k < l < |e| ==> PairBefore(PairOf(e[k]), PairOf(e[l]))
    ensures NoDuplicates(PairsOf(e))
  {
    forall a, b | 0 <= a < b < |e|
      ensures PairsOf(e)[a] != PairsOf(e)[b]
    {
      assert PairBefore(PairOf(e[a]), PairOf(e[b]));
    }
  }

  /** A permutation names exactly the pairs `e` names. */
  lemma ReorderedPairs(e: seq<Friendship>, fs: seq<Friendship>)
    requires multiset(fs) == multiset(e)
    ensures forall p :: p in PairsOf(fs) <==> p in PairsOf(e)
  {
    SameValues(fs, e);
    forall p
      ensures p in PairsOf(fs) <==> p in PairsOf(e)
    {
      if p in PairsOf(fs) {
        var k :| 0 <= k < |fs| && PairsOf(fs)[k] == p;
        assert fs[k] in e;
        var l :| 0 <= l < |e| && e[l] == fs[k];
        assert PairsOf(e)[l] == p;
      }
      if p in PairsOf(e) {
        var l :| 0 <= l < |e| && PairsOf(e)[l] == p;
        assert e[l] in fs;
        var k :| 0 <= k < |fs| && fs[k] == e[l];
        assert PairsOf(fs)[k] == p;
      }
    }
  }

  /** A permutation of a list whose pairs are distinct has distinct pairs. */
  lemma ReorderedPairsOnce(e: seq<Friendship>, fs: seq<Friendship>)
    requires multiset(fs) == multiset(e)
    requires NoDuplicates(PairsOf(e))
    ensures NoDuplicates(PairsOf(fs))
  {
    SameValues(fs, e);
    assert NoDuplicates(e) by {
      forall a, b | 0 <= a < b < |e|
        ensures e[a] != e[b]
      {
        assert PairsOf(e)[a] != PairsOf(e)[b];
      }
    }
    forall k, l | 0 <= k < l < |fs|
      ensures PairsOf(fs)[k] != PairsOf(fs)[l]
    {
      if PairOf(fs[k]) == PairOf(fs[l]) {
        assert fs[k] in e && fs[l] in e;
        var a :| 0 <= a < |e| && e[a] == fs[k];
        var b :| 0 <= b < |e| && e[b] == fs[l];
        assert PairsOf(e)[a] == PairsOf(e)[b];
        CountedTwice(fs, k, l);
        CountedOnce(e, fs[k]);
        assert false;
      }
    }
  }

  /** What a stored friendship promises: a pair i < j of nodes, graded with
      its positive matrix entry, whose evidence lists each value both nodes
      hold exactly once and nothing else, so that it has `grade` entries. */
  predicate Recorded(nodes: seq<Node>, m: Matrix, f: Friendship)
    requires IsSquare(m, |nodes|)
  {
    && 0 <= f.nodeA < f.nodeB < |nodes|
    && f.grade == m[f.nodeA][f.nodeB] > 0
    && NoDuplicates(f.sharedStatements)
    && Elems(f.sharedStatements) == Elems(nodes[f.nodeA].statements) * Elems(nodes[f.nodeB].statements)
    && |f.sharedStatements| == f.grade
  }

  /** Every emitted friendship of the acceptance matrix is recorded as
      promised. */
  lemma EmittedRecorded(nodes: seq<Node>)
    ensures var m := AcceptanceMatrix(nodes);
            forall f :: f in EmitFriendships(nodes, m) ==> Recorded(nodes, m, f)
  {
    FriendshipEvidence(nodes);
  }

  /** A permutation of recorded friendships consists of recorded
      friendships. */
  lemma ReorderedRecorded(nodes: seq<Node>, m: Matrix, e: seq<Friendship>, fs: seq<Friendship>)
    requires IsSquare(m, |nodes|) && multiset(fs) == multiset(e)
    requires forall f :: f in e ==> Recorded(nodes, m, f)
    ensures forall k :: 0 <= k < |fs| ==> Recorded(nodes, m, fs[k])
  {
    SameValues(fs, e);
  }

  /** What a reordering keeps of a friendship list: the pairs it names,
      their distinctness, and the promise of each friendship. */
  lemma ReorderedFriendships(nodes: seq<Node>, m: Matrix, e: seq<Friendship>, fs: seq<Friendship>)
    requires IsSquare(m, |nodes|) && multiset(fs) == multiset(e)
    requires forall k, l :: 0 <= k < l < |e| ==> PairBefore(PairOf(e[k]), PairOf(e[l]))
    requires forall i, j :: (i, j) in PairsOf(e) <==> 0 <= i < j < |nodes| && m[i][j] > 0
    requires forall f :: f in e ==> Recorded(nodes, m, f)
    ensures forall i, j :: (i, j) in PairsOf(fs) <==> 0 <= i < j < |nodes| && m[i][j] > 0
    ensures NoDuplicates(PairsOf(fs))
    ensures forall k :: 0 <= k < |fs| ==> Recorded(nodes, m, fs[k])
  {
    OrderedDistinct(e);
    ReorderedPairs(e, fs);
    ReorderedPairsOnce(e, fs);
    ReorderedRecorded(nodes, m, e, fs);
  }

  /** The pairs the emitted list names are exactly the pairs i < j with a
      positive entry. */
  lemma EmittedPairs(nodes: seq<Node>, m: Matrix)
    requires IsSquare(m, |nodes|)
    ensures forall i, j :: (i, j) in PairsOf(EmitFriendships(nodes, m)) <==> 0 <= i < j < |nodes| && m[i][j] > 0
  {
    var e := EmitFriendships(nodes, m);
    forall i, j | (i, j) in PairsOf(e)
      ensures 0 <= i < j < |nodes| && m[i][j] > 0
    {
      var k :| 0 <= k < |e| && PairsOf(e)[k] == (i, j);
    }
  }

  /** The friendships a `Relations` object stores, after the sort: one per
      pair i < j with a positive entry and no other, each pair once, and
      each recorded as promised. */
  lemma StoredFriendships(nodes: seq<Node>)
    ensures var rel := Derive(nodes);
            && (forall i, j :: (i, j) in PairsOf(rel.friendships) <==> 0 <= i < j < |nodes| && rel.matrix[i][j] > 0)
            && NoDuplicates(PairsOf(rel.friendships))
            && forall k :: 0 <= k < |rel.friendships| ==> Recorded(nodes, rel.matrix, rel.friendships[k])
  {
    var rel := Derive(nodes);
    var e := EmitFriendships(nodes, rel.matrix);
    EmittedRecorded(nodes);
    EmittedPairs(nodes, rel.matrix);
    ReorderedFriendships(nodes, rel.matrix, e, rel.friendships);
  }

  /** `GenerateGraph`: labels "Node 1" … "Node n" and one edge (i, j),
      i < j, per positive entry, in row-major order. The graph is built
      with the parameterless `Graph()` constructor, so its matrix is the
      empty 0×0 one. */
  function GenerateGraph(rel: Relations): (g: Graph)
    requires IsSquare(rel.matrix, |rel.nodes|)
    ensures g.nodes == NodeLabels(|rel.nodes|)
    ensures forall i, j :: (i, j) in g.edges <==> 0 <= i < j < |rel.nodes| && rel.matrix[i][j] > 0
    ensures forall k, l :: 0 <= k < l < |g.edges| ==> PairBefore(g.edges[k], g.edges[l])
    ensures WellFormed(g) && NoSelfLoops(g)
    ensures g.matrix == []
  {
    Graph(NodeLabels(|rel.nodes|), PositivePairs(rel.matrix, |rel.nodes|), [])
  }

  /** `GenerateGraphWithGrades`: the same labels, the matrix kept as
      weights, and an edge list left empty. */
  function GenerateGraphWithGrades(rel: Relations): (g: Graph)
    ensures g.nodes == NodeLabels(|rel.matrix|)
    ensures g.edges == [] && g.matrix == rel.matrix
  {
    Graph(NodeLabels(|rel.matrix|), [], rel.matrix)
  }
}
