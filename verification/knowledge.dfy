/** A knowledge holder of the population: the statements it was assigned,
    the three `Share` views of them, and the overlap count `Listen` (the same
    computation as the protected `Compare` it delegates to). */
module Knowledge {
  import opened Seqs

  /** A population member. A missing list is normalised to the empty one by
      the constructor, so every node holds a (possibly empty) sequence. */
  datatype Node = Node(statements: seq<string>)

  /** `x` clipped into the interval [0, hi]. */
  function Clamp(x: int, hi: nat): (r: nat)
    ensures r <= hi
  {
    if x < 0 then 0 else if x > hi then hi else x
  }

  /** LINQ `Take`: yields elements from the front while the count lasts; a
      count of zero or less yields nothing. */
  function Take<T>(s: seq<T>, count: int): (r: seq<T>)
    ensures r == s[..Clamp(count, |s|)]
  {
    if count <= 0 || |s| == 0 then [] else [s[0]] + Take(s[1..], count - 1)
  }

  /** LINQ `Skip`: drops elements from the front while the count lasts; a
      count of zero or less drops nothing. */
  function Skip<T>(s: seq<T>, count: int): (r: seq<T>)
    ensures r == s[Clamp(count, |s|)..]
  {
    if count <= 0 || |s| == 0 then s else Skip(s[1..], count - 1)
  }

  /** `Share()`: a fresh copy of all statements. */
  function Share(node: Node): (r: seq<string>)
    ensures r == node.statements
  {
    node.statements
  }

  /** `Share(n)`: the first `n` statements, or all of them when there are
      fewer, or none when `n` is not positive. */
  function ShareFirst(node: Node, n: int): (r: seq<string>)
    ensures r <= node.statements
    ensures |r| == if n <= 0 then 0 else Min(n, |node.statements|)
  {
    Take(node.statements, n)
  }

  /** The range of a C# `int`. */
  const Int32Min: int := -0x8000_0000
  const Int32Max: int := 0x7FFF_FFFF

  predicate IsInt32(x: int) {
    Int32Min <= x <= Int32Max
  }

  /** Unchecked 32-bit arithmetic: `x` reduced into the `int` range modulo
      2^32, as a C# sum or difference that overflows silently. */
  function Wrap32(x: int): (r: int)
    ensures IsInt32(r)
    ensures (x - r) % 0x1_0000_0000 == 0
    ensures IsInt32(x) ==> r == x
    ensures Int32Max < x <= Int32Max + 0x1_0000_0000 ==> r == x - 0x1_0000_0000
    ensures Int32Min - 0x1_0000_0000 <= x < Int32Min ==> r == x + 0x1_0000_0000
  {
    (x - Int32Min) % 0x1_0000_0000 + Int32Min
  }

  /** `Share(i, j)`: the statements at positions i..j inclusive, clipped to
      the list. The count j - i + 1 is computed in unchecked 32-bit
      arithmetic. Without overflow a negative `i` skips nothing but still
      shortens the window to j - i + 1 elements counted from the front. When
      the count exceeds `int.MaxValue` it wraps to zero or below and
      nothing is taken; when it falls below `int.MinValue` it wraps to a count larger
      than the distance from `i` to j + 1. */
  function ShareRange(node: Node, i: int, j: int): (r: seq<string>)
    requires IsInt32(i) && IsInt32(j)
    ensures IsInt32(j - i + 1) && 0 <= i <= j + 1 ==>
      r == node.statements[Min(i, |node.statements|)..Min(j + 1, |node.statements|)]
    ensures IsInt32(j - i + 1) && j < i ==> r == []
    ensures IsInt32(j - i + 1) && i < 0 ==> r == ShareFirst(node, j - i + 1)
    ensures j - i + 1 > Int32Max ==> r == []
    ensures j - i + 1 < Int32Min ==>
      r == node.statements[Min(i, |node.statements|)..Min(j + 1 + 0x1_0000_0000, |node.statements|)]
  {
    var s, count := node.statements, Wrap32(j - i + 1);
    Take(Skip(s, i), count)
  }

  /** The full copy is the widest view of the other two: any prefix at
      least as long as the list, and any window from 0 that reaches its end
      without the count wrapping. */
  lemma ShareIsWidestView(node: Node, n: int, j: int)
    requires n >= |node.statements|
    requires IsInt32(j) && |node.statements| - 1 <= j < Int32Max
    ensures Share(node) == ShareFirst(node, n)
    ensures Share(node) == ShareRange(node, 0, j)
  {
    assert ShareFirst(node, n) == node.statements[..Clamp(n, |node.statements|)];
  }

  /** The two overflowing corners: the widest window from the front is
      empty, and a window ending at `int.MinValue` reaches the end of the
      list from any start i > 1. */
  lemma ShareRangeWraps(node: Node)
    requires |node.statements| <= Int32Max
    ensures ShareRange(node, 0, Int32Max) == []
    ensures |node.statements| > 2 ==> ShareRange(node, 2, Int32Min) == node.statements[2..]
  {
  }

  /** Reading a prefix and then the window that starts where it stops gives
      the longer prefix. When the window's count overflows the window is
      empty; when it underflows the window runs past j + 1 by 2^32. */
  lemma ShareRangeExtendsShareFirst(node: Node, i: int, j: int)
    requires 0 <= i && IsInt32(i) && IsInt32(j)
    ensures IsInt32(j - i + 1) ==> ShareFirst(node, i) + ShareRange(node, i, j) == ShareFirst(node, Max(i, j + 1))
    ensures j - i + 1 > Int32Max ==> ShareFirst(node, i) + ShareRange(node, i, j) == []
    ensures j - i + 1 < Int32Min ==> ShareFirst(node, i) + ShareRange(node, i, j) == ShareFirst(node, j + 1 + 0x1_0000_0000)
  {
    var s, n := node.statements, |node.statements|;
    var prefix, window := ShareFirst(node, i), ShareRange(node, i, j);
    assert prefix == s[..Clamp(i, n)];
    if j - i + 1 > Int32Max {
      assert window == [];
    } else {
      var hi := if j - i + 1 < Int32Min then j + 1 + 0x1_0000_0000 else Max(i, j + 1);
      assert window == s[Clamp(i, n)..Clamp(hi, n)];
      PrefixThenSlice(s, Clamp(i, n), Clamp(hi, n));
      assert ShareFirst(node, hi) == s[..Clamp(hi, n)];
    }
  }

  /** A prefix followed by the slice that continues it is the longer prefix. */
  lemma PrefixThenSlice<T>(s: seq<T>, a: nat, b: nat)
    requires a <= b <= |s|
    ensures s[..a] + s[a..b] == s[..b]
  {
  }

  /** The scan behind LINQ `first.Intersect(second)`: `pending` starts as
      the set of values of `second`; an element of `first` is yielded when it
      can still be removed from `pending`, and is removed then. */
  function IntersectPending(first: seq<string>, pending: set<string>): (r: seq<string>)
    ensures Elems(r) == Elems(first) * pending
    ensures NoDuplicates(r)
    ensures forall a, b :: 0 <= a < b < |r| ==> IndexOf(first, r[a]) < IndexOf(first, r[b])
  {
    if |first| == 0 then []
    else
      var x, rest := first[0], first[1..];
      assert Elems(first) == {x} + Elems(rest);
      if x in pending then
        var tail := IntersectPending(rest, pending - {x});
        assert forall k :: 0 <= k < |tail| ==> tail[k] in Elems(tail);
        IndexOfPastHead(first, tail);
        assert Elems([x] + tail) == {x} + Elems(tail);
        [x] + tail
      else
        var tail := IntersectPending(rest, pending);
        assert forall k :: 0 <= k < |tail| ==> tail[k] in Elems(tail);
        IndexOfPastHead(first, tail);
        tail
  }

  /** Values that are not the head of `s` sit one place further in `s` than
      in its tail, so orderings by first index carry over from the tail. */
  lemma IndexOfPastHead(s: seq<string>, t: seq<string>)
    requires |s| > 0
    requires forall k :: 0 <= k < |t| ==> t[k] in s[1..] && t[k] != s[0]
    requires forall a, b :: 0 <= a < b < |t| ==> IndexOf(s[1..], t[a]) < IndexOf(s[1..], t[b])
    ensures forall k :: 0 <= k < |t| ==> IndexOf(s, t[k]) == IndexOf(s[1..], t[k]) + 1 > 0
    ensures forall a, b :: 0 <= a < b < |t| ==> IndexOf(s, t[a]) < IndexOf(s, t[b])
  {
  }

  /** `first.Intersect(second)`: the distinct values of `first` that occur
      in `second`, in the order of their first occurrence in `first`. */
  function Intersect(first: seq<string>, second: seq<string>): (r: seq<string>)
    ensures Elems(r) == Elems(first) * Elems(second)
    ensures NoDuplicates(r)
    ensures forall a, b :: 0 <= a < b < |r| ==> IndexOf(first, r[a]) < IndexOf(first, r[b])
  {
    IntersectPending(first, Elems(second))
  }

  /** `Listen(other)` (through `Compare`): the number of distinct values the
      node holds that also occur in `other`; repeats on either side do not
      raise it. */
  function Listen(node: Node, other: seq<string>): (count: nat)
    ensures count == |Elems(node.statements) * Elems(other)|
  {
    var common := Intersect(node.statements, other);
    DistinctCard(common);
    |common|
  }
}
