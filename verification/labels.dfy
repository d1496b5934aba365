/** Display names of graph nodes: `$"Node {k}"`, with `k` rendered in
    decimal, and the reading back of such a name. */
module Labels {
  import opened Seqs

  /** The decimal digit character for `d`. */
  function DigitChar(d: nat): char
    requires d < 10
  {
    "0123456789"[d]
  }

  /** The value of a decimal digit character, or 0 for any other character. */
  function DigitValue(c: char): (d: nat)
    ensures d < 10
  {
    if '0' <= c <= '9' then (c as int) - ('0' as int) else 0
  }

  /** Decimal rendering of a natural number, most significant digit first,
      with no leading zeros (the way an `int` interpolates into a string). */
  function NatToString(n: nat): (s: string)
    ensures |s| >= 1
    ensures forall k :: 0 <= k < |s| ==> '0' <= s[k] <= '9'
    ensures n > 0 ==> s[0] != '0'
  {
    if n < 10 then [DigitChar(n)] else NatToString(n / 10) + [DigitChar(n % 10)]
  }

  /** The number a string of decimal digits denotes. */
  function ParseNat(s: string): nat {
    if |s| == 0 then 0 else ParseNat(s[..|s| - 1]) * 10 + DigitValue(s[|s| - 1])
  }

  /** Reading a rendered number gives the number back. */
  lemma {:induction false} ParseNatToString(n: nat)
    ensures ParseNat(NatToString(n)) == n
  {
    var s := NatToString(n);
    if n < 10 {
      assert s[..|s| - 1] == [];
    } else {
      var prefix := NatToString(n / 10);
      assert s[..|s| - 1] == prefix;
      ParseNatToString(n / 10);
    }
  }

  /** The label the graph gives a node; `k` is the 1-based position. */
  function NodeLabel(k: nat): string {
    "Node " + NatToString(k)
  }

  /** Labels of distinct positions are distinct, because the number can be
      read back from the label. */
  lemma NodeLabelInjective(a: nat, b: nat)
    ensures NodeLabel(a) == NodeLabel(b) ==> a == b
  {
    if NodeLabel(a) == NodeLabel(b) {
      assert NodeLabel(a)[5..] == NatToString(a);
      assert NodeLabel(b)[5..] == NatToString(b);
      ParseNatToString(a);
      ParseNatToString(b);
    }
  }

  /** The labels `"Node 1"` … `"Node n"`, in node order. */
  function NodeLabels(n: nat): (labels: seq<string>)
    ensures |labels| == n
    ensures forall k :: 0 <= k < n ==> labels[k] == NodeLabel(k + 1)
  {
    seq(n, k requires 0 <= k < n => NodeLabel(k + 1))
  }

  /** No two nodes of a derived graph share a label. */
  lemma LabelsDistinct(n: nat)
    ensures NoDuplicates(NodeLabels(n))
  {
    var labels := NodeLabels(n);
    forall a, b | 0 <= a < b < n
      ensures labels[a] != labels[b]
    {
      NodeLabelInjective(a + 1, b + 1);
    }
  }
}
