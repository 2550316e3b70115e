/** The compressed radix tree of db/rax.go: its nodes, the walk along an edge, and what a tree stores.

    Nodes, prefixes and labels are values; RaxTree rebuilds the nodes that the source updates in place. */
module Rax {
  import opened Util

  datatype Leaf<V> = Leaf(key: Bytes, val: V)
  datatype Edge<V> = Edge(text: Bytes, next: Node<V>)
  datatype Node<V> = Node(prefix: Bytes, edges: seq<Edge<V>>, leaf: Option<Leaf<V>>)

  // ---------------------------------------------------------------- bytes

  /** longestCommonPrefix */
  function Lcp(a: Bytes, b: Bytes): (r: Bytes)
    ensures r <= a && r <= b
    ensures |r| < |a| && |r| < |b| ==> a[|r|] != b[|r|]
  {
    if a != [] && b != [] && a[0] == b[0] then [a[0]] + Lcp(a[1..], b[1..]) else []
  }

  /** The sign of bytes.Compare. */
  function Compare(a: Bytes, b: Bytes): int {
    if a == [] then (if b == [] then 0 else -1)
    else if b == [] then 1
    else if a[0] < b[0] then -1 else if a[0] > b[0] then 1 else Compare(a[1..], b[1..])
  }

  lemma {:induction false} CompareEqual(a: Bytes, b: Bytes)
    ensures Compare(a, b) == 0 <==> a == b
  {
    if a != [] && b != [] && a[0] == b[0] {
      CompareEqual(a[1..], b[1..]);
      assert a == [a[0]] + a[1..] && b == [b[0]] + b[1..];
    }
  }

  /** a is smaller than b, and neither is a prefix of the other. */
  predicate Precedes(a: Bytes, b: Bytes) { Compare(a, b) < 0 && !(a <= b) && !(b <= a) }

  method LongestCommonPrefix(a: Bytes, b: Bytes) returns (r: Bytes)
    ensures r == Lcp(a, b)
  {
    var i := 0;
    while i < |a| && i < |b| && a[i] == b[i]
      invariant 0 <= i <= |a| && i <= |b|
      invariant a[..i] == b[..i]
    {
      i := i + 1;
    }
    LcpIs(a, b, i);
    return a[..i];
  }

  lemma {:induction false} LcpIs(a: Bytes, b: Bytes, i: nat)
    requires i <= |a| && i <= |b| && a[..i] == b[..i]
    requires i == |a| || i == |b| || a[i] != b[i]
    ensures Lcp(a, b) == a[..i]
  {
    if i > 0 {
      assert a[0] == a[..i][0] == b[..i][0] == b[0];
      assert a[1..][..i - 1] == a[..i][1..] == b[..i][1..] == b[1..][..i - 1];
      LcpIs(a[1..], b[1..], i - 1);
    }
  }

  // ---------------------------------------------------------------- edges

  function First<V>(e: Edge<V>): int {
    if e.text == [] then -1 else e.text[0] as int
  }

  ghost predicate Sorted<V>(es: seq<Edge<V>>) {
    forall i, j :: 0 <= i < j < |es| ==> First(es[i]) < First(es[j])
  }

  /** How many edges start below byte b: where an edge starting with b is, or belongs. */
  function Pos<V>(es: seq<Edge<V>>, b: byte): (p: nat)
    ensures p <= |es|
    ensures p < |es| ==> b as int <= First(es[p])
    ensures forall i :: 0 <= i < p ==> First(es[i]) < b as int
  {
    if es == [] || b as int <= First(es[0]) then 0 else 1 + Pos(es[1..], b)
  }

  predicate Matches<V>(es: seq<Edge<V>>, b: byte) {
    Pos(es, b) < |es| && First(es[Pos(es, b)]) == b as int
  }

  lemma PosIs<V>(es: seq<Edge<V>>, b: byte, p: nat)
    requires Sorted(es) && p <= |es|
    requires forall i :: 0 <= i < p ==> First(es[i]) < b as int
    requires p < |es| ==> b as int <= First(es[p])
    ensures Pos(es, b) == p
  {
  }

  /** walkEdge: binary search by whole labels, stopping at any common first byte. */
  method WalkEdge<V>(es: seq<Edge<V>>, text: Bytes) returns (found: bool, idx: nat, common: Bytes)
    requires Sorted(es) && text != [] && forall i :: 0 <= i < |es| ==> es[i].text != []
    ensures found == Matches(es, text[0]) && idx == Pos(es, text[0])
    ensures found ==> common == Lcp(es[idx].text, text) && common != []
    ensures !found ==> common == []
  {
    var left, right, closest := 0, |es| - 1, -1;
    while left <= right
      invariant 0 <= left == closest + 1 && left <= right + 1 <= |es|
      invariant forall i :: 0 <= i < left ==> First(es[i]) < text[0] as int
      invariant forall i :: right < i < |es| ==> text[0] as int < First(es[i])
    {
      var mid := (left + right) / 2;
      var cmp := Compare(es[mid].text, text);
      common := LongestCommonPrefix(es[mid].text, text);
      if cmp == 0 || |common| > 0 {
        assert es[mid].text[0] == text[0];
        PosIs(es, text[0], mid);
        return true, mid, common;
      }
      if cmp > 0 {
        right := mid - 1;
      } else {
        closest := mid;
        left := mid + 1;
      }
    }
    PosIs(es, text[0], left);
    return false, closest + 1, [];
  }

  /** Where no label shares the first byte without being a prefix of the text, or the other way round. */
  predicate Apart<V>(es: seq<Edge<V>>, text: Bytes)
    requires text != []
  {
    forall i :: 0 <= i < |es| && First(es[i]) == text[0] as int ==> es[i].text <= text || text <= es[i].text
  }

  /** findClosestPrefixIndex, used when an edge is added to a split node, beside the one that is there. */
  method FindClosestPrefixIndex<V>(es: seq<Edge<V>>, text: Bytes) returns (idx: nat)
    requires Sorted(es) && text != [] && forall i :: 0 <= i < |es| ==> es[i].text != []
    ensures Apart(es, text) ==> idx == Pos(es, text[0])
    ensures |es| == 1 ==> idx == if Precedes(es[0].text, text) then 1 else 0
  {
    var left, right, closest := 0, |es| - 1, -1;
    while left <= right
      invariant 0 <= left == closest + 1 && left <= right + 1 <= |es|
      invariant Apart(es, text) ==> forall i :: 0 <= i < left ==> First(es[i]) < text[0] as int
      invariant Apart(es, text) ==> forall i :: right < i < |es| ==> text[0] as int < First(es[i])
      invariant |es| == 1 ==> (left <= right || left == if Precedes(es[0].text, text) then 1 else 0)
    {
      var mid := (left + right) / 2;
      var cmp := Compare(es[mid].text, text);
      if cmp == 0 || es[mid].text <= text || text <= es[mid].text {
        CompareEqual(es[mid].text, text);
        assert First(es[mid]) == text[0] as int;
        if Apart(es, text) {
          PosIs(es, text[0], mid);
        }
        return mid;
      }
      if cmp > 0 {
        right := mid - 1;
      } else {
        closest := mid;
        left := mid + 1;
      }
    }
    if Apart(es, text) {
      PosIs(es, text[0], left);
    }
    return closest + 1;
  }

  // ---------------------------------------------------------------- what a tree stores

  /** The value at the end of the path whose labels, in full, spell q. */
  function Get<V>(n: Node<V>, q: Bytes): Option<V>
    decreases n
  {
    if q == [] then (if n.leaf.Some? then Some(n.leaf.value.val) else None)
    else
      var p := Pos(n.edges, q[0]);
      if p < |n.edges| && n.edges[p].text <= q then Get(n.edges[p].next, q[|n.edges[p].text|..]) else None
  }

  function Leaves<V>(n: Node<V>): nat
    decreases n
  {
    (if n.leaf.Some? then 1 else 0) + EdgeLeaves(n.edges)
  }

  function EdgeLeaves<V>(es: seq<Edge<V>>): nat
    decreases es
  {
    if es == [] then 0 else Leaves(es[0].next) + EdgeLeaves(es[1..])
  }

  lemma {:induction false} EdgeLeavesConcat<V>(a: seq<Edge<V>>, b: seq<Edge<V>>)
    ensures EdgeLeaves(a + b) == EdgeLeaves(a) + EdgeLeaves(b)
  {
    if a == [] {
      assert a + b == b;
    } else {
      EdgeLeavesConcat(a[1..], b);
      assert (a + b)[1..] == a[1..] + b;
    }
  }

  /** The leaves split at edge p. */
  lemma EdgeLeavesAt<V>(es: seq<Edge<V>>, p: nat)
    requires p < |es|
    ensures EdgeLeaves(es) == EdgeLeaves(es[..p]) + Leaves(es[p].next) + EdgeLeaves(es[p + 1..])
  {
    EdgeLeavesConcat(es[..p], es[p..]);
    assert es[..p] + es[p..] == es && es[p..][1..] == es[p + 1..];
  }

  /** A node below the root carries a leaf or branches. */
  predicate Pays<V>(n: Node<V>) {
    n.leaf.Some? || |n.edges| >= 2
  }

  /** Edges sorted with distinct first bytes, each label the prefix of its child, no idle inner node. */
  ghost predicate Canonical<V>(n: Node<V>)
    decreases n
  {
    && Sorted(n.edges)
    && forall i :: 0 <= i < |n.edges| ==>
         && n.edges[i].text != [] && n.edges[i].text == n.edges[i].next.prefix
         && Pays(n.edges[i].next) && Canonical(n.edges[i].next)
  }

  /** The same, but that a label may be shorter than the prefix of its child: a merge lengthens the prefix and
      leaves the label above it as it was. */
  ghost predicate Ordered<V>(n: Node<V>)
    decreases n
  {
    && Sorted(n.edges)
    && forall i :: 0 <= i < |n.edges| ==>
         && n.edges[i].text != [] && n.edges[i].text <= n.edges[i].next.prefix
         && Pays(n.edges[i].next) && Ordered(n.edges[i].next)
  }

  lemma {:induction false} CanonicalIsOrdered<V>(n: Node<V>)
    requires Canonical(n)
    ensures Ordered(n)
    decreases n
  {
    forall i | 0 <= i < |n.edges|
      ensures Ordered(n.edges[i].next)
    {
      CanonicalIsOrdered(n.edges[i].next);
    }
  }
}
