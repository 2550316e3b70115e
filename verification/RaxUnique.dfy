/** A canonical tree is determined by what it stores, whatever the order of the calls that built it. */
module RaxUnique {
  import opened Util
  import opened Rax
  import opened RaxInsert
  import opened RaxDelete

  /** The same tree, up to the key each leaf remembers for printing. */
  predicate Same<V(==)>(a: Node<V>, b: Node<V>)
    decreases a
  {
    && a.prefix == b.prefix && |a.edges| == |b.edges|
    && Value(a) == Value(b)
    && forall i :: 0 <= i < |a.edges| ==> a.edges[i].text == b.edges[i].text && Same(a.edges[i].next, b.edges[i].next)
  }

  /** a and b store the same keys with the same values. */
  ghost predicate Alike<V(!new)>(a: Node<V>, b: Node<V>) {
    forall q :: Get(a, q) == Get(b, q)
  }

  function Value<V>(n: Node<V>): Option<V> {
    if n.leaf.Some? then Some(n.leaf.value.val) else None
  }

  /** Some key is stored behind edge i. */
  lemma KeyBehind<V>(n: Node<V>, i: nat) returns (u: Bytes)
    requires Canonical(n) && i < |n.edges|
    ensures Get(n.edges[i].next, u).Some?
    ensures Get(n, n.edges[i].text + u) == Get(n.edges[i].next, u)
  {
    u := LongestIsStored(n.edges[i].next);
    Behind(n, i, u);
  }

  lemma Behind<V>(n: Node<V>, i: nat, u: Bytes)
    requires Canonical(n) && i < |n.edges|
    ensures Get(n, n.edges[i].text + u) == Get(n.edges[i].next, u)
  {
    var q := n.edges[i].text + u;
    GetVia(n, q, i);
    assert q[|n.edges[i].text|..] == u;
  }

  /** A stored key runs through the edge with its first byte. */
  lemma ThroughEdge<V>(n: Node<V>, q: Bytes)
    requires Canonical(n) && q != [] && Get(n, q).Some?
    ensures Matches(n.edges, q[0]) && n.edges[Pos(n.edges, q[0])].text <= q
  {
    if !Matches(n.edges, q[0]) {
      NoMatch(n.edges, q[0]);
      GetNone(n, q);
    }
  }

  /** The labels for one first byte are equal: a longer one would leave the other no leaf and no branching. */
  lemma LabelsAgree<V(!new)>(a: Node<V>, b: Node<V>, i: nat, j: nat)
    requires Canonical(a) && Canonical(b) && Alike(a, b)
    requires i < |a.edges| && j < |b.edges| && First(a.edges[i]) == First(b.edges[j])
    ensures b.edges[j].text <= a.edges[i].text
  {
    var l, m := a.edges[i].text, b.edges[j].text;
    if a.edges[i].next.leaf.Some? {
      Behind(a, i, []);
      assert l + [] == l;
      UnderLabel(b, j, l);
    } else {
      var q0, q1 := TwoWays(a, i);
      assert Get(a, q0) == Get(b, q0) && Get(a, q1) == Get(b, q1);
      UnderLabel(b, j, q0);
      UnderLabel(b, j, q1);
      ForkBoundsPrefix(l, m, q0, q1);
    }
  }

  /** Behind an edge to a branching node two keys part right after the label. */
  lemma TwoWays<V>(n: Node<V>, i: nat) returns (q0: Bytes, q1: Bytes)
    requires Canonical(n) && i < |n.edges| && |n.edges[i].next.edges| >= 2
    ensures Get(n, q0).Some? && Get(n, q1).Some? && n.edges[i].text < q0 && n.edges[i].text < q1
    ensures q0[|n.edges[i].text|] != q1[|n.edges[i].text|]
  {
    var c, l := n.edges[i].next, n.edges[i].text;
    var x := KeyBehind(c, 0);
    var y := KeyBehind(c, 1);
    Behind(n, i, c.edges[0].text + x);
    Behind(n, i, c.edges[1].text + y);
    q0, q1 := l + (c.edges[0].text + x), l + (c.edges[1].text + y);
    assert First(c.edges[0]) < First(c.edges[1]);
  }

  lemma ForkBoundsPrefix(l: Bytes, m: Bytes, q0: Bytes, q1: Bytes)
    requires l < q0 && l < q1 && q0[|l|] != q1[|l|] && m <= q0 && m <= q1
    ensures m <= l
  {
    assert q0[..|l|] == l;
    if |m| <= |l| {
      assert m == q0[..|m|] == l[..|m|];
    }
  }

  lemma UnderLabel<V>(b: Node<V>, j: nat, q: Bytes)
    requires Canonical(b) && j < |b.edges| && q != [] && First(b.edges[j]) == q[0] as int && Get(b, q).Some?
    ensures b.edges[j].text <= q
  {
    ThroughEdge(b, q);
    PosIs(b.edges, q[0], j);
  }

  lemma {:induction false} FirstsAgree<V(!new)>(a: Node<V>, b: Node<V>, i: nat)
    requires Canonical(a) && Canonical(b) && Alike(a, b)
    requires i <= |a.edges| && i <= |b.edges|
    requires forall j :: 0 <= j < i ==> First(a.edges[j]) == First(b.edges[j])
    ensures |a.edges| == |b.edges| && forall j :: 0 <= j < |a.edges| ==> First(a.edges[j]) == First(b.edges[j])
    decreases |a.edges| - i
  {
    if i < |a.edges| {
      NextFirst(a, b, i);
    }
    if i < |b.edges| {
      NextFirst(b, a, i);
    }
    if i < |a.edges| {
      FirstsAgree(a, b, i + 1);
    }
  }

  /** Every first byte of a from edge i on appears in b from edge i on. */
  lemma NextFirst<V(!new)>(a: Node<V>, b: Node<V>, i: nat)
    requires Canonical(a) && Canonical(b) && Alike(a, b)
    requires i < |a.edges| && i <= |b.edges|
    requires forall j :: 0 <= j < i ==> First(a.edges[j]) == First(b.edges[j])
    ensures i < |b.edges| && First(b.edges[i]) <= First(a.edges[i])
  {
    var u := KeyBehind(a, i);
    var q := a.edges[i].text + u;
    assert Get(a, q) == Get(b, q);
    ThroughEdge(b, q);
    NotBelow(a.edges, b.edges, i, Pos(b.edges, q[0]));
  }

  lemma NotBelow<V>(es: seq<Edge<V>>, fs: seq<Edge<V>>, i: nat, o: nat)
    requires Sorted(es) && Sorted(fs) && i < |es| && i <= |fs| && o < |fs| && First(fs[o]) == First(es[i])
    requires forall j :: 0 <= j < i ==> First(es[j]) == First(fs[j])
    ensures i <= o && First(fs[i]) <= First(es[i])
  {
  }

  lemma AlikeBelow<V(!new)>(a: Node<V>, b: Node<V>, i: nat)
    requires Canonical(a) && Canonical(b) && Alike(a, b)
    requires i < |a.edges| && i < |b.edges| && a.edges[i].text == b.edges[i].text
    ensures Alike(a.edges[i].next, b.edges[i].next)
  {
    forall u
      ensures Get(a.edges[i].next, u) == Get(b.edges[i].next, u)
    {
      Behind(a, i, u);
      Behind(b, i, u);
    }
  }

  /** Canonical trees that store the same are the same. */
  lemma {:induction false} CanonicalIsUnique<V(!new)>(a: Node<V>, b: Node<V>)
    requires Canonical(a) && Canonical(b) && a.prefix == b.prefix
    requires Alike(a, b)
    ensures Same(a, b)
    decreases a
  {
    assert Get(a, []) == Get(b, []);
    FirstsAgree(a, b, 0);
    forall i | 0 <= i < |a.edges|
      ensures a.edges[i].text == b.edges[i].text && Same(a.edges[i].next, b.edges[i].next)
    {
      LabelsAgree(a, b, i, i);
      LabelsAgree(b, a, i, i);
      AlikeBelow(a, b, i);
      CanonicalIsUnique(a.edges[i].next, b.edges[i].next);
    }
  }

  lemma InsertedIs<V(!new)>(n: Node<V>, k: Bytes, v: V)
    requires Canonical(n) && !RootLabelFits(n, k)
    ensures Canonical(Inserted(n, k, v)) && Inserted(n, k, v).prefix == n.prefix
    ensures forall q :: Get(Inserted(n, k, v), q) == if q == k then Some(v) else Get(n, q)
  {
    StripsIff(n, k);
    PlaceCanonical(n, k, k, v);
    InsertExact(n, k, v);
  }

  lemma {:induction false} SameStores<V(!new)>(a: Node<V>, b: Node<V>, q: Bytes)
    requires Same(a, b)
    ensures Get(a, q) == Get(b, q)
    decreases a
  {
    if q != [] {
      SamePos(a.edges, b.edges, q[0]);
      var p := Pos(a.edges, q[0]);
      if p < |a.edges| && a.edges[p].text <= q {
        SameStores(a.edges[p].next, b.edges[p].next, q[|a.edges[p].text|..]);
      }
    }
  }

  lemma {:induction false} SamePos<V>(es: seq<Edge<V>>, fs: seq<Edge<V>>, b: byte)
    requires |es| == |fs| && forall i :: 0 <= i < |es| ==> es[i].text == fs[i].text
    ensures Pos(es, b) == Pos(fs, b)
  {
    if es != [] {
      SamePos(es[1..], fs[1..], b);
    }
  }

  // ---------------------------------------------------------------- two inserts

  /** An insert of l that follows one of k and meets a label of it loses l. */
  lemma SecondIsMisplaced<V(!new)>(n: Node<V>, k: Bytes, v: V, l: Bytes, w: V)
    requires Canonical(n) && k != l && !RootLabelFits(n, k) && !RootLabelFits(n, l)
    requires RootLabelFits(Inserted(n, k, v), l)
    ensures Get(Inserted(Inserted(n, k, v), l, w), l) == None
    ensures Get(Inserted(Inserted(n, l, w), k, v), l).Some?
  {
    var m := Inserted(n, k, v);
    InsertedIs(n, k, v);
    InsertedIs(n, l, w);
    StripsIff(m, l);
    InsertGet(m, l, w, l);
    NoFitNoValue(n, l);
    InsertGet(Inserted(n, l, w), k, v, l);
  }

  lemma NoFitNoValue<V>(n: Node<V>, k: Bytes)
    requires Canonical(n) && k != [] && !RootLabelFits(n, k)
    ensures Get(n, k) == None
  {
    if Matches(n.edges, k[0]) {
      GetVia(n, k, Pos(n.edges, k[0]));
    } else {
      NoMatch(n.edges, k[0]);
      GetNone(n, k);
    }
  }

  /** An insert of k on n makes a new root label, its own or what it shares with the one it splits, and l
      begins with it. */
  predicate NewLabelFits<V>(n: Node<V>, k: Bytes, l: Bytes) {
    k != [] && (if Matches(n.edges, k[0]) then Lcp(n.edges[Pos(n.edges, k[0])].text, k) else k) <= l
  }

  lemma FitsAfterInsert<V>(n: Node<V>, k: Bytes, v: V, l: Bytes)
    requires Canonical(n) && !RootLabelFits(n, k) && !RootLabelFits(n, l)
    ensures RootLabelFits(Inserted(n, k, v), l) <==> NewLabelFits(n, k, l)
  {
    StripsIff(n, k);
    if k != [] {
      var p, r := Pos(n.edges, k[0]), Inserted(n, k, v);
      if Matches(n.edges, k[0]) {
        var text := n.edges[p].text;
        FitsInUpdate(n, r, p, Lcp(text, k), l);
      } else {
        FitsInInsertion(n, r, p, k, l);
      }
    }
  }

  lemma FitsInUpdate<V>(n: Node<V>, r: Node<V>, p: nat, text: Bytes, l: Bytes)
    requires !RootLabelFits(n, l) && p < |n.edges| == |r.edges| && r.edges[p].text == text
    requires forall i :: 0 <= i < |n.edges| && i != p ==> r.edges[i] == n.edges[i]
    ensures RootLabelFits(r, l) <==> text <= l
  {
  }

  lemma FitsInInsertion<V>(n: Node<V>, r: Node<V>, p: nat, text: Bytes, l: Bytes)
    requires !RootLabelFits(n, l) && p <= |n.edges| && |r.edges| == |n.edges| + 1 && r.edges[p].text == text
    requires forall i :: 0 <= i < |r.edges| && i != p ==> r.edges[i] == n.edges[if i < p then i else i - 1]
    ensures RootLabelFits(r, l) <==> text <= l
  {
  }

  lemma CommuteIfPlaced<V(!new)>(n: Node<V>, k: Bytes, v: V, l: Bytes, w: V)
    requires Canonical(n) && k != l && !RootLabelFits(n, k) && !RootLabelFits(n, l)
    requires !RootLabelFits(Inserted(n, k, v), l) && !RootLabelFits(Inserted(n, l, w), k)
    ensures Same(Inserted(Inserted(n, k, v), l, w), Inserted(Inserted(n, l, w), k, v))
  {
    InsertedIs(n, k, v);
    InsertedIs(n, l, w);
    InsertedIs(Inserted(n, k, v), l, w);
    InsertedIs(Inserted(n, l, w), k, v);
    CanonicalIsUnique(Inserted(Inserted(n, k, v), l, w), Inserted(Inserted(n, l, w), k, v));
  }

  /** Two inserts that meet no fitting root label on the tree as it is commute, up to sameness, exactly when
      neither key begins with the root label that the other one makes. */
  lemma InsertsCommute<V(!new)>(n: Node<V>, k: Bytes, v: V, l: Bytes, w: V)
    requires Canonical(n) && k != l && !RootLabelFits(n, k) && !RootLabelFits(n, l)
    ensures Same(Inserted(Inserted(n, k, v), l, w), Inserted(Inserted(n, l, w), k, v)) <==>
            !NewLabelFits(n, k, l) && !NewLabelFits(n, l, k)
  {
    FitsAfterInsert(n, k, v, l);
    FitsAfterInsert(n, l, w, k);
    var a, b := Inserted(Inserted(n, k, v), l, w), Inserted(Inserted(n, l, w), k, v);
    if RootLabelFits(Inserted(n, k, v), l) {
      SecondIsMisplaced(n, k, v, l, w);
      if Same(a, b) {
        SameStores(a, b, l);
      }
    } else if RootLabelFits(Inserted(n, l, w), k) {
      SecondIsMisplaced(n, l, w, k, v);
      if Same(a, b) {
        SameStores(a, b, k);
      }
    } else {
      CommuteIfPlaced(n, k, v, l, w);
    }
  }

  // ---------------------------------------------------------------- an insert and its deletion

  lemma CleanUndoes<V(!new)>(n: Node<V>, k: Bytes, v: V)
    requires Canonical(n) && k != [] && !RootLabelFits(n, k)
    ensures Same(Removed(Inserted(n, k, v), k).0, n) <==> Clean(Inserted(n, k, v), k)
  {
    var m := Inserted(n, k, v);
    InsertedIs(n, k, v);
    NoFitNoValue(n, k);
    if Clean(m, k) {
      CleanKeepsCanonical(m, k);
      DeleteExact(m, k);
      CanonicalIsUnique(Removed(m, k).0, n);
    } else {
      FindUnlessSlips(m, k);
      FoundIsEnd(m, k);
      var q := UncleanLoses(m, k);
      if Same(Removed(m, k).0, n) {
        SameStores(Removed(m, k).0, n, q);
      }
    }
  }

  lemma TargetHere<V>(m: Node<V>, p: nat, k: Bytes)
    requires Sorted(m.edges) && p < |m.edges| && k != [] && m.edges[p].text == k
    ensures Target(m, k) == Some((m, p)) && !Slips(m, k)
  {
    PosIs(m.edges, k[0], p);
    LcpOfPrefix(k, k);
  }

  lemma TargetBelow<V>(m: Node<V>, p: nat, k: Bytes)
    requires Sorted(m.edges) && p < |m.edges| && m.edges[p].text != [] && m.edges[p].text < k
    ensures Target(m, k) == Target(m.edges[p].next, k[|m.edges[p].text|..])
  {
    PosIs(m.edges, k[0], p);
    LcpOfPrefix(m.edges[p].text, k);
  }

  lemma AttachIsClean<V>(n: Node<V>, p: nat, k: Bytes, v: V)
    requires Canonical(n) && k != [] && p == Pos(n.edges, k[0]) && !Matches(n.edges, k[0])
    ensures Clean(n.(edges := Attach(n.edges, p, Edge(k, LeafNode(k, k, v)))), k) <==> n.leaf.Some? || |n.edges| != 1
  {
    AttachSorted(n.edges, p, Edge(k, LeafNode(k, k, v)));
    TargetHere(n.(edges := Attach(n.edges, p, Edge(k, LeafNode(k, k, v)))), p, k);
  }

  /** After a split the new leaf is the split node itself, above the old one, or one of its two children. */
  lemma SplitIsUnclean<V>(m: Node<V>, p: nat, child: Node<V>, common: Bytes, k: Bytes, v: V)
    requires Sorted(m.edges) && p < |m.edges| && common != [] && common <= k && common < child.prefix
    requires |common| < |k| ==> child.prefix[|common|] != k[|common|]
    requires m.edges[p] == Edge(common, Split(child, common, k, k, v))
    ensures !Clean(m, k)
  {
    var s, rest := Split(child, common, k, k, v), k[|common|..];
    if rest == [] {
      TargetHere(m, p, k);
    } else {
      var lower := SplitEdges(child, common, k, k, v);
      TargetBelow(m, p, k);
      TargetHere(s, 1 - lower, rest);
    }
  }

  /** The deletion is clean exactly when the insert added an edge to a root that keeps its shape without it. */
  lemma CleanAfterInsert<V>(n: Node<V>, k: Bytes, v: V)
    requires Canonical(n) && k != [] && !RootLabelFits(n, k)
    ensures Clean(Inserted(n, k, v), k) <==> !Matches(n.edges, k[0]) && (n.leaf.Some? || |n.edges| != 1)
  {
    var p := Pos(n.edges, k[0]);
    StripsIff(n, k);
    if !Matches(n.edges, k[0]) {
      AttachIsClean(n, p, k, v);
    } else {
      var child, common := n.edges[p].next, Lcp(n.edges[p].text, k);
      var m := Inserted(n, k, v);
      assert m == n.(edges := n.edges[p := Edge(common, Split(child, common, k, k, v))]);
      assert common[0] == k[0];
      SplitIsUnclean(m, p, child, common, k, v);
    }
  }

  /** Deleting a freshly inserted key gives the old tree back exactly when no stored key starts with the
      same byte and the root does not have to merge afterwards. */
  lemma DeleteUndoesInsert<V(!new)>(n: Node<V>, k: Bytes, v: V)
    requires Canonical(n) && k != [] && !RootLabelFits(n, k)
    ensures Same(Removed(Inserted(n, k, v), k).0, n) <==>
            !Matches(n.edges, k[0]) && (n.leaf.Some? || |n.edges| != 1)
  {
    CleanUndoes(n, k, v);
    CleanAfterInsert(n, k, v);
  }
}
