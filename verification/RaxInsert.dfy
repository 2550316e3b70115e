/** Insert of db/rax.go. The descent restarts at the root after every full match (the inner `n` shadows
    the outer one), so a key is stored under what is left of it once root labels are stripped off. */
module RaxInsert {
  import opened Util
  import opened Rax

  /** The edge's label is all of its child's prefix, and the key goes on behind it. */
  predicate Passes<V>(e: Edge<V>, key: Bytes) {
    e.text != [] && e.text <= key && |e.text| == |e.next.prefix|
  }

  /** What the loop leaves of the key: root labels are cut off its front as long as one fits. */
  function Strip<V>(es: seq<Edge<V>>, key: Bytes): (r: Bytes)
    ensures |r| <= |key|
    ensures r != [] && Matches(es, r[0]) ==> !Passes(es[Pos(es, r[0])], r)
    decreases |key|
  {
    if key == [] then key
    else
      var p := Pos(es, key[0]);
      if Matches(es, key[0]) && Passes(es[p], key) then Strip(es, key[|es[p].text|..]) else key
  }

  function LeafNode<V>(prefix: Bytes, key: Bytes, val: V): Node<V> {
    Node(prefix, [], Some(Leaf(key, val)))
  }

  function Attach<V>(es: seq<Edge<V>>, p: nat, e: Edge<V>): seq<Edge<V>>
    requires p <= |es|
  {
    es[..p] + [e] + es[p..]
  }

  /** child split after the bytes m of its prefix, with a leaf for the rest of the search beside it. */
  function Split<V>(child: Node<V>, m: Bytes, search: Bytes, key: Bytes, val: V): Node<V>
    requires |m| < |child.prefix| && |m| <= |search|
  {
    var rest, s := child.prefix[|m|..], search[|m|..];
    var lower := Edge(rest, child.(prefix := rest));
    if s == [] then Node(m, [lower], Some(Leaf(key, val)))
    else
      var upper := Edge(s, LeafNode(s, key, val));
      Node(m, if Precedes(rest, s) then [lower, upper] else [upper, lower], None)
  }

  /** The body of Insert once no root label is a prefix of the search any more. */
  function Place<V>(root: Node<V>, search: Bytes, key: Bytes, val: V): Node<V> {
    if search == [] then
      root.(leaf := Some(if root.leaf.Some? then root.leaf.value.(val := val) else Leaf(key, val)))
    else
      var p := Pos(root.edges, search[0]);
      if !Matches(root.edges, search[0]) then
        root.(edges := Attach(root.edges, p, Edge(search, LeafNode(search, search, val))))
      else
        var child := root.edges[p].next;
        var m := Lcp(root.edges[p].text, search);
        if |m| < |child.prefix| then root.(edges := root.edges[p := Edge(m, Split(child, m, search, key, val))])
        else root
  }

  function Inserted<V>(root: Node<V>, key: Bytes, val: V): Node<V> {
    Place(root, Strip(root.edges, key), key, val)
  }

  // ---------------------------------------------------------------- what Place stores

  lemma PrefixSplits(text: Bytes, m: Bytes, q: Bytes)
    requires m <= text
    ensures text <= q <==> m <= q && text[|m|..] <= q[|m|..]
    ensures text <= q ==> q[|m|..][|text[|m|..]|..] == q[|text|..]
  {
    if text <= q {
      assert text[|m|..] == q[|m|..|text|];
      assert m == text[..|m|] == q[..|m|];
    }
    if m <= q && text[|m|..] <= q[|m|..] {
      assert text == m + text[|m|..];
      assert q == m + q[|m|..];
    }
  }

  /** Get looks at a node's edges and leaf only, and an edge is found by its first byte. */
  lemma GetVia<V>(n: Node<V>, q: Bytes, p: nat)
    requires Sorted(n.edges) && q != [] && p < |n.edges| && First(n.edges[p]) == q[0] as int
    ensures Get(n, q) == if n.edges[p].text <= q then Get(n.edges[p].next, q[|n.edges[p].text|..]) else None
  {
    PosIs(n.edges, q[0], p);
  }

  lemma GetNone<V>(n: Node<V>, q: Bytes)
    requires q != [] && forall i :: 0 <= i < |n.edges| ==> First(n.edges[i]) != q[0] as int
    ensures Get(n, q) == None
  {
    var p := Pos(n.edges, q[0]);
    if p < |n.edges| {
      assert n.edges[p].text[0] != q[0];
    }
  }

  lemma PrecedesByFirst(a: Bytes, b: Bytes)
    requires a != [] && b != [] && a[0] != b[0]
    ensures Precedes(a, b) <==> a[0] < b[0]
  {
  }

  /** The edges of a split node whose two texts part at once; the old node's is at `lower`. */
  lemma SplitEdges<V>(child: Node<V>, m: Bytes, search: Bytes, key: Bytes, val: V) returns (lower: nat)
    requires |m| < |child.prefix| && |m| <= |search| && (|m| < |search| ==> child.prefix[|m|] != search[|m|])
    ensures var es, rest, s := Split(child, m, search, key, val).edges, child.prefix[|m|..], search[|m|..];
      && Sorted(es) && lower < |es| == (if s == [] then 1 else 2)
      && es[lower] == Edge(rest, child.(prefix := rest))
      && (s != [] ==> lower < 2 && es[1 - lower] == Edge(s, LeafNode(s, key, val)) && (lower == 0 <==> rest[0] < s[0]))
  {
    var rest, s := child.prefix[|m|..], search[|m|..];
    if s != [] {
      PrecedesByFirst(rest, s);
    }
    lower := if s == [] || rest[0] < s[0] then 0 else 1;
  }

  lemma SplitGet<V>(child: Node<V>, m: Bytes, search: Bytes, key: Bytes, val: V, u: Bytes)
    requires |m| < |child.prefix| && m <= child.prefix && m <= search
    requires |m| < |search| ==> child.prefix[|m|] != search[|m|]
    ensures Get(Split(child, m, search, key, val), u) ==
            if u == search[|m|..] then Some(val)
            else if child.prefix[|m|..] <= u then Get(child, u[|child.prefix| - |m|..]) else None
  {
    var n := Split(child, m, search, key, val);
    var rest, s := child.prefix[|m|..], search[|m|..];
    var lower := SplitEdges(child, m, search, key, val);
    GetIgnoresPrefix(child, rest, if rest <= u then u[|rest|..] else u);
    if u != [] && u[0] == rest[0] {
      GetVia(n, u, lower);
    } else if u != [] && s != [] && u[0] == s[0] {
      GetVia(n, u, 1 - lower);
      LeafGet(s, key, val, if s <= u then u[|s|..] else u);
    } else if u != [] {
      GetNone(n, u);
    }
  }

  lemma GetIgnoresPrefix<V>(n: Node<V>, prefix: Bytes, q: Bytes)
    ensures Get(n.(prefix := prefix), q) == Get(n, q)
  {
  }

  lemma LeafGet<V>(prefix: Bytes, key: Bytes, val: V, q: Bytes)
    ensures Get(LeafNode(prefix, key, val), q) == if q == [] then Some(val) else None
  {
  }

  /** Place stores the value under the search and touches nothing else. */
  lemma PlaceGet<V>(root: Node<V>, search: Bytes, key: Bytes, val: V, q: Bytes)
    requires Canonical(root) && Strip(root.edges, search) == search
    ensures Get(Place(root, search, key, val), q) == if q == search then Some(val) else Get(root, q)
  {
    if search != [] && q != [] {
      var es, p := root.edges, Pos(root.edges, search[0]);
      var n := Place(root, search, key, val);
      if !Matches(es, search[0]) {
        AttachSorted(es, p, n.edges[p]);
        if q[0] == search[0] {
          GetVia(n, q, p);
          LeafGet(search, search, val, if search <= q then q[|search|..] else q);
          assert Get(root, q) == None by { NoMatch(es, search[0]); GetNone(root, q); }
        } else {
          SameElsewhere(root, n, q, p);
        }
      } else {
        SplitPlace(root, search, key, val, q);
      }
    }
  }

  lemma NoMatch<V>(es: seq<Edge<V>>, b: byte)
    requires Sorted(es) && !Matches(es, b)
    ensures forall i :: 0 <= i < |es| ==> First(es[i]) != b as int
  {
  }

  lemma AttachSorted<V>(es: seq<Edge<V>>, p: nat, e: Edge<V>)
    requires Sorted(es) && e.text != [] && p == Pos(es, e.text[0]) && !Matches(es, e.text[0])
    ensures Sorted(Attach(es, p, e))
  {
  }

  lemma SameElsewhere<V>(root: Node<V>, n: Node<V>, q: Bytes, p: nat)
    requires Sorted(root.edges) && p <= |root.edges| && |n.edges| == |root.edges| + 1 && Sorted(n.edges)
    requires n.edges == Attach(root.edges, p, n.edges[p]) && q != [] && First(n.edges[p]) != q[0] as int
    ensures Get(n, q) == Get(root, q)
  {
    var o := Pos(root.edges, q[0]);
    if Matches(root.edges, q[0]) {
      GetVia(root, q, o);
      GetVia(n, q, if o < p then o else o + 1);
    } else {
      NoMatch(root.edges, q[0]);
      GetNone(root, q);
      GetNone(n, q);
    }
  }

  lemma SplitPlace<V>(root: Node<V>, search: Bytes, key: Bytes, val: V, q: Bytes)
    requires Canonical(root) && Strip(root.edges, search) == search
    requires search != [] && q != [] && Matches(root.edges, search[0])
    ensures Get(Place(root, search, key, val), q) == if q == search then Some(val) else Get(root, q)
  {
    var es, p := root.edges, Pos(root.edges, search[0]);
    var child, m := es[p].next, Lcp(es[p].text, search);
    var n := Place(root, search, key, val);
    assert n.edges == es[p := Edge(m, Split(child, m, search, key, val))] && Sorted(n.edges);
    if q[0] == search[0] {
      GetVia(root, q, p);
      GetVia(n, q, p);
      ThroughSplit(child, m, search, key, val, q);
    } else if Matches(es, q[0]) {
      GetVia(root, q, Pos(es, q[0]));
      GetVia(n, q, Pos(es, q[0]));
    } else {
      NoMatch(es, q[0]);
      GetNone(root, q);
      GetNone(n, q);
    }
  }

  /** Below the split edge: the new key, what the old edge led to, and nothing else. */
  lemma ThroughSplit<V>(child: Node<V>, m: Bytes, search: Bytes, key: Bytes, val: V, q: Bytes)
    requires |m| < |child.prefix| && m <= child.prefix && m <= search && !(child.prefix <= search)
    requires |m| < |search| ==> child.prefix[|m|] != search[|m|]
    ensures (if m <= q then Get(Split(child, m, search, key, val), q[|m|..]) else None) ==
            if q == search then Some(val)
            else if child.prefix <= q then Get(child, q[|child.prefix|..]) else None
  {
    if m <= q {
      var u := q[|m|..];
      assert u == search[|m|..] <==> q == search by {
        assert search == m + search[|m|..] && q == m + u;
      }
      PrefixSplits(child.prefix, m, q);
      SplitGet(child, m, search, key, val, u);
    }
  }

  // ---------------------------------------------------------------- Insert

  /** Every key is looked up as before, except the stripped one, which now has the value. */
  lemma InsertGet<V>(root: Node<V>, key: Bytes, val: V, q: Bytes)
    requires Canonical(root)
    ensures Get(Inserted(root, key, val), q) == if q == Strip(root.edges, key) then Some(val) else Get(root, q)
  {
    StripTwice(root.edges, key);
    PlaceGet(root, Strip(root.edges, key), key, val, q);
  }

  lemma {:induction false} StripTwice<V>(es: seq<Edge<V>>, key: Bytes)
    ensures Strip(es, Strip(es, key)) == Strip(es, key)
    decreases |key|
  {
    if key != [] {
      var p := Pos(es, key[0]);
      if Matches(es, key[0]) && Passes(es[p], key) {
        StripTwice(es, key[|es[p].text|..]);
      }
    }
  }

  /** Some root label is a prefix of the key: the guard under which the loop goes round again. */
  predicate RootLabelFits<V>(root: Node<V>, key: Bytes) {
    exists i :: 0 <= i < |root.edges| && root.edges[i].text <= key
  }

  lemma StripsIff<V>(root: Node<V>, key: Bytes)
    requires Canonical(root)
    ensures Strip(root.edges, key) != key <==> RootLabelFits(root, key)
  {
    if i :| 0 <= i < |root.edges| && root.edges[i].text <= key {
      assert root.edges[i].text[0] == key[0];
      PosIs(root.edges, key[0], i);
    }
  }

  /** The bytes are root labels, one after the other. */
  ghost predicate MadeOfLabels<V>(root: Node<V>, front: Bytes)
    decreases |front|
  {
    front == [] ||
    exists i :: 0 <= i < |root.edges| && root.edges[i].text != [] && root.edges[i].text <= front
                && MadeOfLabels(root, front[|root.edges[i].text|..])
  }

  /** Root labels differ in their first bytes, so at most one is a prefix of the key. */
  lemma OneLabelFits<V>(root: Node<V>, key: Bytes, n: nat, p: nat)
    requires Canonical(root) && n <= |key| && p < |root.edges| && root.edges[p].text <= key
    ensures var w := |root.edges[p].text|;
      MadeOfLabels(root, key[..n]) <==> n == 0 || (w <= n && MadeOfLabels(root, key[..n][w..]))
  {
    if n > 0 {
      forall i | 0 <= i < |root.edges| && root.edges[i].text <= key
        ensures i == p
      {
        assert root.edges[i].text[0] == key[0] == root.edges[p].text[0];
        PosIs(root.edges, key[0], i);
        PosIs(root.edges, key[0], p);
      }
      assert forall i :: 0 <= i < |root.edges| && root.edges[i].text <= key[..n] ==> root.edges[i].text <= key;
    }
  }

  lemma StripsOne<V>(root: Node<V>, key: Bytes, n: nat) returns (w: nat)
    requires Canonical(root) && RootLabelFits(root, key) && n <= |key|
    ensures 0 < w <= |key| && Strip(root.edges, key) == Strip(root.edges, key[w..])
    ensures MadeOfLabels(root, key[..n]) <==> n == 0 || (w <= n && MadeOfLabels(root, key[..n][w..]))
  {
    var i :| 0 <= i < |root.edges| && root.edges[i].text <= key;
    assert root.edges[i].text[0] == key[0];
    PosIs(root.edges, key[0], i);
    OneLabelFits(root, key, n, i);
    w := |root.edges[i].text|;
  }

  lemma NoneFits<V>(root: Node<V>, key: Bytes, n: nat)
    requires !RootLabelFits(root, key) && 0 < n <= |key|
    ensures !MadeOfLabels(root, key[..n])
  {
    assert forall i :: 0 <= i < |root.edges| && root.edges[i].text <= key[..n] ==> root.edges[i].text <= key;
  }

  /** The ending of the key from n on is what the loop should leave. */
  ghost predicate LeftOver<V>(root: Node<V>, key: Bytes, n: nat)
    requires n <= |key|
  {
    MadeOfLabels(root, key[..n]) && !RootLabelFits(root, key[n..])
  }

  /** What is left of the key is the one ending of it that no root label fits and that only root labels stand
      before. */
  lemma {:induction false} StripIs<V>(root: Node<V>, key: Bytes, n: nat)
    requires Canonical(root) && n <= |key|
    ensures key[n..] == Strip(root.edges, key) <==> LeftOver(root, key, n)
    decreases |key|
  {
    StripsIff(root, key);
    if !RootLabelFits(root, key) {
      if n > 0 {
        NoneFits(root, key, n);
        assert |key[n..]| < |key|;
      } else {
        assert key[0..] == key;
      }
    } else {
      var w := StripsOne(root, key, n);
      if w <= n {
        StripIs(root, key[w..], n - w);
        assert key[w..][n - w..] == key[n..] && key[w..][..n - w] == key[..n][w..];
      } else {
        assert |key[n..]| > |key[w..]|;
        assert n == 0 ==> key[0..] == key;
      }
    }
  }

  /** Insert is the map update exactly when no root label is a prefix of the key, or when the update and
      the misplaced one are both already there. */
  lemma InsertExact<V(!new)>(root: Node<V>, key: Bytes, val: V)
    requires Canonical(root)
    ensures (forall q :: Get(Inserted(root, key, val), q) == if q == key then Some(val) else Get(root, q)) <==>
            (!RootLabelFits(root, key) || (Get(root, key) == Some(val) && Get(root, Strip(root.edges, key)) == Some(val)))
  {
    StripsIff(root, key);
    var n, r := Inserted(root, key, val), Strip(root.edges, key);
    forall q
      ensures Get(n, q) == if q == r then Some(val) else Get(root, q)
    {
      InsertGet(root, key, val, q);
    }
    assert Get(n, key) == if key == r then Some(val) else Get(root, key);
  }

  lemma PlaceCanonical<V>(root: Node<V>, search: Bytes, key: Bytes, val: V)
    requires Canonical(root) && Strip(root.edges, search) == search
    ensures Canonical(Place(root, search, key, val))
    ensures Place(root, search, key, val).prefix == root.prefix
  {
    if search != [] {
      var es, p := root.edges, Pos(root.edges, search[0]);
      if !Matches(es, search[0]) {
        var e := Edge(search, LeafNode(search, search, val));
        AttachSorted(es, p, e);
        assert Canonical(e.next);
      } else {
        var child, m := es[p].next, Lcp(es[p].text, search);
        SplitCanonical(child, m, search, key, val);
        assert m[0] == search[0];
      }
    }
  }

  lemma SplitCanonical<V>(child: Node<V>, m: Bytes, search: Bytes, key: Bytes, val: V)
    requires Canonical(child) && Pays(child)
    requires |m| < |child.prefix| && m <= child.prefix && m <= search
    requires |m| < |search| ==> child.prefix[|m|] != search[|m|]
    ensures Canonical(Split(child, m, search, key, val)) && Pays(Split(child, m, search, key, val))
  {
    var n := Split(child, m, search, key, val);
    var lower := child.(prefix := child.prefix[|m|..]);
    assert Canonical(lower) && Pays(lower);
    var s := search[|m|..];
    assert Canonical(LeafNode(s, key, val));
    assert forall i :: 0 <= i < |n.edges| ==>
      n.edges[i].next == lower || (s != [] && n.edges[i].next == LeafNode(s, key, val));
  }

  lemma PlaceLeaves<V>(root: Node<V>, search: Bytes, key: Bytes, val: V)
    requires Canonical(root) && Strip(root.edges, search) == search
    ensures Leaves(Place(root, search, key, val)) == Leaves(root) + if Get(root, search) == None then 1 else 0
  {
    if search != [] {
      var es, p := root.edges, Pos(root.edges, search[0]);
      if !Matches(es, search[0]) {
        NoMatch(es, search[0]);
        GetNone(root, search);
        AttachLeaves(es, p, Edge(search, LeafNode(search, search, val)));
      } else {
        var child, m := es[p].next, Lcp(es[p].text, search);
        GetVia(root, search, p);
        SplitLeaves(child, m, search, key, val);
        ReplacedLeaves(es, p, Edge(m, Split(child, m, search, key, val)));
      }
    }
  }

  lemma AttachLeaves<V>(es: seq<Edge<V>>, p: nat, e: Edge<V>)
    requires p <= |es|
    ensures EdgeLeaves(Attach(es, p, e)) == EdgeLeaves(es) + Leaves(e.next)
  {
    var fs := Attach(es, p, e);
    EdgeLeavesAt(fs, p);
    EdgeLeavesConcat(es[..p], es[p..]);
    assert fs[..p] == es[..p] && fs[p + 1..] == es[p..] && es == es[..p] + es[p..];
  }

  lemma ReplacedLeaves<V>(es: seq<Edge<V>>, p: nat, e: Edge<V>)
    requires p < |es|
    ensures EdgeLeaves(es[p := e]) == EdgeLeaves(es) - Leaves(es[p].next) + Leaves(e.next)
  {
    EdgeLeavesAt(es, p);
    EdgeLeavesAt(es[p := e], p);
    assert es[p := e][..p] == es[..p] && es[p := e][p + 1..] == es[p + 1..];
  }

  lemma SplitLeaves<V>(child: Node<V>, m: Bytes, search: Bytes, key: Bytes, val: V)
    requires |m| < |child.prefix| && |m| <= |search|
    ensures Leaves(Split(child, m, search, key, val)) == Leaves(child) + 1
  {
    var n, s := Split(child, m, search, key, val), search[|m|..];
    var lower := child.(prefix := child.prefix[|m|..]);
    assert Leaves(lower) == Leaves(child) && Leaves(LeafNode(s, key, val)) == 1;
    TwoEdges(n.edges);
  }

  lemma TwoEdges<V>(es: seq<Edge<V>>)
    ensures |es| == 1 ==> EdgeLeaves(es) == Leaves(es[0].next)
    ensures |es| == 2 ==> EdgeLeaves(es) == Leaves(es[0].next) + Leaves(es[1].next)
  {
    if |es| == 1 {
      assert es[1..] == [];
    } else if |es| == 2 {
      assert es[1..][0] == es[1] && es[1..][1..] == [];
    }
  }

  /** One turn of Insert's loop changes the tree by Place on what is left of the key. */
  lemma Placed<V>(root: Node<V>, search: Bytes, key: Bytes, val: V)
    requires Canonical(root) && Strip(root.edges, search) == search
    ensures Canonical(Place(root, search, key, val))
    ensures Leaves(Place(root, search, key, val)) == Leaves(root) + if Get(root, search) == None then 1 else 0
    ensures search != [] ==> Get(root, search) == None
  {
    PlaceCanonical(root, search, key, val);
    PlaceLeaves(root, search, key, val);
    if search != [] {
      if Matches(root.edges, search[0]) {
        GetVia(root, search, Pos(root.edges, search[0]));
      } else {
        NoMatch(root.edges, search[0]);
        GetNone(root, search);
      }
    }
  }

  /** Insert's split: the old node's rest first, then the rest of the search beside it. */
  method SplitNode<V>(child: Node<V>, common: Bytes, search: Bytes, key: Bytes, val: V) returns (splitNode: Node<V>)
    requires |common| < |child.prefix| && |common| <= |search|
    ensures splitNode == Split(child, common, search, key, val)
  {
    var rest, s := child.prefix[|common|..], search[|common|..];
    splitNode := Node(common, [Edge(rest, child.(prefix := rest))], None);
    if s == [] {
      return splitNode.(leaf := Some(Leaf(key, val)));
    }
    var i := FindClosestPrefixIndex(splitNode.edges, s);
    splitNode := splitNode.(edges := Attach(splitNode.edges, i, Edge(s, LeafNode(s, key, val))));
  }
}
