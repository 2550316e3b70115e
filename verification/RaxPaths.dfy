/** Where the walk of Find and Delete really ends, and so what every one of their calls does, right or wrong. */
module RaxPaths {
  import opened Util
  import opened Rax
  import opened RaxInsert
  import opened RaxDelete

  // ---------------------------------------------------------------- Find

  /** The labels of Find's walk, in full: the key under which the node at its end is stored. */
  function Labels<V>(n: Node<V>, key: Bytes): Bytes
    decreases n
  {
    if key == [] || !Matches(n.edges, key[0]) then []
    else
      var e := n.edges[Pos(n.edges, key[0])];
      var rest := key[|Lcp(e.text, key)|..];
      e.text + if rest == [] then [] else Labels(e.next, rest)
  }

  /** Find returns what is stored under the labels of its walk: the key's own value, or another key's. */
  lemma {:induction false} FindReadsPath<V>(n: Node<V>, key: Bytes)
    requires Ordered(n) && key != []
    ensures Found(n, key) == if EndsAtLeaf(n, key) then Get(n, Labels(n, key)) else None
    decreases n
  {
    FoundIsEnd(n, key);
    if EndsAtLeaf(n, key) {
      var p := Pos(n.edges, key[0]);
      var e := n.edges[p];
      var rest, path := key[|Lcp(e.text, key)|..], Labels(n, key);
      GetVia(n, path, p);
      if rest == [] {
        assert path[|e.text|..] == [];
      } else {
        assert path[|e.text|..] == Labels(e.next, rest);
        FindReadsPath(e.next, rest);
      }
    }
  }

  // ---------------------------------------------------------------- Delete's walk

  /** It stops behind the edge when the key is used up, or is the prefix there, which may be longer than the label. */
  predicate Stops<V>(e: Edge<V>, key: Bytes) {
    key[|Lcp(e.text, key)|..] == [] || e.next.prefix == key
  }

  /** Where it ends: the parent, and the index of the edge to the node. */
  function End<V>(n: Node<V>, key: Bytes): (r: Option<(Node<V>, nat)>)
    ensures r.Some? ==> r.value.1 < |r.value.0.edges|
    decreases n
  {
    if key == [] || !Matches(n.edges, key[0]) then None
    else
      var p := Pos(n.edges, key[0]);
      var e := n.edges[p];
      if Stops(e, key) then Some((n, p)) else End(e.next, key[|Lcp(e.text, key)|..])
  }

  predicate AtLeaf<V>(end: Option<(Node<V>, nat)>) {
    end.Some? && end.value.1 < |end.value.0.edges| && end.value.0.edges[end.value.1].next.leaf.Some?
  }

  /** It ends below the root, at a leaf. */
  predicate Deletes<V>(n: Node<V>, key: Bytes) { AtLeaf(End(n, key)) }

  /** Its labels, in full. */
  function Path<V>(n: Node<V>, key: Bytes): Bytes
    decreases n
  {
    if key == [] || !Matches(n.edges, key[0]) then []
    else
      var e := n.edges[Pos(n.edges, key[0])];
      e.text + if Stops(e, key) then [] else Path(e.next, key[|Lcp(e.text, key)|..])
  }

  /** The same less the last label. */
  function ParentPath<V>(n: Node<V>, key: Bytes): Bytes
    decreases n
  {
    if key == [] || !Matches(n.edges, key[0]) then []
    else
      var e := n.edges[Pos(n.edges, key[0])];
      if Stops(e, key) then [] else e.text + ParentPath(e.next, key[|Lcp(e.text, key)|..])
  }

  lemma StopsIff<V>(e: Edge<V>, key: Bytes)
    requires e.text == e.next.prefix
    ensures Stops(e, key) <==> key[|Lcp(e.text, key)|..] == []
  {
    if e.next.prefix == key {
      LcpOfPrefix(key, key);
    }
  }

  /** On a canonical tree it is Find's walk. */
  lemma {:induction false} SameWalk<V>(n: Node<V>, key: Bytes)
    requires Canonical(n)
    ensures End(n, key) == Target(n, key)
    decreases n
  {
    if key != [] && Matches(n.edges, key[0]) {
      var e := n.edges[Pos(n.edges, key[0])];
      StopsIff(e, key);
      if !Stops(e, key) {
        SameWalk(e.next, key[|Lcp(e.text, key)|..]);
      }
    }
  }

  /** There, without a slip, it spells its key. */
  lemma {:induction false} PathIsKey<V>(n: Node<V>, key: Bytes)
    requires Canonical(n) && Deletes(n, key) && !Slips(n, key)
    ensures Path(n, key) == key && ParentPath(n, key) < key
    decreases n
  {
    var e := n.edges[Pos(n.edges, key[0])];
    LcpOfPrefix(e.text, key);
    StopsIff(e, key);
    var rest := key[|e.text|..];
    assert key == e.text + rest;
    if rest != [] {
      PathIsKey(e.next, rest);
    }
  }

  // ---------------------------------------------------------------- every deletion

  predicate Merges<V>(end: Option<(Node<V>, nat)>) {
    AtLeaf(end) && end.value.0.leaf == None && |end.value.0.edges| == 2
  }

  /** The parent of the deleted node has one more child and no leaf, and takes that child up. */
  predicate ParentMerges<V>(n: Node<V>, key: Bytes) { Merges(End(n, key)) }

  function OtherLabel<V>(end: Option<(Node<V>, nat)>): Bytes
    requires Merges(end)
  {
    end.value.0.edges[1 - end.value.1].text
  }

  /** The label of that other child. */
  function Sibling<V>(n: Node<V>, key: Bytes): Bytes
    requires ParentMerges(n, key)
  {
    OtherLabel(End(n, key))
  }

  /** What the tree stores after Delete ended its walk at a leaf: nothing any more under that leaf's key and all
      that begin with it; and if the parent merged, what was stored behind the sibling's label is stored
      without that label. */
  function After<V>(n: Node<V>, key: Bytes, q: Bytes): Option<V>
    requires Deletes(n, key)
  {
    if ParentMerges(n, key) && ParentPath(n, key) <= q then Unlabelled(n, ParentPath(n, key), Sibling(n, key), q)
    else if Path(n, key) <= q then None
    else Get(n, q)
  }

  /** What n stores for q with the label put in behind up. */
  function Unlabelled<V>(n: Node<V>, up: Bytes, text: Bytes, q: Bytes): Option<V>
    requires up <= q
  {
    Get(n, up + text + q[|up|..])
  }

  /** Every deletion, on every tree that Ordered describes, exactly. */
  lemma {:induction false} EveryDelete<V>(n: Node<V>, key: Bytes, q: Bytes)
    requires Ordered(n)
    ensures Removed(n, key).1 <==> Deletes(n, key)
    ensures Get(Removed(n, key).0, q) == if Deletes(n, key) then After(n, key, q) else Get(n, q)
    decreases n
  {
    if key != [] && Matches(n.edges, key[0]) {
      var p := Pos(n.edges, key[0]);
      var e := n.edges[p];
      if Stops(e, key) {
        DeleteAtEnd(n, key, q);
      } else {
        var rest := key[|Lcp(e.text, key)|..];
        EveryDelete(e.next, rest, if e.text <= q then q[|e.text|..] else q);
        if Deletes(n, key) {
          DeleteBelow(n, key, q);
        } else if q != [] {
          GetReplaced(n, p, Removed(e.next, rest).0, q);
          if q[0] == key[0] {
            GetVia(n, q, p);
          }
        }
      }
    }
  }

  lemma DeleteAtEnd<V>(n: Node<V>, key: Bytes, q: Bytes)
    requires Ordered(n) && key != [] && Matches(n.edges, key[0]) && Stops(n.edges[Pos(n.edges, key[0])], key)
    ensures Removed(n, key).1 <==> Deletes(n, key)
    ensures Get(Removed(n, key).0, q) == if Deletes(n, key) then After(n, key, q) else Get(n, q)
  {
    if Deletes(n, key) {
      if ParentMerges(n, key) {
        DeleteAndMerge(n, key, q);
      } else {
        DeleteHere(n, key, q);
      }
    }
  }

  lemma DeleteHere<V>(n: Node<V>, key: Bytes, q: Bytes)
    requires Ordered(n) && Deletes(n, key) && !ParentMerges(n, key) && Stops(n.edges[Pos(n.edges, key[0])], key)
    ensures Get(Removed(n, key).0, q) == After(n, key, q)
  {
    var p := Pos(n.edges, key[0]);
    assert End(n, key) == Some((n, p));
    assert Removed(n, key).0 == n.(edges := Without(n.edges, p));
    if q != [] {
      GetWithout(n, p, q);
      if q[0] == key[0] {
        GetVia(n, q, p);
      }
    }
  }

  lemma DeleteAndMerge<V>(n: Node<V>, key: Bytes, q: Bytes)
    requires Ordered(n) && ParentMerges(n, key) && Stops(n.edges[Pos(n.edges, key[0])], key)
    ensures Get(Removed(n, key).0, q) == After(n, key, q)
  {
    var p := Pos(n.edges, key[0]);
    assert End(n, key) == Some((n, p));
    assert Removed(n, key).0 == Merge(n.(edges := Without(n.edges, p)));
    MergedReads(n, p, 1 - p, q);
    AfterMerge(n, key, q, [], n.edges[1 - p].text);
  }

  lemma MergedReads<V>(n: Node<V>, p: nat, o: nat, q: Bytes)
    requires Ordered(n) && n.leaf == None && |n.edges| == 2 && p < 2 && o == 1 - p
    ensures Get(Merge(n.(edges := Without(n.edges, p))), q) == Unlabelled(n, [], n.edges[o].text, q)
  {
    var c, s := n.edges[o].next, n.edges[o].text;
    MergedIs(n, p, o);
    GetIgnoresPrefix(c, n.prefix + c.prefix, q);
    Through(n, o, q);
    assert [] + s + q[0..] == s + q;
  }

  lemma MergedIs<V>(n: Node<V>, p: nat, o: nat)
    requires Ordered(n) && n.leaf == None && |n.edges| == 2 && p < 2 && o == 1 - p
    ensures Merge(n.(edges := Without(n.edges, p))) == n.edges[o].next.(prefix := n.prefix + n.edges[o].next.prefix)
  {
    var m := n.(edges := Without(n.edges, p));
    assert m.edges == [n.edges[o]];
    MergeOnce(m);
  }

  lemma DeleteBelow<V>(n: Node<V>, key: Bytes, q: Bytes)
    requires Ordered(n) && Deletes(n, key) && !Stops(n.edges[Pos(n.edges, key[0])], key)
    requires var e := n.edges[Pos(n.edges, key[0])]; var rest := key[|Lcp(e.text, key)|..];
      && Deletes(e.next, rest)
      && (e.text <= q ==> Get(Removed(e.next, rest).0, q[|e.text|..]) == After(e.next, rest, q[|e.text|..]))
    ensures Get(Removed(n, key).0, q) == After(n, key, q)
  {
    var p := Pos(n.edges, key[0]);
    var e := n.edges[p];
    var rest := key[|Lcp(e.text, key)|..];
    assert Removed(n, key).0 == n.(edges := n.edges[p := Edge(e.text, Removed(e.next, rest).0)]);
    PathBelow(n, key, e, rest);
    BehindText(e.text, Path(e.next, rest), q);
    BehindText(e.text, ParentPath(e.next, rest), q);
    if q != [] {
      GetReplaced(n, p, Removed(e.next, rest).0, q);
      if q[0] == key[0] {
        GetVia(n, q, p);
        if e.text <= q {
          AfterBehind(n, key, e, rest, q);
        }
      }
    }
  }

  lemma Through<V>(n: Node<V>, p: nat, u: Bytes)
    requires Ordered(n) && p < |n.edges|
    ensures Get(n, n.edges[p].text + u) == Get(n.edges[p].next, u)
  {
    var q := n.edges[p].text + u;
    GetVia(n, q, p);
    assert q[|n.edges[p].text|..] == u;
  }

  lemma UnlabelledBelow<V>(n: Node<V>, p: nat, up: Bytes, s: Bytes, q: Bytes)
    requires Ordered(n) && p < |n.edges| && n.edges[p].text <= q && up <= q[|n.edges[p].text|..]
    ensures n.edges[p].text + up <= q
    ensures Unlabelled(n, n.edges[p].text + up, s, q) == Unlabelled(n.edges[p].next, up, s, q[|n.edges[p].text|..])
  {
    var text := n.edges[p].text;
    SpelledOut(text, up, s, q);
    Through(n, p, up + s + q[|text|..][|up|..]);
  }

  lemma SameEnd<V>(n: Node<V>, key: Bytes, m: Node<V>, k: Bytes)
    requires End(n, key) == End(m, k)
    ensures (Deletes(n, key) <==> Deletes(m, k)) && (ParentMerges(n, key) <==> ParentMerges(m, k))
    ensures ParentMerges(n, key) ==> Sibling(n, key) == Sibling(m, k)
  {
  }

  /** What happens behind the first label is what happens in the tree behind it. */
  lemma AfterBehind<V>(n: Node<V>, key: Bytes, e: Edge<V>, rest: Bytes, q: Bytes)
    requires Ordered(n) && Deletes(n, key) && e == n.edges[Pos(n.edges, key[0])] && !Stops(e, key)
    requires rest == key[|Lcp(e.text, key)|..] && e.text <= q
    ensures Deletes(e.next, rest) && After(n, key, q) == After(e.next, rest, q[|e.text|..])
  {
    var p, u := Pos(n.edges, key[0]), q[|e.text|..];
    var up, path := ParentPath(e.next, rest), Path(e.next, rest);
    assert q == e.text + u;
    SameEnd(n, key, e.next, rest);
    PathBelow(n, key, e, rest);
    BehindText(e.text, path, q);
    BehindText(e.text, up, q);
    if ParentMerges(n, key) && up <= u {
      UnlabelledBelow(n, p, up, Sibling(n, key), q);
      AfterMerge(n, key, q, e.text + up, Sibling(n, key));
      AfterMerge(e.next, rest, u, up, Sibling(n, key));
    } else {
      Through(n, p, u);
      AfterElse(n, key, q, e.text + up, e.text + path);
      AfterElse(e.next, rest, u, up, path);
    }
  }

  lemma AfterMerge<V>(n: Node<V>, key: Bytes, q: Bytes, up: Bytes, s: Bytes)
    requires Deletes(n, key) && ParentMerges(n, key) && ParentPath(n, key) == up <= q && Sibling(n, key) == s
    ensures After(n, key, q) == Unlabelled(n, up, s, q)
  {
  }

  lemma AfterElse<V>(n: Node<V>, key: Bytes, q: Bytes, up: Bytes, path: Bytes)
    requires Deletes(n, key) && ParentPath(n, key) == up && Path(n, key) == path && !(ParentMerges(n, key) && up <= q)
    ensures After(n, key, q) == if path <= q then None else Get(n, q)
  {
  }

  lemma SpelledOut(text: Bytes, up: Bytes, s: Bytes, q: Bytes)
    requires text <= q && up <= q[|text|..]
    ensures text + up <= q && text + up + s + q[|text + up|..] == text + (up + s + q[|text|..][|up|..])
  {
    BehindText(text, up, q);
    assert q[|text + up|..] == q[|text|..][|up|..];
    var rest := q[|text|..][|up|..];
    assert text + up + s + rest == text + (up + s + rest);
  }

  lemma PathBelow<V>(n: Node<V>, key: Bytes, e: Edge<V>, rest: Bytes)
    requires key != [] && Matches(n.edges, key[0]) && e == n.edges[Pos(n.edges, key[0])] && !Stops(e, key)
    requires rest == key[|Lcp(e.text, key)|..]
    ensures Path(n, key) == e.text + Path(e.next, rest) && ParentPath(n, key) == e.text + ParentPath(e.next, rest)
  {
  }

  lemma BehindText(text: Bytes, u: Bytes, q: Bytes)
    ensures text + u <= q <==> text <= q && u <= q[|text|..]
  {
    if text <= q && u <= q[|text|..] {
      assert q == text + q[|text|..];
    }
    if text + u <= q {
      assert text == (text + u)[..|text|] && u == (text + u)[|text|..];
      assert q[|text|..][..|u|] == (text + u)[|text|..];
    }
  }

  /** Without a slip, in terms of keys alone: all keys that begin with the deleted one are gone and all others
      stay, unless the parent merges; then those that run through the parent are read without the sibling's
      label. */
  lemma DeleteWithoutSlip<V>(n: Node<V>, key: Bytes, q: Bytes)
    requires Canonical(n) && Deletes(n, key) && !Slips(n, key)
    ensures Get(n, key).Some? && Removed(n, key).1
    ensures !ParentMerges(n, key) ==> Get(Removed(n, key).0, q) == if key <= q then None else Get(n, q)
    ensures ParentPath(n, key) < key
    ensures var up := ParentPath(n, key);
      ParentMerges(n, key) ==>
        Get(Removed(n, key).0, q) == if up <= q then Get(n, up + Sibling(n, key) + q[|up|..]) else Get(n, q)
  {
    CanonicalIsOrdered(n);
    SameWalk(n, key);
    PathIsKey(n, key);
    EveryDelete(n, key, q);
    FindUnlessSlips(n, key);
    FoundIsEnd(n, key);
    if key <= q {
      assert ParentPath(n, key) <= q;
    }
  }
}
