/** Find and Delete of db/rax.go. Both follow an edge as soon as it shares a first byte with the search,
    and both drop only the shared bytes, so a label matched in part counts as matched. */
module RaxDelete {
  import opened Util
  import opened Rax
  import opened RaxInsert

  // ---------------------------------------------------------------- Find

  function Found<V>(n: Node<V>, key: Bytes): Option<V>
    decreases n
  {
    if key == [] then (if n.leaf.Some? then Some(n.leaf.value.val) else None)
    else if !Matches(n.edges, key[0]) then None
    else
      var e := n.edges[Pos(n.edges, key[0])];
      Found(e.next, key[|Lcp(e.text, key)|..])
  }

  /** Somewhere on the walk for the key a label is matched only in part. */
  predicate Slips<V>(n: Node<V>, key: Bytes)
    decreases n
  {
    key != [] && Matches(n.edges, key[0]) &&
    var e := n.edges[Pos(n.edges, key[0])];
    !(e.text <= key) || Slips(e.next, key[|e.text|..])
  }

  lemma LcpOfPrefix(text: Bytes, key: Bytes)
    ensures text <= key <==> Lcp(text, key) == text
  {
    if text <= key {
      LcpIs(text, key, |text|);
    }
  }

  /** Where the walk ends: the parent, and the index of the edge to the node. */
  function Target<V>(n: Node<V>, search: Bytes): (r: Option<(Node<V>, nat)>)
    ensures r.Some? ==> r.value.1 < |r.value.0.edges|
    decreases n
  {
    if search == [] || !Matches(n.edges, search[0]) then None
    else
      var p := Pos(n.edges, search[0]);
      var rest := search[|Lcp(n.edges[p].text, search)|..];
      if rest == [] then Some((n, p)) else Target(n.edges[p].next, rest)
  }

  /** The walk for the search ends below the root, at a leaf: the one case in which Delete changes the tree. */
  predicate EndsAtLeaf<V>(n: Node<V>, search: Bytes) {
    match Target(n, search)
    case None => false
    case Some((parent, p)) => parent.edges[p].next.leaf.Some?
  }

  lemma {:induction false} FoundIsEnd<V>(n: Node<V>, key: Bytes)
    requires key != []
    ensures Found(n, key).Some? <==> EndsAtLeaf(n, key)
    decreases n
  {
    if Matches(n.edges, key[0]) {
      var e := n.edges[Pos(n.edges, key[0])];
      var rest := key[|Lcp(e.text, key)|..];
      if rest != [] {
        FoundIsEnd(e.next, rest);
      }
    }
  }

  lemma {:induction false} FindUnlessSlips<V>(n: Node<V>, key: Bytes)
    requires Canonical(n)
    ensures Get(n, key) == if Slips(n, key) then None else Found(n, key)
    decreases n
  {
    if key != [] {
      if Matches(n.edges, key[0]) {
        var p := Pos(n.edges, key[0]);
        GetVia(n, key, p);
        LcpOfPrefix(n.edges[p].text, key);
        if n.edges[p].text <= key {
          FindUnlessSlips(n.edges[p].next, key[|n.edges[p].text|..]);
        }
      } else {
        NoMatch(n.edges, key[0]);
        GetNone(n, key);
      }
    }
  }

  /** Find never misses a stored key; it is wrong exactly when its walk slips and still ends at a leaf. */
  lemma FindExact<V>(n: Node<V>, key: Bytes)
    requires Canonical(n)
    ensures Get(n, key).Some? ==> Found(n, key) == Get(n, key)
    ensures Found(n, key) == Get(n, key) <==> key == [] || !EndsAtLeaf(n, key) || !Slips(n, key)
  {
    FindUnlessSlips(n, key);
    if key != [] {
      FoundIsEnd(n, key);
    }
  }

  /** The label on which the path for a stored key ends. */
  function LastLabel<V>(n: Node<V>, q: Bytes): Bytes
    requires Get(n, q).Some? && q != []
    decreases n
  {
    var e := n.edges[Pos(n.edges, q[0])];
    if |q| == |e.text| then e.text else LastLabel(e.next, q[|e.text|..])
  }

  /** Any stored key whose last label has two bytes or more is found under a bare prefix of itself. */
  lemma {:induction false} BarePrefixIsFound<V>(n: Node<V>, q: Bytes)
    requires Canonical(n) && Get(n, q).Some? && q != [] && |LastLabel(n, q)| >= 2
    ensures Slips(n, q[..|q| - 1]) && Found(n, q[..|q| - 1]) == Get(n, q)
    decreases n
  {
    var e, k := n.edges[Pos(n.edges, q[0])], q[..|q| - 1];
    if |q| == |e.text| {
      LcpIs(e.text, k, |k|);
      assert k[|k|..] == [];
    } else {
      LastLabelFits(e.next, q[|e.text|..]);
      assert e.text <= k && k[|e.text|..] == q[|e.text|..][..|q| - |e.text| - 1];
      LcpOfPrefix(e.text, k);
      BarePrefixIsFound(e.next, q[|e.text|..]);
    }
  }

  lemma {:induction false} LastLabelFits<V>(n: Node<V>, q: Bytes)
    requires Get(n, q).Some? && q != []
    ensures |LastLabel(n, q)| <= |q|
    decreases n
  {
    var e := n.edges[Pos(n.edges, q[0])];
    if |q| != |e.text| {
      LastLabelFits(e.next, q[|e.text|..]);
    }
  }

  // ---------------------------------------------------------------- Delete

  function Nodes<V>(n: Node<V>): nat
    decreases n
  {
    1 + EdgeNodes(n.edges)
  }

  function EdgeNodes<V>(es: seq<Edge<V>>): nat
    decreases es
  {
    if es == [] then 0 else Nodes(es[0].next) + EdgeNodes(es[1..])
  }

  /** The merge loop at the end of Delete: an only child is taken up into a node without a leaf. */
  function Merge<V>(n: Node<V>): Node<V>
    decreases Nodes(n)
  {
    if |n.edges| == 1 && n.leaf == None then
      var child := n.edges[0].next;
      OnlyChild(n);
      Merge(Node(n.prefix + child.prefix, child.edges, child.leaf))
    else n
  }

  lemma OnlyChild<V>(n: Node<V>)
    requires |n.edges| == 1
    ensures Nodes(n) == 1 + 1 + EdgeNodes(n.edges[0].next.edges)
  {
    var child := n.edges[0].next;
    assert n.edges[1..] == [];
    assert EdgeNodes(n.edges) == Nodes(child) + EdgeNodes(n.edges[1..]);
    assert Nodes(child) == 1 + EdgeNodes(child.edges);
  }

  function Without<V>(es: seq<Edge<V>>, p: nat): seq<Edge<V>>
    requires p < |es|
  {
    es[..p] + es[p + 1..]
  }

  /** Delete below n: the edge to the node where the walk ends goes, with everything under that node. */
  function Removed<V>(n: Node<V>, search: Bytes): (Node<V>, bool)
    decreases n
  {
    if search == [] || !Matches(n.edges, search[0]) then (n, false)
    else
      var p := Pos(n.edges, search[0]);
      var e := n.edges[p];
      var rest := search[|Lcp(e.text, search)|..];
      if e.next.prefix == search || rest == [] then
        if e.next.leaf == None then (n, false) else (Merge(n.(edges := Without(n.edges, p))), true)
      else
        var r := Removed(e.next, rest);
        (n.(edges := n.edges[p := Edge(e.text, r.0)]), r.1)
  }

  /** The deletions that do only what they should: the walk ends at no leaf, or it ends without a slip
      at a leaf that has no children and whose parent need not merge afterwards. */
  predicate Clean<V>(n: Node<V>, search: Bytes) {
    match Target(n, search)
    case None => true
    case Some((parent, p)) =>
      var node := parent.edges[p].next;
      node.leaf == None || (!Slips(n, search) && node.edges == [] && (parent.leaf.Some? || |parent.edges| != 2))
  }

  // ---------------------------------------------------------------- long keys

  function Max(a: nat, b: nat): nat { if a < b then b else a }

  /** The length of the longest stored key. */
  function Longest<V>(n: Node<V>): nat
    decreases n
  {
    LongestEdge(n.edges)
  }

  function LongestEdge<V>(es: seq<Edge<V>>): nat
    decreases es
  {
    if es == [] then 0 else Max(|es[0].text| + Longest(es[0].next), LongestEdge(es[1..]))
  }

  lemma {:induction false} LongestEdgeIs<V>(es: seq<Edge<V>>, p: nat)
    requires p < |es|
    ensures |es[p].text| + Longest(es[p].next) <= LongestEdge(es)
  {
    if p > 0 {
      LongestEdgeIs(es[1..], p - 1);
    }
  }

  lemma {:induction false} LongestEdgeReached<V>(es: seq<Edge<V>>) returns (p: nat)
    requires es != []
    ensures p < |es| && |es[p].text| + Longest(es[p].next) == LongestEdge(es)
  {
    p := 0;
    if es[1..] != [] && |es[0].text| + Longest(es[0].next) < LongestEdge(es) {
      p := LongestEdgeReached(es[1..]);
      p := p + 1;
    }
  }

  lemma {:induction false} LongestBounds<V>(n: Node<V>, q: Bytes)
    requires Get(n, q).Some?
    ensures |q| <= Longest(n)
    decreases n
  {
    if q != [] {
      var p := Pos(n.edges, q[0]);
      LongestBounds(n.edges[p].next, q[|n.edges[p].text|..]);
      LongestEdgeIs(n.edges, p);
    }
  }

  lemma {:induction false} LongestIsStored<V>(n: Node<V>) returns (q: Bytes)
    requires Canonical(n) && (n.leaf.Some? || n.edges != [])
    ensures Get(n, q).Some? && |q| == Longest(n)
    decreases n
  {
    q := [];
    if n.edges != [] {
      var p := LongestEdgeReached(n.edges);
      var u := LongestIsStored(n.edges[p].next);
      q := n.edges[p].text + u;
      GetVia(n, q, p);
      assert q[|n.edges[p].text|..] == u;
    }
  }

  // ---------------------------------------------------------------- when Delete is right

  /** Delete is right on n: it reports whether the key was there and takes away that key only. */
  ghost predicate DeletesOnly<V(!new)>(n: Node<V>, key: Bytes) {
    && Removed(n, key).1 == Get(n, key).Some?
    && forall q :: Get(Removed(n, key).0, q) == if q == key then None else Get(n, q)
  }

  lemma {:induction false} RemovedOtherwise<V>(n: Node<V>, search: Bytes)
    requires Canonical(n) && !EndsAtLeaf(n, search)
    ensures Removed(n, search) == (n, false)
    ensures search != [] ==> Get(n, search) == None
    decreases n
  {
    if search != [] && Matches(n.edges, search[0]) {
      var p := Pos(n.edges, search[0]);
      var e := n.edges[p];
      LcpOfPrefix(e.text, search);
      GetVia(n, search, p);
      var rest := search[|Lcp(e.text, search)|..];
      if rest != [] {
        RemovedOtherwise(e.next, rest);
        assert n.edges[p := Edge(e.text, e.next)] == n.edges;
      } else {
        assert e.text <= search ==> e.text == search;
      }
    } else if search != [] {
      NoMatch(n.edges, search[0]);
      GetNone(n, search);
    }
  }

  lemma WithoutSorted<V>(es: seq<Edge<V>>, p: nat)
    requires Sorted(es) && p < |es|
    ensures Sorted(Without(es, p))
    ensures forall i :: 0 <= i < |es| - 1 ==> Without(es, p)[i] == es[if i < p then i else i + 1]
  {
  }

  lemma GetWithout<V>(n: Node<V>, p: nat, q: Bytes)
    requires Sorted(n.edges) && p < |n.edges| && q != []
    ensures Get(n.(edges := Without(n.edges, p)), q) == if First(n.edges[p]) == q[0] as int then None else Get(n, q)
  {
    var m := n.(edges := Without(n.edges, p));
    if Matches(n.edges, q[0]) && Pos(n.edges, q[0]) != p {
      SameVia(n, m, p, Pos(n.edges, q[0]), q);
    } else {
      NotLeft(n, p, q[0]);
      GetNone(m, q);
      if !Matches(n.edges, q[0]) {
        NoMatch(n.edges, q[0]);
        GetNone(n, q);
      }
    }
  }

  lemma SameVia<V>(n: Node<V>, m: Node<V>, p: nat, o: nat, q: Bytes)
    requires Sorted(n.edges) && p < |n.edges| && o < |n.edges| && o != p && m.edges == Without(n.edges, p)
    requires q != [] && First(n.edges[o]) == q[0] as int
    ensures First(n.edges[p]) != q[0] as int && Get(m, q) == Get(n, q)
  {
    WithoutSorted(n.edges, p);
    GetVia(n, q, o);
    GetVia(m, q, if o < p then o else o - 1);
  }

  lemma NotLeft<V>(n: Node<V>, p: nat, b: byte)
    requires Sorted(n.edges) && p < |n.edges| && (Matches(n.edges, b) ==> Pos(n.edges, b) == p)
    ensures forall i :: 0 <= i < |Without(n.edges, p)| ==> First(Without(n.edges, p)[i]) != b as int
  {
    WithoutSorted(n.edges, p);
    forall i | 0 <= i < |Without(n.edges, p)|
      ensures First(Without(n.edges, p)[i]) != b as int
    {
      if First(Without(n.edges, p)[i]) == b as int {
        PosIs(n.edges, b, if i < p then i else i + 1);
      }
    }
  }

  lemma GetReplaced<V>(n: Node<V>, p: nat, child: Node<V>, q: Bytes)
    requires Sorted(n.edges) && p < |n.edges| && q != []
    ensures Get(n.(edges := n.edges[p := Edge(n.edges[p].text, child)]), q) ==
            if First(n.edges[p]) != q[0] as int then Get(n, q)
            else if n.edges[p].text <= q then Get(child, q[|n.edges[p].text|..]) else None
  {
    var m := n.(edges := n.edges[p := Edge(n.edges[p].text, child)]);
    assert Sorted(m.edges);
    if First(n.edges[p]) == q[0] as int {
      GetVia(m, q, p);
    } else if Matches(n.edges, q[0]) {
      GetVia(n, q, Pos(n.edges, q[0]));
      GetVia(m, q, Pos(n.edges, q[0]));
    } else {
      NoMatch(n.edges, q[0]);
      GetNone(n, q);
      GetNone(m, q);
    }
  }

  /** A clean deletion takes away its key and keeps the tree canonical. */
  lemma {:induction false} CleanDeletes<V>(n: Node<V>, search: Bytes, q: Bytes)
    requires Canonical(n) && EndsAtLeaf(n, search) && Clean(n, search)
    ensures Get(n, search).Some? && Removed(n, search).1
    ensures Get(Removed(n, search).0, q) == if q == search then None else Get(n, q)
    decreases n
  {
    var e := n.edges[Pos(n.edges, search[0])];
    LcpOfPrefix(e.text, search);
    if search == e.text {
      CleanHere(n, search, q);
    } else {
      var rest := search[|e.text|..];
      CleanDeletes(e.next, rest, if e.text <= q then q[|e.text|..] else q);
      CleanBelow(n, search, q);
    }
  }

  lemma CleanHere<V>(n: Node<V>, search: Bytes, q: Bytes)
    requires Canonical(n) && EndsAtLeaf(n, search) && Clean(n, search)
    requires search == n.edges[Pos(n.edges, search[0])].text
    ensures Get(n, search).Some? && Removed(n, search) == (n.(edges := Without(n.edges, Pos(n.edges, search[0]))), true)
    ensures Get(Removed(n, search).0, q) == if q == search then None else Get(n, q)
  {
    var p := Pos(n.edges, search[0]);
    LcpOfPrefix(search, search);
    GetVia(n, search, p);
    if q != [] {
      GetWithout(n, p, q);
      if q[0] == search[0] {
        GetVia(n, q, p);
        if search <= q && q != search {
          GetNone(n.edges[p].next, q[|search|..]);
        }
      }
    }
  }

  lemma CleanBelow<V>(n: Node<V>, search: Bytes, q: Bytes)
    requires Canonical(n) && search != [] && Matches(n.edges, search[0])
    requires var text := n.edges[Pos(n.edges, search[0])].text; text <= search && text != search
    requires var e := n.edges[Pos(n.edges, search[0])]; var rest := search[|e.text|..];
      && Get(e.next, rest).Some? && Removed(e.next, rest).1
      && (e.text <= q ==> Get(Removed(e.next, rest).0, q[|e.text|..]) ==
                          if q[|e.text|..] == rest then None else Get(e.next, q[|e.text|..]))
    ensures Get(n, search).Some? && Removed(n, search).1
    ensures Get(Removed(n, search).0, q) == if q == search then None else Get(n, q)
  {
    var p := Pos(n.edges, search[0]);
    var e, rest := n.edges[p], search[|n.edges[p].text|..];
    LcpOfPrefix(e.text, search);
    GetVia(n, search, p);
    if q != [] {
      GetReplaced(n, p, Removed(e.next, rest).0, q);
      if q[0] == search[0] {
        GetVia(n, q, p);
        SameTail(e.text, q, search);
      }
    }
  }

  lemma SameTail(text: Bytes, q: Bytes, search: Bytes)
    requires text <= search
    ensures text <= q ==> (q[|text|..] == search[|text|..] <==> q == search)
  {
    if text <= q {
      assert q == text + q[|text|..] && search == text + search[|text|..];
    }
  }

  lemma {:induction false} RemovedReports<V>(n: Node<V>, search: Bytes)
    requires Canonical(n) && EndsAtLeaf(n, search)
    ensures Removed(n, search).1
    decreases n
  {
    var e := n.edges[Pos(n.edges, search[0])];
    var rest := search[|Lcp(e.text, search)|..];
    LcpOfPrefix(e.text, search);
    if rest != [] && e.text != search {
      RemovedReports(e.next, rest);
    }
  }

  lemma MergeOnce<V>(n: Node<V>)
    requires |n.edges| == 1 && n.leaf == None && Pays(n.edges[0].next)
    ensures Merge(n) == Node(n.prefix + n.edges[0].next.prefix, n.edges[0].next.edges, n.edges[0].next.leaf)
  {
  }

  /** A merge moves the keys of the other child up by its prefix: its longest key is lost. */
  lemma LostByMerge<V>(n: Node<V>, search: Bytes) returns (q: Bytes)
    requires Canonical(n) && search != [] && Matches(n.edges, search[0])
    requires n.leaf == None && |n.edges| == 2 && Removed(n, search).1
    requires search == n.edges[Pos(n.edges, search[0])].text
    ensures q != search && Get(n, q).Some? && Get(Removed(n, search).0, q) == None
  {
    var p := Pos(n.edges, search[0]);
    var o := 1 - p;
    var c := n.edges[o].next;
    var u := LongestIsStored(c);
    q := n.edges[o].text + u;
    LcpOfPrefix(search, search);
    assert Without(n.edges, p) == [n.edges[o]];
    var m := n.(edges := Without(n.edges, p));
    MergeOnce(m);
    assert Removed(n, search).0 == Merge(m);
    GetVia(n, q, o);
    assert q[|n.edges[o].text|..] == u;
    var merged := Node(m.prefix + c.prefix, c.edges, c.leaf);
    GetIgnoresPrefix(c, m.prefix + c.prefix, q);
    assert merged == c.(prefix := m.prefix + c.prefix);
    if Get(c, q).Some? {
      LongestBounds(c, q);
    }
  }

  /** Deleting a node with children takes their keys along. */
  lemma LostBelow<V>(n: Node<V>, search: Bytes) returns (q: Bytes)
    requires Canonical(n) && search != [] && Matches(n.edges, search[0])
    requires n.leaf.Some? || |n.edges| != 2
    requires search == n.edges[Pos(n.edges, search[0])].text && n.edges[Pos(n.edges, search[0])].next.edges != []
    requires Removed(n, search).1
    ensures q != search && Get(n, q).Some? && Get(Removed(n, search).0, q) == None
  {
    var p := Pos(n.edges, search[0]);
    var node := n.edges[p].next;
    var u := LongestIsStored(node);
    LongestEdgeIs(node.edges, 0);
    q := search + u;
    LcpOfPrefix(search, search);
    GetVia(n, q, p);
    assert q[|search|..] == u;
    GetWithout(n, p, q);
    assert Removed(n, search).0 == n.(edges := Without(n.edges, p));
  }

  lemma {:induction false} UncleanLoses<V>(n: Node<V>, search: Bytes) returns (q: Bytes)
    requires Canonical(n) && EndsAtLeaf(n, search) && !Clean(n, search) && !Slips(n, search)
    ensures q != search && Get(n, q).Some? && Get(Removed(n, search).0, q) == None
    decreases n
  {
    RemovedReports(n, search);
    var p := Pos(n.edges, search[0]);
    var e := n.edges[p];
    LcpOfPrefix(e.text, search);
    if search == e.text {
      if n.leaf == None && |n.edges| == 2 {
        q := LostByMerge(n, search);
      } else {
        q := LostBelow(n, search);
      }
    } else {
      var rest := search[|e.text|..];
      var u := UncleanLoses(e.next, rest);
      q := e.text + u;
      assert q[|e.text|..] == u && q[0] == e.text[0];
      SameTail(e.text, q, search);
      GetVia(n, q, p);
      GetReplaced(n, p, Removed(e.next, rest).0, q);
    }
  }

  /** Delete is right exactly on the clean deletions. */
  lemma DeleteExact<V(!new)>(n: Node<V>, key: Bytes)
    requires Canonical(n) && key != []
    ensures DeletesOnly(n, key) <==> Clean(n, key)
  {
    if !EndsAtLeaf(n, key) {
      RemovedOtherwise(n, key);
    } else if Clean(n, key) {
      forall q
        ensures Get(Removed(n, key).0, q) == if q == key then None else Get(n, q)
        ensures Removed(n, key).1 && Get(n, key).Some?
      {
        CleanDeletes(n, key, q);
      }
      CleanDeletes(n, key, key);
    } else {
      RemovedReports(n, key);
      if Slips(n, key) {
        FindUnlessSlips(n, key);
      } else {
        var q := UncleanLoses(n, key);
      }
    }
  }

  lemma {:induction false} CleanKeepsCanonical<V>(n: Node<V>, search: Bytes)
    requires Canonical(n) && Clean(n, search)
    ensures Canonical(Removed(n, search).0) && Removed(n, search).0.prefix == n.prefix
    ensures Pays(n) ==> Pays(Removed(n, search).0)
    decreases n
  {
    if !EndsAtLeaf(n, search) {
      RemovedOtherwise(n, search);
    } else {
      var p := Pos(n.edges, search[0]);
      LcpOfPrefix(n.edges[p].text, search);
      if search == n.edges[p].text {
        CleanHere(n, search, []);
        WithoutCanonical(n, p);
      } else {
        CleanKeepsCanonical(n.edges[p].next, search[|n.edges[p].text|..]);
        ReplacedCanonical(n, p, Removed(n.edges[p].next, search[|n.edges[p].text|..]).0);
      }
    }
  }

  lemma WithoutCanonical<V>(n: Node<V>, p: nat)
    requires Canonical(n) && p < |n.edges|
    ensures Canonical(n.(edges := Without(n.edges, p)))
  {
    WithoutSorted(n.edges, p);
  }

  lemma ReplacedCanonical<V>(n: Node<V>, p: nat, child: Node<V>)
    requires Canonical(n) && p < |n.edges| && Canonical(child) && Pays(child) && child.prefix == n.edges[p].text
    ensures Canonical(n.(edges := n.edges[p := Edge(n.edges[p].text, child)]))
  {
    assert Sorted(n.edges[p := Edge(n.edges[p].text, child)]);
  }

  lemma {:induction false} CleanLeaves<V>(n: Node<V>, search: Bytes)
    requires Canonical(n) && Clean(n, search)
    ensures Leaves(Removed(n, search).0) == Leaves(n) - if Removed(n, search).1 then 1 else 0
    decreases n
  {
    if !EndsAtLeaf(n, search) {
      RemovedOtherwise(n, search);
    } else {
      var p := Pos(n.edges, search[0]);
      LcpOfPrefix(n.edges[p].text, search);
      RemovedReports(n, search);
      if search == n.edges[p].text {
        CleanHere(n, search, []);
        LeavesWithout(n, p);
      } else {
        var rest := search[|n.edges[p].text|..];
        CleanLeaves(n.edges[p].next, rest);
        RemovedReports(n.edges[p].next, rest);
        ReplacedLeaves(n.edges, p, Edge(n.edges[p].text, Removed(n.edges[p].next, rest).0));
      }
    }
  }

  lemma LeavesWithout<V>(n: Node<V>, p: nat)
    requires p < |n.edges|
    ensures Leaves(n.(edges := Without(n.edges, p))) == Leaves(n) - Leaves(n.edges[p].next)
  {
    EdgeLeavesAt(n.edges, p);
    EdgeLeavesConcat(n.edges[..p], n.edges[p + 1..]);
  }
}
