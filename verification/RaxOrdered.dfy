/** The trees that deletions of every kind leave behind, on which a label may be shorter than its node's prefix,
    and what the next calls make of them. */
module RaxOrdered {
  import opened Util
  import opened Rax
  import opened RaxInsert
  import opened RaxDelete
  import opened RaxPaths
  import opened RaxRuns

  // ---------------------------------------------------------------- Delete

  lemma WithoutOrdered<V>(n: Node<V>, p: nat)
    requires Ordered(n) && p < |n.edges|
    ensures Ordered(n.(edges := Without(n.edges, p)))
  {
    WithoutSorted(n.edges, p);
  }

  lemma LeavesBut<V>(n: Node<V>, prefix: Bytes)
    ensures Leaves(n.(prefix := prefix)) == Leaves(n)
  {
  }

  /** A merge keeps the order, the leaves, and the beginning of the prefix. */
  lemma MergeOrdered<V>(n: Node<V>)
    requires Ordered(n)
    ensures Ordered(Merge(n)) && n.prefix <= Merge(n).prefix && Leaves(Merge(n)) == Leaves(n)
    ensures n.edges != [] || n.leaf.Some? ==> Pays(Merge(n))
  {
    if |n.edges| == 1 && n.leaf == None {
      MergeOnce(n);
      TwoEdges(n.edges);
      LeavesBut(n.edges[0].next, n.prefix + n.edges[0].next.prefix);
    }
  }

  lemma ReplacedOrdered<V>(n: Node<V>, p: nat, child: Node<V>)
    requires Ordered(n) && p < |n.edges| && Ordered(child) && Pays(child) && n.edges[p].text <= child.prefix
    ensures Ordered(n.(edges := n.edges[p := Edge(n.edges[p].text, child)]))
  {
    assert Sorted(n.edges[p := Edge(n.edges[p].text, child)]);
  }

  /** The leaves that a deletion takes away: those of the node where the walk ends. */
  function Dropped<V>(n: Node<V>, key: Bytes): nat {
    if Deletes(n, key) then Leaves(End(n, key).value.0.edges[End(n, key).value.1].next) else 0
  }

  lemma RemovedBelow<V>(n: Node<V>, key: Bytes, p: nat, rest: Bytes)
    requires Ordered(n) && key != [] && Matches(n.edges, key[0]) && p == Pos(n.edges, key[0]) && !Stops(n.edges[p], key)
    requires rest == key[|Lcp(n.edges[p].text, key)|..]
    requires var c, r := n.edges[p].next, Removed(n.edges[p].next, rest).0;
      Ordered(r) && c.prefix <= r.prefix && Pays(r) && Leaves(r) == Leaves(c) - Dropped(c, rest)
    ensures var r := Removed(n, key).0;
      Ordered(r) && n.prefix <= r.prefix && (Pays(n) ==> Pays(r)) && Leaves(r) == Leaves(n) - Dropped(n, key)
  {
    var e, child := n.edges[p], Removed(n.edges[p].next, rest).0;
    assert Removed(n, key).0 == n.(edges := n.edges[p := Edge(e.text, child)]);
    assert End(n, key) == End(e.next, rest);
    ReplacedOrdered(n, p, child);
    ReplacedLeaves(n.edges, p, Edge(e.text, child));
  }

  /** Every deletion leaves such a tree again; all leaves of the node go, while size goes down by one. */
  lemma {:induction false} RemovedOrdered<V>(n: Node<V>, key: Bytes)
    requires Ordered(n)
    ensures var r := Removed(n, key).0;
      Ordered(r) && n.prefix <= r.prefix && (Pays(n) ==> Pays(r)) && Leaves(r) == Leaves(n) - Dropped(n, key)
    decreases n
  {
    if key != [] && Matches(n.edges, key[0]) {
      var p := Pos(n.edges, key[0]);
      var e := n.edges[p];
      if Stops(e, key) {
        if e.next.leaf.Some? {
          WithoutOrdered(n, p);
          LeavesWithout(n, p);
          MergeOrdered(n.(edges := Without(n.edges, p)));
        }
      } else {
        var rest := key[|Lcp(e.text, key)|..];
        RemovedOrdered(e.next, rest);
        RemovedBelow(n, key, p, rest);
      }
    }
  }

  // ---------------------------------------------------------------- Insert

  /** The edge that an insert of s splits has a label that is all used up, and what is left of its node's prefix
      and of s begins with the same byte: the split node gets two edges for that byte. */
  predicate Tangles<V>(root: Node<V>, s: Bytes) {
    s != [] && Matches(root.edges, s[0]) &&
    var e := root.edges[Pos(root.edges, s[0])];
    e.text < s && e.text < e.next.prefix && e.next.prefix[|e.text|] == s[|e.text|]
  }

  /** What the tree read before for a key that is not inserted: the node below a split edge is read under its
      prefix from then on. */
  function Kept<V>(root: Node<V>, s: Bytes, q: Bytes): Option<V> {
    if s == [] || !Matches(root.edges, s[0]) then Get(root, q)
    else
      var e := root.edges[Pos(root.edges, s[0])];
      if !(Lcp(e.text, s) <= q) then Get(root, q)
      else if e.next.prefix <= q then Get(root, e.text + q[|e.next.prefix|..])
      else None
  }

  /** The split that Place makes of an ordered root. */
  lemma SplitsAt<V>(root: Node<V>, s: Bytes, key: Bytes, val: V)
    requires Ordered(root) && Strip(root.edges, s) == s && s != [] && Matches(root.edges, s[0])
    ensures var p := Pos(root.edges, s[0]); var child, m := root.edges[p].next, Lcp(root.edges[p].text, s);
      && m != [] && m <= root.edges[p].text && |m| < |child.prefix| && m <= child.prefix && !(child.prefix <= s && !Tangles(root, s))
      && (|m| < |s| && !Tangles(root, s) ==> child.prefix[|m|] != s[|m|])
      && Place(root, s, key, val) == root.(edges := root.edges[p := Edge(m, Split(child, m, s, key, val))])
      && Sorted(Place(root, s, key, val).edges)
  {
    var p := Pos(root.edges, s[0]);
    var e := root.edges[p];
    LcpOfPrefix(e.text, s);
    assert e.text[0] == s[0];
  }

  lemma PlaceKeeps<V>(root: Node<V>, s: Bytes, key: Bytes, val: V, q: Bytes)
    requires Ordered(root) && Strip(root.edges, s) == s && !Tangles(root, s)
    ensures Get(Place(root, s, key, val), q) == if q == s then Some(val) else Kept(root, s, q)
  {
    if s != [] {
      var p := Pos(root.edges, s[0]);
      if Matches(root.edges, s[0]) {
        SplitKeeps(root, s, key, val, q);
      } else if q != [] {
        var n := Place(root, s, key, val);
        AttachSorted(root.edges, p, n.edges[p]);
        if q[0] == s[0] {
          GetVia(n, q, p);
          LeafGet(s, s, val, if s <= q then q[|s|..] else q);
          NoMatch(root.edges, s[0]);
          GetNone(root, q);
        } else {
          SameElsewhere(root, n, q, p);
        }
      }
    }
  }

  lemma SplitKeeps<V>(root: Node<V>, s: Bytes, key: Bytes, val: V, q: Bytes)
    requires Ordered(root) && Strip(root.edges, s) == s && !Tangles(root, s) && s != [] && Matches(root.edges, s[0])
    ensures Get(Place(root, s, key, val), q) == if q == s then Some(val) else Kept(root, s, q)
  {
    var es, p := root.edges, Pos(root.edges, s[0]);
    var child, m := es[p].next, Lcp(es[p].text, s);
    var n := Place(root, s, key, val);
    SplitsAt(root, s, key, val);
    if q != [] {
      if q[0] == s[0] {
        GetVia(root, q, p);
        GetVia(n, q, p);
        ThroughSplit(child, m, s, key, val, q);
        if child.prefix <= q {
          Through(root, p, q[|child.prefix|..]);
        }
      } else if Matches(es, q[0]) {
        GetVia(root, q, Pos(es, q[0]));
        GetVia(n, q, Pos(es, q[0]));
      } else {
        NoMatch(es, q[0]);
        GetNone(root, q);
        GetNone(n, q);
      }
    }
  }

  /** Every insert, on every tree that Ordered describes, exactly, unless it tangles: what is left of the key has the
      value, and the keys behind a split edge are read under the prefix of its node. */
  lemma EveryInsert<V>(root: Node<V>, key: Bytes, val: V, q: Bytes)
    requires Ordered(root) && !Tangles(root, Strip(root.edges, key))
    ensures var s := Strip(root.edges, key);
      Get(Inserted(root, key, val), q) == if q == s then Some(val) else Kept(root, s, q)
  {
    StripTwice(root.edges, key);
    PlaceKeeps(root, Strip(root.edges, key), key, val, q);
  }

  /** It leaves such a tree again, with a leaf more unless it overwrote the root's. */
  lemma InsertedOrdered<V>(root: Node<V>, key: Bytes, val: V)
    requires Ordered(root)
    ensures var s := Strip(root.edges, key);
      && (!Tangles(root, s) ==> Ordered(Inserted(root, key, val)))
      && Leaves(Inserted(root, key, val)) == Leaves(root) + if s == [] && root.leaf.Some? then 0 else 1
  {
    var s := Strip(root.edges, key);
    StripTwice(root.edges, key);
    if s != [] {
      if Matches(root.edges, s[0]) {
        SplitStays(root, s, key, val);
      } else {
        AttachStays(root, s, key, val);
      }
    }
  }

  lemma AttachStays<V>(root: Node<V>, s: Bytes, key: Bytes, val: V)
    requires Ordered(root) && s != [] && !Matches(root.edges, s[0])
    ensures Ordered(Place(root, s, key, val)) && Leaves(Place(root, s, key, val)) == Leaves(root) + 1
  {
    var p, e := Pos(root.edges, s[0]), Edge(s, LeafNode(s, s, val));
    AttachSorted(root.edges, p, e);
    AttachLeaves(root.edges, p, e);
    AttachOrdered(root, p, e);
  }

  lemma AttachOrdered<V>(n: Node<V>, p: nat, e: Edge<V>)
    requires Ordered(n) && p <= |n.edges| && e.text != [] && e.next == Node(e.text, [], e.next.leaf) && Pays(e.next)
    requires Sorted(Attach(n.edges, p, e))
    ensures Ordered(n.(edges := Attach(n.edges, p, e)))
  {
    var es := Attach(n.edges, p, e);
    assert Ordered(e.next);
    assert forall i :: 0 <= i < |es| ==> es[i] == if i < p then n.edges[i] else if i == p then e else n.edges[i - 1];
  }

  lemma SplitStays<V>(root: Node<V>, s: Bytes, key: Bytes, val: V)
    requires Ordered(root) && Strip(root.edges, s) == s && s != [] && Matches(root.edges, s[0])
    ensures !Tangles(root, s) ==> Ordered(Place(root, s, key, val))
    ensures Leaves(Place(root, s, key, val)) == Leaves(root) + 1
  {
    var es, p := root.edges, Pos(root.edges, s[0]);
    var child, m := es[p].next, Lcp(es[p].text, s);
    var e := Edge(m, Split(child, m, s, key, val));
    SplitsAt(root, s, key, val);
    SplitLeaves(child, m, s, key, val);
    ReplacedLeaves(es, p, e);
    if !Tangles(root, s) {
      SplitOrdered(child, m, s, key, val);
      EdgeReplacedOrdered(root, p, e);
    }
  }

  lemma EdgeReplacedOrdered<V>(n: Node<V>, p: nat, e: Edge<V>)
    requires Ordered(n) && p < |n.edges| && e.text != [] && e.text <= e.next.prefix && Pays(e.next) && Ordered(e.next)
    requires Sorted(n.edges[p := e])
    ensures Ordered(n.(edges := n.edges[p := e]))
  {
  }

  lemma SplitOrdered<V>(child: Node<V>, m: Bytes, s: Bytes, key: Bytes, val: V)
    requires Ordered(child) && Pays(child) && |m| < |child.prefix| && |m| <= |s|
    requires |m| < |s| ==> child.prefix[|m|] != s[|m|]
    ensures Ordered(Split(child, m, s, key, val)) && Pays(Split(child, m, s, key, val))
  {
    var lower := SplitEdges(child, m, s, key, val);
    var rest := child.prefix[|m|..];
    assert Ordered(child.(prefix := rest)) && Pays(child.(prefix := rest));
    assert Ordered(LeafNode(s[|m|..], key, val));
  }

  // ---------------------------------------------------------------- an insert that tangles

  /** The first of the two edges is taken for their byte. */
  lemma FirstIsTaken<V>(n: Node<V>, u: Bytes)
    requires |n.edges| == 2 && u != [] && First(n.edges[0]) == u[0] as int
    ensures Get(n, u) == if n.edges[0].text <= u then Get(n.edges[0].next, u[|n.edges[0].text|..]) else None
  {
  }

  lemma ThroughTangle<V>(root: Node<V>, s: Bytes, key: Bytes, val: V, u: Bytes)
    requires Ordered(root) && Strip(root.edges, s) == s && Tangles(root, s)
    ensures var e := root.edges[Pos(root.edges, s[0])];
      Get(Place(root, s, key, val), e.text + u) == Get(Split(e.next, e.text, s, key, val), u)
  {
    var p := Pos(root.edges, s[0]);
    var text := root.edges[p].text;
    SplitsAt(root, s, key, val);
    LcpOfPrefix(text, s);
    GetVia(Place(root, s, key, val), text + u, p);
    assert (text + u)[|text|..] == u;
  }

  lemma TangledSplit<V>(child: Node<V>, m: Bytes, s: Bytes, key: Bytes, val: V, u: Bytes)
    requires |m| < |child.prefix| && |m| < |s| && child.prefix[|m|] == s[|m|] && u != [] && u[0] == s[|m|]
    ensures var rest, more := child.prefix[|m|..], s[|m|..];
      Get(Split(child, m, s, key, val), u) ==
      if Precedes(rest, more) then if rest <= u then Get(child, u[|rest|..]) else None
      else if u == more then Some(val) else None
  {
    var n, rest, more := Split(child, m, s, key, val), child.prefix[|m|..], s[|m|..];
    FirstIsTaken(n, u);
    if Precedes(rest, more) {
      GetIgnoresPrefix(child, rest, if rest <= u then u[|rest|..] else u);
    } else {
      LeafGet(more, key, val, if more <= u then u[|more|..] else u);
      assert more <= u && u[|more|..] == [] ==> u == more;
    }
  }

  /** An insert that tangles loses: its own value, if the old node's edge comes first, and else every key behind the
      old node. */
  lemma TangledLoses<V>(root: Node<V>, key: Bytes, val: V, u: Bytes)
    requires Ordered(root) && Tangles(root, Strip(root.edges, key))
    ensures var s, r := Strip(root.edges, key), Inserted(root, key, val);
      var e := root.edges[Pos(root.edges, s[0])];
      if Precedes(e.next.prefix[|e.text|..], s[|e.text|..]) then Get(r, s) == None
      else Get(r, e.next.prefix + u) == if e.next.prefix + u == s then Some(val) else None
  {
    var s := Strip(root.edges, key);
    var e := root.edges[Pos(root.edges, s[0])];
    StripTwice(root.edges, key);
    if Precedes(e.next.prefix[|e.text|..], s[|e.text|..]) {
      NewIsLost(root, s, key, val);
    } else {
      OldIsLost(root, s, key, val, u);
    }
  }

  lemma NewIsLost<V>(root: Node<V>, s: Bytes, key: Bytes, val: V)
    requires Ordered(root) && Strip(root.edges, s) == s && Tangles(root, s)
    requires var e := root.edges[Pos(root.edges, s[0])]; Precedes(e.next.prefix[|e.text|..], s[|e.text|..])
    ensures Get(Place(root, s, key, val), s) == None
  {
    var e := root.edges[Pos(root.edges, s[0])];
    var more := s[|e.text|..];
    assert s == e.text + more;
    ThroughTangle(root, s, key, val, more);
    TangledSplit(e.next, e.text, s, key, val, more);
  }

  lemma OldIsLost<V>(root: Node<V>, s: Bytes, key: Bytes, val: V, u: Bytes)
    requires Ordered(root) && Strip(root.edges, s) == s && Tangles(root, s)
    requires var e := root.edges[Pos(root.edges, s[0])]; !Precedes(e.next.prefix[|e.text|..], s[|e.text|..])
    ensures var x := root.edges[Pos(root.edges, s[0])].next.prefix;
      Get(Place(root, s, key, val), x + u) == if x + u == s then Some(val) else None
  {
    var e := root.edges[Pos(root.edges, s[0])];
    var rest, more := e.next.prefix[|e.text|..], s[|e.text|..];
    var q := e.next.prefix + u;
    assert q == e.text + (rest + u) && q[|e.text|..] == rest + u;
    ThroughTangle(root, s, key, val, rest + u);
    TangledSplit(e.next, e.text, s, key, val, rest + u);
    SameTail(e.text, q, s);
  }

  // ---------------------------------------------------------------- whole runs

  predicate Untangled<V>(n: Node<V>, op: Op<V>) {
    op.InsertOp? ==> !Tangles(n, Strip(n.edges, op.key))
  }

  predicate NeverTangles<V>(n: Node<V>, ops: seq<Op<V>>)
    decreases |ops|
  {
    ops == [] || (Untangled(n, ops[0]) && NeverTangles(Step(n, ops[0]), ops[1..]))
  }

  /** What is read of q after a call, from the tree before it. */
  function Reads<V>(n: Node<V>, op: Op<V>, q: Bytes): Option<V> {
    match op
    case InsertOp(k, v) => if q == Strip(n.edges, k) then Some(v) else Kept(n, Strip(n.edges, k), q)
    case DeleteOp(k) => if Deletes(n, k) then After(n, k, q) else Get(n, q)
  }

  lemma StepReads<V>(n: Node<V>, op: Op<V>, q: Bytes)
    requires Ordered(n) && Untangled(n, op)
    ensures Ordered(Step(n, op)) && Get(Step(n, op), q) == Reads(n, op, q)
  {
    match op
    case InsertOp(k, v) =>
      EveryInsert(n, k, v, q);
      InsertedOrdered(n, k, v);
    case DeleteOp(k) =>
      EveryDelete(n, k, q);
      RemovedOrdered(n, k);
  }

  /** Along any run in which no insert tangles, right calls and wrong ones in any order, every call does exactly that. */
  lemma {:induction false} RunReads<V>(n: Node<V>, ops: seq<Op<V>>, i: nat, q: Bytes)
    requires Ordered(n) && NeverTangles(n, ops) && i < |ops|
    ensures var before := Run(n, ops[..i]);
      && Ordered(before) && Untangled(before, ops[i])
      && Run(n, ops[..i + 1]) == Step(before, ops[i]) && Get(Run(n, ops[..i + 1]), q) == Reads(before, ops[i], q)
    decreases |ops|
  {
    StepReads(n, ops[0], q);
    if i == 0 {
      assert ops[..1][1..] == [];
    } else {
      RunReads(Step(n, ops[0]), ops[1..], i - 1, q);
      assert ops[..i][1..] == ops[1..][..i - 1] && ops[..i + 1][1..] == ops[1..][..i];
    }
  }
}
