/** RaxTree of db/rax.go: the object around the root, and what its calls do. */
module RaxTrees {
  import opened Util
  import opened Rax
  import opened RaxInsert
  import opened RaxDelete
  import opened RaxOrdered
  import opened RaxUnique

  // ---------------------------------------------------------------- a node on a path

  /** path leads from root to n. */
  predicate PathTo<V(==)>(root: Node<V>, path: seq<nat>, n: Node<V>)
    decreases |path|
  {
    if path == [] then root == n
    else path[0] < |root.edges| && PathTo(root.edges[path[0]].next, path[1..], n)
  }

  /** The tree after the node at the end of the path has become m; labels on the way stay. */
  function Replaced<V>(root: Node<V>, path: seq<nat>, m: Node<V>): Node<V>
    decreases |path|
  {
    if path == [] then m
    else if path[0] >= |root.edges| then root
    else
      var e := root.edges[path[0]];
      root.(edges := root.edges[path[0] := Edge(e.text, Replaced(e.next, path[1..], m))])
  }

  lemma {:induction false} ReplacedBySelf<V>(root: Node<V>, path: seq<nat>, n: Node<V>)
    requires PathTo(root, path, n)
    ensures Replaced(root, path, n) == root
    decreases |path|
  {
    if path != [] {
      ReplacedBySelf(root.edges[path[0]].next, path[1..], n);
    }
  }

  lemma {:induction false} ReplacedStep<V>(root: Node<V>, path: seq<nat>, n: Node<V>, i: nat, m: Node<V>)
    requires PathTo(root, path, n) && i < |n.edges|
    ensures PathTo(root, path + [i], n.edges[i].next)
    ensures Replaced(root, path + [i], m) == Replaced(root, path, n.(edges := n.edges[i := Edge(n.edges[i].text, m)]))
    decreases |path|
  {
    if path != [] {
      assert (path + [i])[1..] == path[1..] + [i];
      ReplacedStep(root.edges[path[0]].next, path[1..], n, i, m);
    }
  }

  /** The merge loop at the end of Delete. */
  method MergeUp<V(==)>(n: Node<V>) returns (parent: Node<V>)
    ensures parent == Merge(n)
  {
    parent := n;
    while |parent.edges| == 1 && parent.leaf == None
      invariant Merge(parent) == Merge(n)
      decreases Nodes(parent)
    {
      OnlyChild(parent);
      var child := parent.edges[0].next;
      parent := Node(parent.prefix + child.prefix, child.edges, child.leaf);
    }
  }

  /** On a canonical tree no insert tangles. */
  lemma NoTangle<V>(n: Node<V>, s: Bytes)
    requires Canonical(n)
    ensures Ordered(n) && !Tangles(n, s)
  {
    CanonicalIsOrdered(n);
  }

  lemma DeleteKeeps<V>(n: Node<V>, key: Bytes)
    requires Ordered(n)
    ensures Ordered(Removed(n, key).0)
    ensures Canonical(n) && Clean(n, key) ==>
      Canonical(Removed(n, key).0) && Leaves(Removed(n, key).0) == Leaves(n) - if Removed(n, key).1 then 1 else 0
  {
    RemovedOrdered(n, key);
    if Canonical(n) && Clean(n, key) {
      CleanKeepsCanonical(n, key);
      CleanLeaves(n, key);
    }
  }

  // ---------------------------------------------------------------- the tree object

  class RaxTree<V(==)> {
    var root: Node<V>
    var size: int

    /** What every call relies on: it holds from the start until an insert tangles. */
    ghost predicate Valid()
      reads this
    {
      Ordered(root)
    }

    /** What right calls keep as well: the tree is canonical and size counts its leaves. */
    ghost predicate Exact()
      reads this
    {
      Canonical(root) && size == Leaves(root)
    }

    constructor ()
      ensures Valid() && Exact() && root == Node([], [], None)
    {
      root, size := Node([], [], None), 0;
    }

    method Insert(key: Bytes, val: V) returns (isNew: bool)
      requires Valid()
      modifies this
      ensures root == Inserted(old(root), key, val) && (!Tangles(old(root), Strip(old(root).edges, key)) ==> Valid())
      ensures isNew == !(Strip(old(root).edges, key) == [] && old(root).leaf.Some?)
      ensures size == old(size) + (if isNew then 1 else 0) && size - Leaves(root) == old(size - Leaves(root))
      ensures old(Exact()) ==> Valid() && Exact() && isNew == (Get(old(root), Strip(old(root).edges, key)) == None)
    {
      StripTwice(root.edges, key);
      InsertedOrdered(root, key, val);
      if Canonical(root) {
        NoTangle(root, Strip(root.edges, key));
        Placed(root, Strip(root.edges, key), key, val);
      }
      var search := key;
      while search != []
        invariant root == old(root) && size == old(size)
        invariant Strip(root.edges, search) == Strip(root.edges, key)
        decreases |search|
      {
        var found, idx, common := WalkEdge(root.edges, search);
        if !found {
          var e := Edge(search, LeafNode(search, search, val));
          root, size := root.(edges := Attach(root.edges, idx, e)), size + 1;
          return true;
        }
        var n := root.edges[idx].next;
        if |common| == |n.prefix| {
          search := search[|common|..];
        } else {
          var splitNode := SplitNode(n, common, search, key, val);
          root, size := root.(edges := root.edges[idx := Edge(common, splitNode)]), size + 1;
          return true;
        }
      }
      if root.leaf.Some? {
        root := root.(leaf := Some(root.leaf.value.(val := val)));
        return false;
      }
      root, size := root.(leaf := Some(Leaf(key, val))), size + 1;
      return true;
    }

    method Find(key: Bytes) returns (r: Option<V>)
      requires Valid()
      ensures r == Found(root, key)
    {
      var n, search := root, key;
      while search != []
        invariant Ordered(n) && Found(n, search) == Found(root, key)
        decreases |search|
      {
        var found, idx, common := WalkEdge(n.edges, search);
        if !found {
          return None;
        }
        search := search[|common|..];
        n := n.edges[idx].next;
      }
      return if n.leaf.Some? then Some(n.leaf.value.val) else None;
    }

    /** Delete; on the empty key of a root that is a leaf the source dereferences a nil parent. */
    method Delete(key: Bytes) returns (deleted: bool, panicked: bool)
      requires Valid()
      modifies this
      ensures panicked <==> key == [] && old(root).leaf.Some?
      ensures panicked ==> root == old(root) && size == old(size)
      ensures !panicked ==> (root, deleted) == Removed(old(root), key) && size == old(size) - if deleted then 1 else 0
      ensures Valid() && (old(Exact()) && Clean(old(root), key) ==> Exact())
    {
      DeleteKeeps(root, key);
      if key == [] {
        return false, root.leaf.Some?;
      }
      var n, search, path := root, key, [];
      while true
        invariant root == old(root) && size == old(size)
        invariant Ordered(n) && search != [] && PathTo(root, path, n)
        invariant Removed(root, key) == (Replaced(root, path, Removed(n, search).0), Removed(n, search).1)
        decreases |search|
      {
        var found, idx, common := WalkEdge(n.edges, search);
        if !found {
          ReplacedBySelf(root, path, n);
          return false, false;
        }
        var next := n.edges[idx].next;
        assert common <= next.prefix;
        search := if next.prefix == search then [] else search[|common|..];
        if search == [] {
          if next.leaf == None {
            ReplacedBySelf(root, path, n);
            return false, false;
          }
          var parent := MergeUp(n.(edges := Without(n.edges, idx)));
          root, size := Replaced(root, path, parent), size - 1;
          return true, false;
        }
        ReplacedStep(root, path, n, idx, Removed(next, search).0);
        n, path := next, path + [idx];
      }
    }
  }

  // ---------------------------------------------------------------- small trees on which the calls go wrong

  const A: byte := 97
  const B: byte := 98

  function Leafy(text: Bytes): Edge<int> { Edge(text, LeafNode(text, text, 0)) }

  /** "a" stored, then "ab" inserted: the value lands under "b", and "ab" is not there. */
  lemma InsertMisplaces()
    ensures var n := Node([], [Leafy([A])], None);
      Canonical(n) && Get(Inserted(n, [A, B], 1), [B]) == Some(1) && Get(Inserted(n, [A, B], 1), [A, B]) == None
  {
    var n := Node([], [Leafy([A])], None);
    assert [A, B][1..] == [B] && Strip(n.edges, [A, B]) == Strip(n.edges, [B]) == [B];
    InsertGet(n, [A, B], 1, [B]);
    InsertGet(n, [A, B], 1, [A, B]);
    GetVia(n, [A, B], 0);
    GetNone(n.edges[0].next, [B]);
  }

  /** "a" and "b" stored, then "b" deleted: the root takes up the other leaf and "a" is gone as well. */
  lemma DeleteMergesRoot()
    ensures var n := Node([], [Leafy([A]), Leafy([B])], None);
      Canonical(n) && Get(n, [A]).Some? && Removed(n, [B]).1 && Get(Removed(n, [B]).0, [A]) == None
  {
    var n := Node([], [Leafy([A]), Leafy([B])], None);
    LcpIs([B], [B], 1);
    PosIs(n.edges, B, 1);
    assert [B][|[B]|..] == [];
    var m := n.(edges := Without(n.edges, 1));
    assert m.edges == [Leafy([A])];
    MergeOnce(m);
    GetVia(n, [A], 0);
  }

  const C: byte := 99

  /** "a" and then "ab" is not "ab" and then "a": the first order misplaces "ab". */
  lemma OrderMatters()
    ensures var n := Node<int>.Node([], [], None);
      Canonical(n) && !Same(Inserted(Inserted(n, [A], 0), [A, B], 1), Inserted(Inserted(n, [A, B], 1), [A], 0))
  {
    var n := Node<int>.Node([], [], None);
    assert NewLabelFits(n, [A], [A, B]);
    InsertsCommute(n, [A], 0, [A, B], 1);
  }

  /** "ab" stored; "ac" inserted and deleted again: the split stays behind, and "ab" is lost. */
  lemma SplitIsNotUndone()
    ensures var n := Node([], [Leafy([A, B])], None);
      Canonical(n) && !Same(Removed(Inserted(n, [A, C], 1), [A, C]).0, n)
  {
    var n := Node([], [Leafy([A, B])], None);
    PosIs(n.edges, A, 0);
    assert [A, B][1] != [A, C][1];
    DeleteUndoesInsert(n, [A, C], 1);
  }

  /** "a" stored; "b" inserted and deleted again: the root merges. */
  lemma MergeIsNotUndone()
    ensures var n := Node([], [Leafy([A])], None);
      Canonical(n) && !Same(Removed(Inserted(n, [B], 1), [B]).0, n)
  {
    var n := Node([], [Leafy([A])], None);
    assert [A][0] != [B][0];
    DeleteUndoesInsert(n, [B], 1);
  }

  const D: byte := 100

  /** The node for "a" with "b" and "c" behind it, and the same after "b" is deleted. */
  const FORK := Node([A], [Leafy([B]), Leafy([C])], None)
  const MERGED := Node([A, C], [], Some(Leaf([C], 0)))

  lemma ForkMerges()
    ensures Removed(FORK, [B]) == (MERGED, true) && Get(FORK, [B]).Some? && Get(FORK, [C]).Some?
  {
    LcpIs([B], [B], 1);
    assert [B][1..] == [] && [C][1..] == [];
    GetVia(FORK, [B], 0);
    GetVia(FORK, [C], 1);
    PosIs(FORK.edges, B, 0);
    var m := FORK.(edges := Without(FORK.edges, 0));
    assert m.edges == [Leafy([C])] && [A] + [C] == [A, C];
    MergeOnce(m);
  }

  lemma ForkIsStored()
    ensures var n := Node([], [Edge([A], FORK), Leafy([D])], None);
      Canonical(n) && Get(n, [A, B]).Some? && Get(n, [A, C]).Some? && Get(n, [D]).Some?
  {
    var n := Node([], [Edge([A], FORK), Leafy([D])], None);
    ForkMerges();
    assert [A, B][1..] == [B] && [A, C][1..] == [C] && [D][1..] == [];
    GetVia(n, [A, B], 0);
    GetVia(n, [A, C], 0);
    GetVia(n, [D], 1);
  }

  /** "ab", "ac" and "d" stored, then "ab" deleted: the node of "a" and "c" is merged under the label "a", and an
      insert of "acd" tangles. */
  lemma TangleIsReachable()
    ensures var n := Node([], [Edge([A], FORK), Leafy([D])], None);
      && Canonical(n) && Get(n, [A, B]).Some? && Get(n, [A, C]).Some? && Get(n, [D]).Some?
      && Removed(n, [A, B]).1 && Tangles(Removed(n, [A, B]).0, [A, C, D])
  {
    var n := Node([], [Edge([A], FORK), Leafy([D])], None);
    ForkIsStored();
    ForkMerges();
    LcpIs([A], [A, B], 1);
    PosIs(n.edges, A, 0);
    assert [A, B][1..] == [B];
    var r := Removed(n, [A, B]).0;
    assert r.edges == [Edge([A], MERGED), Leafy([D])];
    PosIs(r.edges, A, 0);
  }
}
