/** The doubly linked list of db/dlist.go and its iterator. */
module DList {
  class ListNode<T> {
    var Prev: ListNode?<T>
    var Next: ListNode?<T>
    var Value: T

    constructor (value: T)
      ensures Prev == null && Next == null && Value == value
    {
      Prev, Next, Value := null, null, value;
    }
  }

  ghost function At<T>(ns: seq<ListNode<T>>, i: int): ListNode?<T> {
    if 0 <= i < |ns| then ns[i] else null
  }

  ghost predicate Distinct<T>(ns: seq<ListNode<T>>) {
    forall i, j :: 0 <= i < j < |ns| ==> ns[i] != ns[j]
  }

  /** Prev and Next are mutually inverse along ns. */
  ghost predicate Linked<T>(ns: seq<ListNode<T>>)
    reads ns`Prev, ns`Next
  {
    && Distinct(ns)
    && (forall i {:trigger ns[i].Prev} :: 0 <= i < |ns| ==> ns[i].Prev == At(ns, i - 1))
    && (forall i {:trigger ns[i].Next} :: 0 <= i < |ns| ==> ns[i].Next == At(ns, i + 1))
  }

  lemma InsertDistinct<T>(ns: seq<ListNode<T>>, k: nat, x: ListNode<T>)
    requires k <= |ns| && Distinct(ns) && x !in ns
    ensures Distinct(ns[..k] + [x] + ns[k..])
  {
  }

  lemma RemoveDistinct<T>(ns: seq<ListNode<T>>, k: nat)
    requires k < |ns| && Distinct(ns)
    ensures Distinct(ns[..k] + ns[k + 1..]) && ns[k] !in ns[..k] + ns[k + 1..]
  {
  }

  class List<T> {
    var Head: ListNode?<T>
    var Tail: ListNode?<T>
    var Length: int
    ghost var nodes: seq<ListNode<T>>  // from head to tail

    ghost predicate Valid()
      reads this, nodes`Prev, nodes`Next
    {
      && Head == At(nodes, 0) && Tail == At(nodes, |nodes| - 1) && Length == |nodes|
      && Linked(nodes)
    }

    constructor ()
      ensures Valid() && nodes == []
    {
      Head, Tail, Length, nodes := null, null, 0, [];
    }

    method Empty()
      requires Valid()
      modifies this
      ensures Valid() && nodes == []
    {
      var current := Head;
      ghost var i := 0;
      while current != null
        invariant 0 <= i <= |nodes| && current == At(nodes, i)
        decreases |nodes| - i
      {
        assert nodes[i].Next == At(nodes, i + 1);
        current := current.Next;
        i := i + 1;
      }
      Head, Tail, Length, nodes := null, null, 0, [];
    }

    method AddNodeHead(value: T) returns (node: ListNode<T>)
      requires Valid()
      modifies this, nodes`Prev
      ensures Valid() && nodes == [node] + old(nodes) && fresh(node) && node.Value == value
    {
      node := new ListNode(value);
      if Head == null {
        Head, Tail := node, node;
      } else {
        node.Next, Head.Prev, Head := Head, node, node;
      }
      Length := Length + 1;
      ghost var ns := nodes;
      nodes := [node] + ns;
      forall i | 0 <= i < |nodes|
        ensures nodes[i].Prev == At(nodes, i - 1) && nodes[i].Next == At(nodes, i + 1)
      {
        if i > 0 {
          assert nodes[i] == ns[i - 1] && old(ns[i - 1].Prev) == At(ns, i - 2) && old(ns[i - 1].Next) == At(ns, i);
        }
      }
    }

    method AddNodeTail(value: T) returns (node: ListNode<T>)
      requires Valid()
      modifies this, nodes`Next
      ensures Valid() && nodes == old(nodes) + [node] && fresh(node) && node.Value == value
    {
      node := new ListNode(value);
      if Tail == null {
        Head, Tail := node, node;
      } else {
        node.Prev, Tail.Next, Tail := Tail, node, node;
      }
      Length := Length + 1;
      ghost var ns := nodes;
      nodes := ns + [node];
      forall i | 0 <= i < |nodes|
        ensures nodes[i].Prev == At(nodes, i - 1) && nodes[i].Next == At(nodes, i + 1)
      {
        if i < |ns| {
          assert old(ns[i].Prev) == At(ns, i - 1) && old(ns[i].Next) == At(ns, i + 1);
        }
      }
    }

    /** The in-place part of InsertNode after a node that is not the last. */
    method LinkAfter(oldNode: ListNode<T>, ghost k: nat, value: T) returns (node: ListNode<T>)
      requires Valid() && k + 1 < |nodes| && oldNode == nodes[k]
      modifies this, nodes`Prev, nodes`Next
      ensures Valid() && nodes == old(nodes)[..k + 1] + [node] + old(nodes)[k + 1..]
      ensures fresh(node) && node.Value == value
    {
      node := new ListNode(value);
      ghost var ns := nodes;
      assert oldNode.Next == At(ns, k + 1);
      node.Prev := oldNode;
      node.Next := oldNode.Next;
      oldNode.Next := node;
      if node.Next != null {
        node.Next.Prev := node;
      }
      Length := Length + 1;
      nodes := ns[..k + 1] + [node] + ns[k + 1..];
      InsertDistinct(ns, k + 1, node);
      forall i | 0 <= i < |nodes|
        ensures nodes[i].Prev == At(nodes, i - 1) && nodes[i].Next == At(nodes, i + 1)
      {
        if i <= k {
          assert nodes[i] == ns[i] && old(ns[i].Prev) == At(ns, i - 1) && old(ns[i].Next) == At(ns, i + 1);
        } else if i > k + 1 {
          assert nodes[i] == ns[i - 1] && old(ns[i - 1].Prev) == At(ns, i - 2) && old(ns[i - 1].Next) == At(ns, i);
        }
      }
    }

    /** InsertNode at nodes[k]. Before a node that is not the head the source's tuple assignment reaches
        through the new node's nil Prev and panics, its three earlier assignments done. */
    method InsertNode(oldNode: ListNode<T>, ghost k: nat, value: T, after: bool) returns (panicked: bool)
      requires Valid() && k < |nodes| && oldNode == nodes[k]
      modifies this, nodes`Prev, nodes`Next
      ensures panicked <==> !after && k > 0
      ensures !panicked ==>
        && Valid() && |nodes| == |old(nodes)| + 1
        && var at := if after then k + 1 else k;
           fresh(nodes[at]) && nodes[at].Value == value && nodes == old(nodes)[..at] + [nodes[at]] + old(nodes)[at..]
      ensures panicked ==> nodes == old(nodes) && nodes[k - 1].Next == nodes[k] && nodes[k].Prev != nodes[k - 1]
    {
      var node;
      assert oldNode.Next == At(nodes, k + 1) && oldNode.Prev == At(nodes, k - 1);
      if after {
        if oldNode.Next == null {
          node := AddNodeTail(value);
        } else {
          node := LinkAfter(oldNode, k, value);
        }
        return false;
      }
      if oldNode.Prev == null {
        node := AddNodeHead(value);
        return false;
      }
      assert nodes[k - 1].Next == At(nodes, k);
      node := new ListNode(value);
      node.Prev, node.Next, oldNode.Prev := oldNode.Prev, oldNode, node;
      return true;
    }

    /** RemoveNode of nodes[k]; the node leaves unlinked, all others keep their order. */
    method RemoveNode(node: ListNode<T>, ghost k: nat)
      requires Valid() && k < |nodes| && node == nodes[k]
      modifies this, nodes`Prev, nodes`Next
      ensures Valid() && nodes == old(nodes)[..k] + old(nodes)[k + 1..]
      ensures node.Prev == null && node.Next == null && node !in nodes
    {
      ghost var ns := nodes;
      assert node.Prev == At(ns, k - 1) && node.Next == At(ns, k + 1);
      RemoveDistinct(ns, k);
      if node.Prev != null {
        node.Prev.Next := node.Next;
      } else {
        Head := node.Next;
      }
      if node.Next != null {
        node.Next.Prev := node.Prev;
      } else {
        Tail := node.Prev;
      }
      node.Next, node.Prev := null, null;
      Length := Length - 1;
      nodes := ns[..k] + ns[k + 1..];
      forall i | 0 <= i < |nodes|
        ensures nodes[i].Prev == At(nodes, i - 1) && nodes[i].Next == At(nodes, i + 1)
      {
        if i < k {
          assert nodes[i] == ns[i] != node && old(ns[i].Prev) == At(ns, i - 1) && old(ns[i].Next) == At(ns, i + 1);
          assert i < k - 1 ==> ns[i] != ns[k - 1];
        } else {
          assert nodes[i] == ns[i + 1] != node && old(ns[i + 1].Prev) == At(ns, i) && old(ns[i + 1].Next) == At(ns, i + 2);
          assert i > k ==> ns[i + 1] != ns[k + 1];
        }
      }
    }
  }

  // ---------------------------------------------------------------- iteration

  class ListIter<T> {
    var Next: ListNode?<T>
    const fromHead: bool

    /** NewListIterator */
    constructor (l: List<T>, fromHead: bool)
      ensures Next == (if fromHead then l.Head else l.Tail) && this.fromHead == fromHead
    {
      Next := if fromHead then l.Head else l.Tail;
      this.fromHead := fromHead;
    }

    method NextNode() returns (node: ListNode?<T>)
      modifies this
      ensures node == old(Next)
      ensures Next == if node == null then null else if fromHead then node.Next else node.Prev
    {
      node := Next;
      if node != null {
        if fromHead {
          Next := node.Next;
        } else {
          Next := node.Prev;
        }
      }
    }

    method Rewind(l: List<T>)
      modifies this
      ensures Next == if fromHead then l.Head else l.Tail
    {
      Next := if fromHead then l.Head else l.Tail;
    }
  }

  function Reverse<T>(s: seq<T>): (r: seq<T>)
    ensures |r| == |s|
  {
    if s == [] then [] else Reverse(s[1..]) + [s[0]]
  }

  lemma {:induction false} ReverseAt<T>(s: seq<T>, i: nat)
    requires i < |s|
    ensures Reverse(s)[i] == s[|s| - 1 - i]
  {
    if i < |s| - 1 {
      ReverseAt(s[1..], i);
    }
  }

  /** Iterating until nil visits the nodes in order from the head, in reverse order from the tail. */
  method Visit<T>(l: List<T>, fromHead: bool) returns (visited: seq<ListNode<T>>)
    requires l.Valid()
    ensures visited == if fromHead then l.nodes else Reverse(l.nodes)
  {
    var iter := new ListIter(l, fromHead);
    ghost var ns, n := l.nodes, |l.nodes|;
    visited := [];
    var node := iter.NextNode();
    while node != null
      invariant l.nodes == ns && l.Valid() && |visited| <= n && fresh(iter) && iter.fromHead == fromHead
      invariant node == At(ns, if fromHead then |visited| else n - 1 - |visited|)
      invariant node != null ==> iter.Next == if fromHead then node.Next else node.Prev
      invariant forall i :: 0 <= i < |visited| ==> visited[i] == ns[if fromHead then i else n - 1 - i]
      decreases n - |visited|
    {
      ghost var at := if fromHead then |visited| else n - 1 - |visited|;
      assert ns[at].Prev == At(ns, at - 1) && ns[at].Next == At(ns, at + 1);
      visited := visited + [node];
      node := iter.NextNode();
    }
    forall i | 0 <= i < n
      ensures Reverse(ns)[i] == ns[n - 1 - i]
    {
      ReverseAt(ns, i);
    }
  }
}
