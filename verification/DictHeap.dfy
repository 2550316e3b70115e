/** HashTable of db/dict.go with its entries linked in place, proved against the functions of Dict. */
module DictHeap {
  import opened Util
  import opened Dict
  import opened DictCalls

  class Entry<K, V> {
    const Key: K
    var Value: V
    var Next: Entry?<K, V>
    ghost var home: array<Entry?<K, V>>  // the table whose chains the entry belongs to

    constructor (key: K, value: V, ghost table: array<Entry?<K, V>>)
      ensures Key == key && Value == value && Next == null && home == table
    {
      Key, Value, Next, home := key, value, null, table;
    }
  }

  ghost function At<K, V>(c: seq<Entry<K, V>>, j: nat): Entry?<K, V> {
    if j < |c| then c[j] else null
  }

  ghost predicate Distinct<K, V>(c: seq<Entry<K, V>>) {
    forall i, j :: 0 <= i < j < |c| ==> c[i] != c[j]
  }

  /** From head on, the Next links run through the entries c, which hold the pairs v. */
  ghost predicate Linked<K, V>(head: Entry?<K, V>, c: seq<Entry<K, V>>, v: Chain<K, V>)
    reads c`Next, c`Value
  {
    && |c| == |v| && head == At(c, 0) && Distinct(c)
    && (forall j {:trigger c[j].Next} :: 0 <= j < |c| ==> c[j].Next == At(c, j + 1))
    && (forall j {:trigger c[j].Value} {:trigger v[j]} :: 0 <= j < |c| ==> v[j] == (c[j].Key, c[j].Value))
  }

  // ---------------------------------------------------------------- where a walk along a chain stops

  /** The place of the first pair for k, or the length of the chain. */
  function First<K(==), V>(c: Chain<K, V>, k: K): (j: nat)
    ensures j <= |c| && (j < |c| <==> Find(c, k).Some?)
    ensures j < |c| ==> c[j].0 == k && Find(c, k) == Some(c[j].1)
  {
    if c == [] || c[0].0 == k then 0 else 1 + First(c[1..], k)
  }

  lemma {:induction false} FirstAfterPut<K, V>(c: Chain<K, V>, k: K, v: V)
    ensures First(Put(c, k, v), k) == First(c, k)
    ensures Put(c, k, v) == if First(c, k) < |c| then c[First(c, k) := (k, v)] else c + [(k, v)]
  {
    if c != [] && c[0].0 != k {
      FirstAfterPut(c[1..], k, v);
    }
  }

  lemma {:induction false} StopAt<K, V>(c: Chain<K, V>, k: K, v: V, j: nat)
    requires j < |c| && c[j].0 == k
    requires forall i :: 0 <= i < j ==> c[i].0 != k
    ensures Find(c, k) == Some(c[j].1) && First(c, k) == j
    ensures Put(c, k, v) == c[j := (k, v)]
    ensures Remove(c, k) == c[..j] + c[j + 1..]
  {
    if j > 0 {
      StopAt(c[1..], k, v, j - 1);
      assert c[j := (k, v)] == [c[0]] + c[1..][j - 1 := (k, v)];
      assert c[..j] + c[j + 1..] == [c[0]] + (c[1..][..j - 1] + c[1..][j..]);
    }
  }

  lemma {:induction false} StopNowhere<K, V>(c: Chain<K, V>, k: K, v: V)
    requires forall i :: 0 <= i < |c| ==> c[i].0 != k
    ensures Find(c, k) == None && First(c, k) == |c|
    ensures Put(c, k, v) == c + [(k, v)]
    ensures Remove(c, k) == c
  {
    if c != [] {
      StopNowhere(c[1..], k, v);
      assert c + [(k, v)] == [c[0]] + (c[1..] + [(k, v)]);
    }
  }

  // ---------------------------------------------------------------- work on one chain

  /** The search-or-append loop of Set (overwriting) and of findPositionForInsert (not overwriting), from
      the first entry of a bucket on; r is the entry that now stands for the key. */
  method StoreInChain<K(==), V>(head: Entry<K, V>, entry: Entry<K, V>, overwrite: bool,
                                ghost c: seq<Entry<K, V>>, ghost v: Chain<K, V>)
    returns (found: bool, r: Entry<K, V>, ghost v': Chain<K, V>)
    requires Linked(head, c, v) && entry !in c && entry.Next == null
    modifies c`Value, c`Next
    ensures found == Find(v, entry.Key).Some? && r == if found then At(c, First(v, entry.Key)) else entry
    ensures r.Key == entry.Key && (found ==> r in c)
    ensures v' == if found && !overwrite then v else Put(v, entry.Key, entry.Value)
    ensures Linked(head, if found then c else c + [entry], v')
  {
    var curr := head;
    ghost var j := 0;
    while curr.Key != entry.Key && curr.Next != null
      invariant 0 <= j < |c| && curr == c[j]
      invariant forall i :: 0 <= i < j ==> v[i].0 != entry.Key
      decreases |c| - j
    {
      assert v[j] == (c[j].Key, c[j].Value) && c[j].Next == At(c, j + 1);
      curr := curr.Next;
      j := j + 1;
    }
    assert v[j] == (c[j].Key, c[j].Value) && c[j].Next == At(c, j + 1);
    found := curr.Key == entry.Key;
    if found {
      r := curr;
      StopAt(v, entry.Key, entry.Value, j);
      v' := v;
      if overwrite {
        v' := v[j := (entry.Key, entry.Value)];
        curr.Value := entry.Value;
      }
    } else {
      r := entry;
      StopNowhere(v, entry.Key, entry.Value);
      v' := v + [(entry.Key, entry.Value)];
      LinkLast(curr, entry, c, v);
    }
  }

  method LinkLast<K, V>(last: Entry<K, V>, entry: Entry<K, V>, ghost c: seq<Entry<K, V>>, ghost v: Chain<K, V>)
    requires c != [] && Linked(c[0], c, v) && last == c[|c| - 1] && entry !in c && entry.Next == null
    modifies last`Next
    ensures Linked(c[0], c + [entry], v + [(entry.Key, entry.Value)])
  {
    last.Next := entry;
    ghost var d, w := c + [entry], v + [(entry.Key, entry.Value)];
    forall j | 0 <= j < |d|
      ensures d[j].Next == At(d, j + 1) && w[j] == (d[j].Key, d[j].Value)
    {
      if j < |c| {
        assert v[j] == (c[j].Key, c[j].Value) && old(c[j].Next) == At(c, j + 1);
      }
    }
  }

  /** The unlinking walk of deleteFromTable: `rest` is the chain without the deleted entry. */
  method RemoveFromChain<K(==), V>(head: Entry<K, V>, key: K, ghost c: seq<Entry<K, V>>, ghost v: Chain<K, V>)
    returns (deleted: Entry?<K, V>, head': Entry?<K, V>, ghost rest: seq<Entry<K, V>>, ghost v': Chain<K, V>)
    requires Linked(head, c, v)
    modifies c`Next
    ensures v' == Remove(v, key) && Linked(head', rest, v') && forall j :: 0 <= j < |rest| ==> rest[j] in c
    ensures if deleted == null then Find(v, key) == None else Find(v, key) == Some(deleted.Value)
  {
    assert v[0] == (c[0].Key, c[0].Value) && c[0].Next == At(c, 1);
    if head.Key == key {
      rest, v' := c[1..], v[1..];
      forall j | 0 <= j < |rest|
        ensures rest[j].Next == At(rest, j + 1) && v'[j] == (rest[j].Key, rest[j].Value)
      {
        assert rest[j] == c[j + 1] && c[j + 1].Next == At(c, j + 2) && v[j + 1] == (c[j + 1].Key, c[j + 1].Value);
      }
      return head, head.Next, rest, v';
    }
    var prev := head;
    var curr := prev.Next;
    ghost var j := 1;
    while curr != null && curr.Key != key
      invariant 1 <= j <= |c| && prev == c[j - 1] && curr == At(c, j)
      invariant forall i :: 0 <= i < j ==> v[i].0 != key
      decreases |c| - j
    {
      assert v[j] == (c[j].Key, c[j].Value) && c[j].Next == At(c, j + 1);
      prev := curr;
      curr := curr.Next;
      j := j + 1;
    }
    if curr != null {
      assert v[j] == (c[j].Key, c[j].Value);
      StopAt(v, key, curr.Value, j);
      rest, v' := Bypass(prev, curr, j, c, v);
      return curr, head, rest, v';
    }
    StopNowhere(v, key, head.Value);
    return null, head, c, v;
  }

  method Bypass<K, V>(prev: Entry<K, V>, curr: Entry<K, V>, ghost j: nat, ghost c: seq<Entry<K, V>>, ghost v: Chain<K, V>)
    returns (ghost rest: seq<Entry<K, V>>, ghost v': Chain<K, V>)
    requires 1 <= j < |c| && Linked(c[0], c, v) && prev == c[j - 1] && curr == c[j]
    modifies prev`Next
    ensures rest == c[..j] + c[j + 1..] && v' == v[..j] + v[j + 1..] && Linked(c[0], rest, v')
  {
    assert c[j].Next == At(c, j + 1);
    prev.Next := curr.Next;
    rest, v' := c[..j] + c[j + 1..], v[..j] + v[j + 1..];
    DistinctWithout(c, j);
    forall i | 0 <= i < |rest|
      ensures rest[i].Next == At(rest, i + 1) && v'[i] == (rest[i].Key, rest[i].Value)
    {
      var o := if i < j then i else i + 1;
      assert rest[i] == c[o] && v'[i] == v[o] == (c[o].Key, c[o].Value);
      assert o != j - 1 ==> c[o] != prev && old(c[o].Next) == At(c, o + 1);
    }
  }

  lemma DistinctWithout<K, V>(c: seq<Entry<K, V>>, j: nat)
    requires j < |c| && Distinct(c)
    ensures Distinct(c[..j] + c[j + 1..])
  {
  }

  /** The search loop of GetEntry, from one bucket's first entry. */
  method FindInChain<K(==), V>(head: Entry?<K, V>, key: K, ghost c: seq<Entry<K, V>>, ghost v: Chain<K, V>)
    returns (entry: Entry?<K, V>)
    requires Linked(head, c, v)
    ensures entry == At(c, First(v, key)) && (entry == null <==> Find(v, key) == None)
    ensures entry != null ==> entry in c && entry.Key == key && Find(v, key) == Some(entry.Value)
  {
    var curr := head;
    ghost var j := 0;
    while curr != null && curr.Key != key
      invariant 0 <= j <= |c| && curr == At(c, j)
      invariant forall i :: 0 <= i < j ==> v[i].0 != key
      decreases |c| - j
    {
      assert v[j] == (c[j].Key, c[j].Value) && c[j].Next == At(c, j + 1);
      curr := curr.Next;
      j := j + 1;
    }
    if curr != null {
      assert v[j] == (c[j].Key, c[j].Value);
      StopAt(v, key, curr.Value, j);
    } else if v != [] {
      StopNowhere(v, key, v[0].1);
    }
    return curr;
  }

  // ---------------------------------------------------------------- work on one table

  /** The entries of bucket i: owned nodes, at home in this table, and hashing to i. */
  ghost predicate Homed<K, V>(e: Env<K, V>, tbl: array<Entry?<K, V>>, i: nat, c: seq<Entry<K, V>>,
                              nodes: set<Entry<K, V>>)
    requires 0 < tbl.Length
    reads nodes`home
  {
    forall j {:trigger c[j]} :: 0 <= j < |c| ==> c[j] in nodes && c[j].home == tbl && Bucket(e, c[j].Key, tbl.Length) == i
  }

  /** Bucket i of tbl holds the entries chains[i] and thereby the pairs view[i]. */
  ghost predicate TableOk<K, V>(e: Env<K, V>, tbl: array<Entry?<K, V>>, chains: seq<seq<Entry<K, V>>>,
                                view: seq<Chain<K, V>>, nodes: set<Entry<K, V>>)
    reads tbl, nodes
  {
    && 0 < tbl.Length == |chains| == |view|
    && forall i {:trigger chains[i]} {:trigger view[i]} :: 0 <= i < |chains| ==>
         Homed(e, tbl, i, chains[i], nodes) && Linked(tbl[i], chains[i], view[i])
  }

  /** The same, of every bucket but b. */
  ghost predicate OthersOk<K, V>(e: Env<K, V>, tbl: array<Entry?<K, V>>, chains: seq<seq<Entry<K, V>>>,
                                 view: seq<Chain<K, V>>, nodes: set<Entry<K, V>>, b: nat)
    reads tbl, nodes
  {
    && 0 < tbl.Length == |chains| == |view|
    && forall i {:trigger chains[i]} {:trigger view[i]} :: 0 <= i < |chains| && i != b ==>
         Homed(e, tbl, i, chains[i], nodes) && Linked(tbl[i], chains[i], view[i])
  }

  lemma OtherBuckets<K, V>(e: Env<K, V>, tbl: array<Entry?<K, V>>, b: nat, c: seq<Entry<K, V>>, i: nat,
                           d: seq<Entry<K, V>>, nodes: set<Entry<K, V>>)
    requires 0 < tbl.Length && Homed(e, tbl, b, c, nodes) && Homed(e, tbl, i, d, nodes) && b != i
    ensures forall j :: 0 <= j < |d| ==> d[j] !in c
  {
  }

  /** The work on bucket b: a first entry, an existing entry, or a new last entry. */
  method StoreInBucket<K(==), V>(e: Env<K, V>, tbl: array<Entry?<K, V>>, b: nat, entry: Entry<K, V>, overwrite: bool,
                                 ghost chains: seq<seq<Entry<K, V>>>, ghost view: seq<Chain<K, V>>,
                                 ghost nodes: set<Entry<K, V>>)
    returns (found: bool, r: Entry<K, V>, ghost v': Chain<K, V>)
    requires TableOk(e, tbl, chains, view, nodes) && b < tbl.Length && entry !in chains[b] && entry.Next == null
    modifies tbl, chains[b]`Value, chains[b]`Next
    ensures found == Find(view[b], entry.Key).Some?
    ensures r == if found then At(chains[b], First(view[b], entry.Key)) else entry
    ensures r.Key == entry.Key && (found ==> r in chains[b])
    ensures v' == if found && !overwrite then view[b] else Put(view[b], entry.Key, entry.Value)
    ensures Linked(tbl[b], if found then chains[b] else chains[b] + [entry], v')
    ensures OthersOk(e, tbl, chains, view, nodes, b)
  {
    ghost var c := chains[b];
    assert Homed(e, tbl, b, c, nodes) && Linked(tbl[b], c, view[b]);
    if tbl[b] == null {
      found, r, v' := false, entry, [(entry.Key, entry.Value)];
      tbl[b] := entry;
    } else {
      found, r, v' := StoreInChain(tbl[b], entry, overwrite, c, view[b]);
    }
    forall i | 0 <= i < |chains| && i != b
      ensures Homed(e, tbl, i, chains[i], nodes) && Linked(tbl[i], chains[i], view[i])
    {
      OtherBuckets(e, tbl, b, c, i, chains[i], nodes);
      assert old(Linked(tbl[i], chains[i], view[i]));
    }
  }

  /** The entry on which a search of the table for key stops. */
  ghost function Spot<K, V>(e: Env<K, V>, chains: seq<seq<Entry<K, V>>>, view: seq<Chain<K, V>>, key: K): Entry?<K, V>
    requires 0 < |view| == |chains|
  {
    At(chains[Bucket(e, key, |view|)], First(view[Bucket(e, key, |view|)], key))
  }

  /** The entries with r linked behind those of its bucket. */
  ghost function Linking<K, V>(e: Env<K, V>, chains: seq<seq<Entry<K, V>>>, key: K, r: Entry<K, V>): seq<seq<Entry<K, V>>>
    requires chains != []
  {
    var b := Bucket(e, key, |chains|);
    chains[b := chains[b] + [r]]
  }

  method StoreIn<K(==), V>(e: Env<K, V>, tbl: array<Entry?<K, V>>, key: K, value: V, overwrite: bool,
                           ghost chains: seq<seq<Entry<K, V>>>, ghost view: seq<Chain<K, V>>,
                           ghost nodes: set<Entry<K, V>>)
    returns (found: bool, r: Entry<K, V>, ghost chains': seq<seq<Entry<K, V>>>, ghost view': seq<Chain<K, V>>,
             ghost nodes': set<Entry<K, V>>)
    requires TableOk(e, tbl, chains, view, nodes)
    modifies tbl, chains[Bucket(e, key, tbl.Length)]`Value, chains[Bucket(e, key, tbl.Length)]`Next
    ensures nodes <= nodes' && fresh(nodes' - nodes)
    ensures TableOk(e, tbl, chains', view', nodes')
    ensures found == FindAt(e, view, key).Some? && r in nodes' && r.Key == key && r == Spot(e, chains', view', key)
    ensures view' == if found && !overwrite then view else PutAt(e, view, key, value)
    ensures chains' == if found then chains else Linking(e, chains, key, r)
    ensures !found ==> fresh(r)
  {
    var b := Bucket(e, key, tbl.Length);
    ghost var c := chains[b];
    assert Homed(e, tbl, b, c, nodes);
    var entry := new Entry<K, V>(key, value, tbl);
    nodes' := nodes + {entry};
    chains', view' := chains, view;
    assert Homed(e, tbl, b, c + [entry], nodes') && entry !in c;
    ghost var v';
    found, r, v' := StoreInBucket(e, tbl, b, entry, overwrite, chains, view, nodes);
    StoredAt(e, tbl, key, value, overwrite, chains, view, nodes, found, r, v', nodes');
    if !found {
      chains', view' := Linking(e, chains, key, r), PutAt(e, view, key, value);
    } else if overwrite {
      view' := PutAt(e, view, key, value);
    }
  }

  lemma StoredAt<K, V>(e: Env<K, V>, tbl: array<Entry?<K, V>>, key: K, value: V, overwrite: bool, chains: seq<seq<Entry<K, V>>>,
                       view: seq<Chain<K, V>>, nodes: set<Entry<K, V>>, found: bool, r: Entry<K, V>, v: Chain<K, V>, nodes': set<Entry<K, V>>)
    requires 0 < tbl.Length && OthersOk(e, tbl, chains, view, nodes, Bucket(e, key, tbl.Length)) && nodes <= nodes'
    requires var b := Bucket(e, key, tbl.Length); var c := if found then chains[b] else chains[b] + [r];
      && Homed(e, tbl, b, c, nodes') && Linked(tbl[b], c, v)
      && found == Find(view[b], key).Some? && |view[b]| == |chains[b]| && (found ==> r == At(chains[b], First(view[b], key)))
      && v == if found && !overwrite then view[b] else Put(view[b], key, value)
    ensures var chains', view' := if found then chains else Linking(e, chains, key, r),
                                  if found && !overwrite then view else PutAt(e, view, key, value);
      TableOk(e, tbl, chains', view', nodes') && r == Spot(e, chains', view', key)
  {
    var b := Bucket(e, key, tbl.Length);
    FirstAfterPut(view[b], key, value);
    Rejoin(e, tbl, b, chains, view, nodes, if found then chains[b] else chains[b] + [r], v, nodes');
    assert chains[b := chains[b]] == chains && view[b := view[b]] == view;
  }

  lemma Rejoin<K, V>(e: Env<K, V>, tbl: array<Entry?<K, V>>, b: nat, chains: seq<seq<Entry<K, V>>>, view: seq<Chain<K, V>>,
                     nodes: set<Entry<K, V>>, c: seq<Entry<K, V>>, v: Chain<K, V>, nodes': set<Entry<K, V>>)
    requires OthersOk(e, tbl, chains, view, nodes, b) && b < tbl.Length && nodes <= nodes'
    requires Homed(e, tbl, b, c, nodes') && Linked(tbl[b], c, v)
    ensures TableOk(e, tbl, chains[b := c], view[b := v], nodes')
  {
  }

  /** SetVal on the entry of one chain where the search for its key stops. */
  method OverwriteInChain<K(==), V>(entry: Entry<K, V>, val: V,
                                    ghost head: Entry?<K, V>, ghost c: seq<Entry<K, V>>, ghost v: Chain<K, V>)
    requires Linked(head, c, v) && entry == At(c, First(v, entry.Key))
    modifies entry`Value
    ensures entry.Value == val && Linked(head, c, Put(v, entry.Key, val))
  {
    ghost var j, w := First(v, entry.Key), Put(v, entry.Key, val);
    FirstAfterPut(v, entry.Key, val);
    entry.Value := val;
    forall i | 0 <= i < |c|
      ensures w[i] == (c[i].Key, c[i].Value)
    {
      assert old(v[i] == (c[i].Key, c[i].Value)) && (i != j ==> c[i] != c[j]);
    }
  }

  /** The same on one table. */
  method OverwriteIn<K(==), V>(e: Env<K, V>, ghost tbl: array<Entry?<K, V>>, entry: Entry<K, V>, val: V,
                               ghost chains: seq<seq<Entry<K, V>>>, ghost view: seq<Chain<K, V>>,
                               ghost nodes: set<Entry<K, V>>)
    requires TableOk(e, tbl, chains, view, nodes) && entry == Spot(e, chains, view, entry.Key)
    modifies entry`Value
    ensures TableOk(e, tbl, chains, PutAt(e, view, entry.Key, val), nodes)
    ensures entry in nodes && entry.home == tbl && entry.Value == val
  {
    ghost var b := Bucket(e, entry.Key, tbl.Length);
    ghost var c := chains[b];
    assert Homed(e, tbl, b, c, nodes) && Linked(tbl[b], c, view[b]);
    OverwriteInChain(entry, val, tbl[b], c, view[b]);
    forall i | 0 <= i < |chains| && i != b
      ensures Homed(e, tbl, i, chains[i], nodes) && Linked(tbl[i], chains[i], view[i])
    {
      OtherBuckets(e, tbl, b, c, i, chains[i], nodes);
      assert old(Linked(tbl[i], chains[i], view[i]));
    }
    assert OthersOk(e, tbl, chains, PutAt(e, view, entry.Key, val), nodes, b);
  }

  method RemoveFromBucket<K(==), V>(e: Env<K, V>, tbl: array<Entry?<K, V>>, b: nat, key: K,
                                    ghost chains: seq<seq<Entry<K, V>>>, ghost view: seq<Chain<K, V>>,
                                    ghost nodes: set<Entry<K, V>>)
    returns (deleted: Entry?<K, V>, ghost rest: seq<Entry<K, V>>, ghost v': Chain<K, V>)
    requires TableOk(e, tbl, chains, view, nodes) && b < tbl.Length
    modifies tbl, chains[b]`Next
    ensures v' == Remove(view[b], key) && Linked(tbl[b], rest, v') && forall j :: 0 <= j < |rest| ==> rest[j] in chains[b]
    ensures OthersOk(e, tbl, chains, view, nodes, b)
    ensures if deleted == null then Find(view[b], key) == None else Find(view[b], key) == Some(deleted.Value)
  {
    ghost var c := chains[b];
    assert Homed(e, tbl, b, c, nodes) && Linked(tbl[b], c, view[b]);
    if tbl[b] == null {
      deleted, rest, v' := null, [], [];
    } else {
      var head;
      deleted, head, rest, v' := RemoveFromChain(tbl[b], key, c, view[b]);
      tbl[b] := head;
    }
    forall i | 0 <= i < |chains| && i != b
      ensures Homed(e, tbl, i, chains[i], nodes) && Linked(tbl[i], chains[i], view[i])
    {
      OtherBuckets(e, tbl, b, c, i, chains[i], nodes);
      assert old(Linked(tbl[i], chains[i], view[i]));
    }
  }

  /** deleteFromTable: unlinks the first entry for key and says which it was. */
  method DeleteFromTable<K(==), V>(e: Env<K, V>, tbl: array<Entry?<K, V>>, key: K,
                                   ghost chains: seq<seq<Entry<K, V>>>, ghost view: seq<Chain<K, V>>,
                                   ghost nodes: set<Entry<K, V>>)
    returns (deleted: Entry?<K, V>, ghost chains': seq<seq<Entry<K, V>>>, ghost view': seq<Chain<K, V>>)
    requires TableOk(e, tbl, chains, view, nodes)
    modifies tbl, nodes`Next
    ensures TableOk(e, tbl, chains', view', nodes) && view' == RemoveAt(e, view, key)
    ensures if deleted == null then FindAt(e, view, key) == None else FindAt(e, view, key) == Some(deleted.Value)
    ensures forall x :: x in nodes && x.home != tbl ==> x.Next == old(x.Next)
  {
    var b := Bucket(e, key, tbl.Length);
    ghost var c := chains[b];
    assert Homed(e, tbl, b, c, nodes);
    ghost var rest, v';
    deleted, rest, v' := RemoveFromBucket(e, tbl, b, key, chains, view, nodes);
    chains', view' := chains[b := rest], view[b := v'];
    assert OthersOk(e, tbl, chains', view', nodes, b);
  }

  /** The body of rehashStep's inner loop: entry becomes the first entry of its new bucket. It asks
      nothing of the chains, so it also tells what happens to an entry that already is in that bucket. */
  method PushFront<K, V>(rt: array<Entry?<K, V>>, b: nat, entry: Entry<K, V>) returns (next: Entry?<K, V>)
    requires b < rt.Length
    modifies rt, entry`Next
    ensures next == old(entry.Next)
    ensures entry.Next == old(rt[b]) && rt[b] == entry
    ensures forall i :: 0 <= i < rt.Length && i != b ==> rt[i] == old(rt[i])
  {
    next := entry.Next;
    entry.Next := rt[b];
    rt[b] := entry;
  }

  function PushAt<K, V>(e: Env<K, V>, t: seq<Chain<K, V>>, p: (K, V)): (r: seq<Chain<K, V>>)
    requires t != []
    ensures |r| == |t|
  {
    var b := Bucket(e, p.0, |t|);
    t[b := [p] + t[b]]
  }

  method PushLinked<K, V>(rt: array<Entry?<K, V>>, b: nat, entry: Entry<K, V>,
                          ghost c: seq<Entry<K, V>>, ghost v: Chain<K, V>)
    returns (next: Entry?<K, V>)
    requires b < rt.Length && Linked(rt[b], c, v) && entry !in c
    modifies rt, entry`Next
    ensures next == old(entry.Next) && forall i :: 0 <= i < rt.Length && i != b ==> rt[i] == old(rt[i])
    ensures Linked(rt[b], [entry] + c, [(entry.Key, entry.Value)] + v)
  {
    next := PushFront(rt, b, entry);
    ghost var c', v' := [entry] + c, [(entry.Key, entry.Value)] + v;
    forall j | 0 <= j < |c'|
      ensures c'[j].Next == At(c', j + 1) && v'[j] == (c'[j].Key, c'[j].Value)
    {
      if j > 0 {
        assert c'[j] == c[j - 1] != entry && old(c[j - 1].Next) == At(c, j) && v[j - 1] == (c[j - 1].Key, c[j - 1].Value);
      }
    }
  }

  method MoveEntry<K, V>(e: Env<K, V>, rt: array<Entry?<K, V>>, entry: Entry<K, V>,
                         ghost chains: seq<seq<Entry<K, V>>>, ghost view: seq<Chain<K, V>>, ghost nodes: set<Entry<K, V>>)
    returns (next: Entry?<K, V>, ghost chains': seq<seq<Entry<K, V>>>, ghost view': seq<Chain<K, V>>)
    requires TableOk(e, rt, chains, view, nodes) && entry in nodes && entry.home != rt
    modifies rt, entry`Next, entry`home
    ensures next == old(entry.Next) && entry.home == rt
    ensures TableOk(e, rt, chains', view', nodes) && view' == PushAt(e, view, (entry.Key, entry.Value))
    ensures var b := Bucket(e, entry.Key, rt.Length); chains' == chains[b := [entry] + chains[b]]
  {
    var b := Bucket(e, entry.Key, rt.Length);
    ghost var c, v := chains[b], view[b];
    assert Homed(e, rt, b, c, nodes) && Linked(rt[b], c, v);
    next := PushLinked(rt, b, entry, c, v);
    entry.home := rt;
    chains', view' := chains[b := [entry] + c], view[b := [(entry.Key, entry.Value)] + v];
    forall i | 0 <= i < |chains| && i != b
      ensures Homed(e, rt, i, chains[i], nodes) && Linked(rt[i], chains[i], view[i])
    {
      assert old(Homed(e, rt, i, chains[i], nodes)) && old(Linked(rt[i], chains[i], view[i]));
      assert entry !in chains[i];
    }
    assert OthersOk(e, rt, chains', view', nodes, b);
  }

  /** None of the entries c hashes to bucket i of n. */
  ghost predicate NoneGoes<K, V>(e: Env<K, V>, c: seq<Entry<K, V>>, n: nat, i: nat)
    requires n > 0
  {
    forall j :: 0 <= j < |c| ==> Bucket(e, c[j].Key, n) != i
  }

  /** rehashStep's inner loop over one old bucket. */
  method MoveEntries<K, V>(e: Env<K, V>, head: Entry?<K, V>, rt: array<Entry?<K, V>>,
                           ghost c: seq<Entry<K, V>>, ghost v: Chain<K, V>,
                           ghost chains: seq<seq<Entry<K, V>>>, ghost view: seq<Chain<K, V>>, ghost nodes: set<Entry<K, V>>)
    returns (ghost chains': seq<seq<Entry<K, V>>>, ghost view': seq<Chain<K, V>>)
    requires Linked(head, c, v) && TableOk(e, rt, chains, view, nodes)
    requires forall j :: 0 <= j < |c| ==> c[j] in nodes && c[j].home != rt
    modifies rt, c`Next, c`home
    ensures TableOk(e, rt, chains', view', nodes) && view' == MoveChain(e, v, view)
    ensures forall i :: 0 <= i < |chains| && NoneGoes(e, c, |chains|, i) ==> chains'[i] == chains[i]
  {
    var entries := head;
    chains', view' := chains, view;
    ghost var j := 0;
    while entries != null
      invariant 0 <= j <= |c| && entries == At(c, j)
      invariant TableOk(e, rt, chains', view', nodes)
      invariant forall i {:trigger c[i].Next} {:trigger c[i].home} ::
        j <= i < |c| ==> c[i].Next == At(c, i + 1) && c[i].home != rt
      invariant MoveChain(e, v[j..], view') == MoveChain(e, v, view)
      invariant forall i :: 0 <= i < |chains| && NoneGoes(e, c, |chains|, i) ==> chains'[i] == chains[i]
      decreases |c| - j
    {
      assert v[j] == (c[j].Key, c[j].Value) && c[j].Next == At(c, j + 1) && c[j].home != rt;
      MoveChainFirst(e, v, j, view');
      entries, chains', view' := MoveEntry(e, rt, entries, chains', view', nodes);
      j := j + 1;
    }
  }

  lemma MoveChainFirst<K, V>(e: Env<K, V>, c: Chain<K, V>, j: nat, rt: seq<Chain<K, V>>)
    requires j < |c| && rt != []
    ensures MoveChain(e, c[j..], rt) == MoveChain(e, c[j + 1..], PushAt(e, rt, c[j]))
  {
    assert c[j..][1..] == c[j + 1..];
  }

  /** Bucket b of tbl holds the entries c, all but the last at home there; the last is r. */
  ghost predicate EndsIn<K, V>(e: Env<K, V>, tbl: array<Entry?<K, V>>, b: nat, c: seq<Entry<K, V>>, v: Chain<K, V>,
                               nodes: set<Entry<K, V>>, r: Entry<K, V>)
    requires b < tbl.Length
    reads tbl, nodes
  {
    && c != [] && c[|c| - 1] == r && r in nodes
    && Homed(e, tbl, b, c[..|c| - 1], nodes)
    && (forall j :: 0 <= j < |c| ==> c[j] in nodes)
    && Linked(tbl[b], c, v)
  }

  /** The other table, or one that shares the entry: there it ends the chain of its bucket. */
  ghost predicate BesideOk<K, V>(e: Env<K, V>, tbl: array<Entry?<K, V>>, chains: seq<seq<Entry<K, V>>>,
                                 view: seq<Chain<K, V>>, nodes: set<Entry<K, V>>, shared: Entry?<K, V>)
    reads tbl, nodes
  {
    if shared == null then TableOk(e, tbl, chains, view, nodes)
    else
      && 0 < tbl.Length
      && var b := Bucket(e, shared.Key, tbl.Length);
         OthersOk(e, tbl, chains, view, nodes, b) && EndsIn(e, tbl, b, chains[b], view[b], nodes, shared)
  }

  /** StoreIn on one of two tables leaves the other as it was, also one that shares an entry of another bucket. */
  method StoreBeside<K(==), V>(e: Env<K, V>, tbl: array<Entry?<K, V>>, key: K, value: V, overwrite: bool,
                               ghost chains: seq<seq<Entry<K, V>>>, ghost view: seq<Chain<K, V>>,
                               ghost other: array<Entry?<K, V>>, ghost ochains: seq<seq<Entry<K, V>>>,
                               ghost oview: seq<Chain<K, V>>, ghost nodes: set<Entry<K, V>>, ghost shared: Entry?<K, V>)
    returns (found: bool, r: Entry<K, V>, ghost chains': seq<seq<Entry<K, V>>>, ghost view': seq<Chain<K, V>>,
             ghost nodes': set<Entry<K, V>>)
    requires other != tbl && TableOk(e, tbl, chains, view, nodes) && BesideOk(e, other, ochains, oview, nodes, shared)
    requires shared != null ==> Bucket(e, shared.Key, tbl.Length) != Bucket(e, key, tbl.Length)
    modifies tbl, chains[Bucket(e, key, tbl.Length)]`Value, chains[Bucket(e, key, tbl.Length)]`Next
    ensures nodes <= nodes' && fresh(nodes' - nodes)
    ensures TableOk(e, tbl, chains', view', nodes') && BesideOk(e, other, ochains, oview, nodes', shared)
    ensures found == FindAt(e, view, key).Some? && r in nodes' && r.Key == key && r == Spot(e, chains', view', key)
    ensures view' == if found && !overwrite then view else PutAt(e, view, key, value)
    ensures chains' == if found then chains else Linking(e, chains, key, r)
    ensures !found ==> fresh(r)
  {
    ghost var b := Bucket(e, key, tbl.Length);
    assert Homed(e, tbl, b, chains[b], nodes);
    found, r, chains', view', nodes' := StoreIn(e, tbl, key, value, overwrite, chains, view, nodes);
    ghost var ob := if shared == null then |ochains| else Bucket(e, shared.Key, other.Length);
    assert shared != null ==> old(OthersOk(e, other, ochains, oview, nodes, ob));
    forall i | 0 <= i < |ochains| && i != ob
      ensures Homed(e, other, i, ochains[i], nodes') && Linked(other[i], ochains[i], oview[i])
    {
      assert old(Homed(e, other, i, ochains[i], nodes)) && old(Linked(other[i], ochains[i], oview[i]));
    }
    if shared == null {
      assert TableOk(e, other, ochains, oview, nodes');
    } else {
      ghost var c := ochains[ob];
      assert OthersOk(e, other, ochains, oview, nodes', ob);
      assert old(EndsIn(e, other, ob, c, oview[ob], nodes, shared));
      assert old(Linked(other[ob], c, oview[ob])) && old(Homed(e, other, ob, c[..|c| - 1], nodes));
      assert forall j :: 0 <= j < |c| - 1 ==> c[..|c| - 1][j] == c[j];
      assert Linked(other[ob], c, oview[ob]);
    }
  }

  /** OverwriteIn leaves another table as it was, but for a shared entry, which is overwritten there as well. */
  method OverwriteBeside<K(==), V>(e: Env<K, V>, ghost tbl: array<Entry?<K, V>>, entry: Entry<K, V>, val: V,
                                   ghost chains: seq<seq<Entry<K, V>>>, ghost view: seq<Chain<K, V>>,
                                   ghost other: array<Entry?<K, V>>, ghost ochains: seq<seq<Entry<K, V>>>,
                                   ghost oview: seq<Chain<K, V>>, ghost nodes: set<Entry<K, V>>, ghost shared: Entry?<K, V>)
    requires other != tbl && TableOk(e, tbl, chains, view, nodes) && entry == Spot(e, chains, view, entry.Key)
    requires BesideOk(e, other, ochains, oview, nodes, shared)
    requires shared != null ==> shared == entry == Spot(e, ochains, oview, entry.Key)
    modifies entry`Value
    ensures TableOk(e, tbl, chains, PutAt(e, view, entry.Key, val), nodes)
    ensures BesideOk(e, other, ochains, if shared == null then oview else PutAt(e, oview, entry.Key, val), nodes, shared)
  {
    OverwriteIn(e, tbl, entry, val, chains, view, nodes);
    if shared == null {
      forall i | 0 <= i < |ochains|
        ensures Homed(e, other, i, ochains[i], nodes) && Linked(other[i], ochains[i], oview[i])
      {
        assert old(Homed(e, other, i, ochains[i], nodes)) && old(Linked(other[i], ochains[i], oview[i]));
      }
    } else {
      ghost var b, oview' := Bucket(e, entry.Key, other.Length), PutAt(e, oview, entry.Key, val);
      assert old(OthersOk(e, other, ochains, oview, nodes, b)) && old(EndsIn(e, other, b, ochains[b], oview[b], nodes, entry));
      forall i | 0 <= i < |ochains| && i != b
        ensures Homed(e, other, i, ochains[i], nodes) && Linked(other[i], ochains[i], oview'[i])
      {
        assert old(Homed(e, other, i, ochains[i], nodes)) && old(Linked(other[i], ochains[i], oview[i]));
      }
      assert OthersOk(e, other, ochains, oview', nodes, b);
      assert old(Linked(other[b], ochains[b], oview[b])) && old(Homed(e, other, b, ochains[b][..|ochains[b]| - 1], nodes));
      LastOverwritten(entry, other[b], ochains[b], oview[b]);
    }
  }

  /** The last entry of a chain has a new value. */
  lemma LastOverwritten<K, V>(entry: Entry<K, V>, head: Entry?<K, V>, c: seq<Entry<K, V>>, v: Chain<K, V>)
    requires c != [] && |c| == |v| && Distinct(c) && head == c[0] && c[|c| - 1] == entry == At(c, First(v, entry.Key))
    requires forall j {:trigger c[j].Next} :: 0 <= j < |c| ==> c[j].Next == At(c, j + 1)
    requires forall j {:trigger v[j]} :: 0 <= j < |c| - 1 ==> v[j] == (c[j].Key, c[j].Value)
    ensures Linked(head, c, Put(v, entry.Key, entry.Value))
  {
    FirstAfterPut(v, entry.Key, entry.Value);
  }

  method DeleteBeside<K(==), V>(e: Env<K, V>, tbl: array<Entry?<K, V>>, key: K,
                                ghost chains: seq<seq<Entry<K, V>>>, ghost view: seq<Chain<K, V>>,
                                ghost other: array<Entry?<K, V>>, ghost ochains: seq<seq<Entry<K, V>>>,
                                ghost oview: seq<Chain<K, V>>, ghost nodes: set<Entry<K, V>>)
    returns (deleted: Entry?<K, V>, ghost chains': seq<seq<Entry<K, V>>>, ghost view': seq<Chain<K, V>>)
    requires other != tbl && TableOk(e, tbl, chains, view, nodes) && TableOk(e, other, ochains, oview, nodes)
    modifies tbl, nodes`Next
    ensures TableOk(e, tbl, chains', view', nodes) && TableOk(e, other, ochains, oview, nodes)
    ensures view' == RemoveAt(e, view, key)
    ensures if deleted == null then FindAt(e, view, key) == None else FindAt(e, view, key) == Some(deleted.Value)
  {
    deleted, chains', view' := DeleteFromTable(e, tbl, key, chains, view, nodes);
    forall i | 0 <= i < |ochains|
      ensures Homed(e, other, i, ochains[i], nodes) && Linked(other[i], ochains[i], oview[i])
    {
      assert old(Homed(e, other, i, ochains[i], nodes)) && old(Linked(other[i], ochains[i], oview[i]));
    }
  }

  /** rehashStep's work on one old bucket. */
  method MoveBucket<K, V>(e: Env<K, V>, tbl: array<Entry?<K, V>>, rt: array<Entry?<K, V>>, i: nat,
                          ghost chains: seq<seq<Entry<K, V>>>, ghost view: seq<Chain<K, V>>,
                          ghost rchains: seq<seq<Entry<K, V>>>, ghost rview: seq<Chain<K, V>>,
                          ghost nodes: set<Entry<K, V>>)
    returns (ghost rchains': seq<seq<Entry<K, V>>>, ghost rview': seq<Chain<K, V>>)
    requires tbl != rt && i < tbl.Length
    requires TableOk(e, tbl, chains, view, nodes) && TableOk(e, rt, rchains, rview, nodes)
    modifies tbl, rt, nodes`Next, nodes`home
    ensures TableOk(e, tbl, chains[i := []], view[i := []], nodes)
    ensures TableOk(e, rt, rchains', rview', nodes) && rview' == MoveChain(e, view[i], rview)
  {
    ghost var c := chains[i];
    assert Homed(e, tbl, i, c, nodes) && Linked(tbl[i], c, view[i]);
    var entries := tbl[i];
    tbl[i] := null;
    rchains', rview' := MoveEntries(e, entries, rt, c, view[i], rchains, rview, nodes);
    forall k | 0 <= k < |chains| && k != i
      ensures Homed(e, tbl, k, chains[k], nodes) && Linked(tbl[k], chains[k], view[k])
    {
      assert old(Homed(e, tbl, k, chains[k], nodes)) && old(Linked(tbl[k], chains[k], view[k]));
    }
    EmptiedOk(e, tbl, i, chains, view, nodes);
  }

  lemma EmptiedOk<K, V>(e: Env<K, V>, tbl: array<Entry?<K, V>>, i: nat, chains: seq<seq<Entry<K, V>>>,
                        view: seq<Chain<K, V>>, nodes: set<Entry<K, V>>)
    requires OthersOk(e, tbl, chains, view, nodes, i) && i < tbl.Length && tbl[i] == null
    ensures TableOk(e, tbl, chains[i := []], view[i := []], nodes)
  {
  }

  /** The second part of findPositionForInsert: an entry that the new table has already goes through the walk
      of the old one, which ends at the old entry for its key or links it behind the last one. */
  method StoreAgain<K(==), V>(e: Env<K, V>, tbl: array<Entry?<K, V>>, entry: Entry<K, V>,
                              ghost chains: seq<seq<Entry<K, V>>>, ghost view: seq<Chain<K, V>>,
                              ghost rt: array<Entry?<K, V>>, ghost rchains: seq<seq<Entry<K, V>>>,
                              ghost rview: seq<Chain<K, V>>, ghost nodes: set<Entry<K, V>>)
    returns (found: bool, r: Entry<K, V>, ghost chains': seq<seq<Entry<K, V>>>, ghost view': seq<Chain<K, V>>)
    requires tbl != rt && TableOk(e, tbl, chains, view, nodes) && TableOk(e, rt, rchains, rview, nodes)
    requires entry in nodes && entry.home == rt && entry.Next == null
    modifies tbl, chains[Bucket(e, entry.Key, tbl.Length)]`Value, chains[Bucket(e, entry.Key, tbl.Length)]`Next
    ensures TableOk(e, rt, rchains, rview, nodes) && found == FindAt(e, view, entry.Key).Some?
    ensures found ==> TableOk(e, tbl, chains, view, nodes) && r == Spot(e, chains, view, entry.Key)
    ensures if found then chains' == chains && view' == view
            else r == entry && chains' == Linking(e, chains, entry.Key, entry) && view' == PutAt(e, view, entry.Key, entry.Value)
    ensures !found ==> var b := Bucket(e, entry.Key, tbl.Length);
      OthersOk(e, tbl, chains', view', nodes, b) && EndsIn(e, tbl, b, chains'[b], view'[b], nodes, entry)
  {
    var b := Bucket(e, entry.Key, tbl.Length);
    ghost var c := chains[b];
    assert Homed(e, tbl, b, c, nodes) && Linked(tbl[b], c, view[b]);
    ghost var v';
    found, r, v' := StoreInBucket(e, tbl, b, entry, false, chains, view, nodes);
    chains', view' := if found then chains else chains[b := c + [entry]], view[b := v'];
    assert !found ==> (c + [entry])[..|c|] == c;
    forall i | 0 <= i < |rchains|
      ensures Homed(e, rt, i, rchains[i], nodes) && Linked(rt[i], rchains[i], rview[i])
    {
      assert old(Homed(e, rt, i, rchains[i], nodes)) && old(Linked(rt[i], rchains[i], rview[i]));
    }
    assert OthersOk(e, tbl, chains', view', nodes, b);
  }

  // ---------------------------------------------------------------- the table

  /** What the buckets of one table hold: the linked entries, and their pairs. */
  datatype Content<K, V> = Content(chains: seq<seq<Entry<K, V>>>, view: seq<Chain<K, V>>)

  class HashTable<K(==), V> {
    const env: Env<K, V>
    var Table: array<Entry?<K, V>>
    var Size: int
    var RehashingIdx: int   // -1 if not rehashing
    var RehashingSize: int
    var RehashingTbl: array?<Entry?<K, V>>
    var Count: int
    var usedMemory: int     // this table's share of the global counter

    ghost var nodes: set<Entry<K, V>>
    ghost var content: Content<K, V>
    ghost var rcontent: Content<K, V>

    ghost function View(): State<K, V>
      reads this
    {
      State(content.view, RehashingIdx, rcontent.view, Count, usedMemory)
    }

    /** Both tables are linked, also when a migration has just moved the last bucket. */
    ghost predicate LinkedUp()
      reads this`Table, this`Size, this`RehashingIdx, this`RehashingSize, this`RehashingTbl
      reads this`nodes, this`content, this`rcontent, Table, RehashingTbl, nodes
    {
      && Size == Table.Length && TableOk(env, Table, content.chains, content.view, nodes)
      && (RehashingIdx == -1 ==> RehashingTbl == null && RehashingSize == 0 && rcontent.view == [] && rcontent.chains == [])
      && (RehashingIdx != -1 ==>
            && RehashingTbl != null && RehashingTbl != Table && RehashingSize == RehashingTbl.Length
            && TableOk(env, RehashingTbl, rcontent.chains, rcontent.view, nodes))
    }

    ghost predicate Valid()
      reads this, Table, RehashingTbl, nodes
    {
      LinkedUp() && Shape(View())
    }

    constructor (e: Env<K, V>, initSize: nat)
      requires 0 < initSize
      ensures Valid() && env == e && View() == State(seq(initSize, _ => []), -1, [], 0, 0)
      ensures fresh(Table) && nodes == {}
    {
      env := e;
      Table := new Entry?<K, V>[initSize](_ => null);
      Size, RehashingIdx, RehashingSize, RehashingTbl := initSize, -1, 0, null;
      Count, usedMemory := 0, 0;
      nodes, content, rcontent := {}, Content(seq(initSize, _ => []), seq(initSize, _ => [])), Content([], []);
    }

    method StartRehashing()
      requires RehashingIdx < 0 ==> Valid()
      modifies this`RehashingIdx, this`RehashingSize, this`RehashingTbl, this`rcontent
      ensures View() == Dict.StartRehashing(old(View())) && (old(Valid()) ==> Valid())
      ensures old(RehashingIdx) >= 0 ==> RehashingTbl == old(RehashingTbl) && rcontent == old(rcontent)
      ensures old(RehashingIdx) >= 0 ==> RehashingIdx == old(RehashingIdx) && RehashingSize == old(RehashingSize)
      ensures RehashingTbl == old(RehashingTbl) || fresh(RehashingTbl)
    {
      if RehashingIdx < 0 {
        RehashingSize := Size * 2;
        RehashingTbl := new Entry?<K, V>[RehashingSize](_ => null);
        RehashingIdx := 0;
        rcontent := Content(seq(RehashingSize, _ => []), seq(RehashingSize, _ => []));
      }
    }

    /** One turn of rehashStep's outer loop. */
    method MigrateBucket()
      requires LinkedUp() && 0 <= RehashingIdx < Size
      modifies this`RehashingIdx, this`content, this`rcontent
      modifies Table, RehashingTbl, nodes`Next, nodes`home
      ensures LinkedUp() && View() == Dict.MigrateBucket(env, old(View()))
    {
      ghost var i, c, r := RehashingIdx, content, rcontent;
      ghost var chains, view :=
        MoveBucket(env, Table, RehashingTbl, RehashingIdx, c.chains, c.view, r.chains, r.view, nodes);
      content, rcontent := Content(c.chains[i := []], c.view[i := []]), Content(chains, view);
      RehashingIdx := RehashingIdx + 1;
    }

    /** rehashStep's outer loop. */
    method MigrateBuckets(n: nat)
      requires LinkedUp() && 0 <= RehashingIdx <= Size
      modifies this`RehashingIdx, this`content, this`rcontent
      modifies Table, RehashingTbl, nodes`Next, nodes`home
      ensures LinkedUp() && View() == Dict.Migrate(env, old(View()), n)
    {
      ghost var goal := Dict.Migrate(env, View(), n);
      var i := 0;
      while i < n && RehashingIdx < Size
        invariant 0 <= i <= n && 0 <= RehashingIdx <= Size && LinkedUp()
        invariant Dict.Migrate(env, View(), n - i) == goal
      {
        MigrateBucket();
        i := i + 1;
      }
    }

    /** The swap at the end of rehashStep. */
    method FinishRehashing()
      requires LinkedUp() && 0 <= RehashingIdx <= Size
      modifies this`Table, this`Size, this`RehashingIdx, this`RehashingSize, this`RehashingTbl, this`content, this`rcontent
      ensures LinkedUp() && View() == Dict.Finish(old(View()))
      ensures Table == old(Table) || Table == old(RehashingTbl)
      ensures RehashingTbl == null || RehashingTbl == old(RehashingTbl)
    {
      if RehashingIdx == Size {
        Table, Size := RehashingTbl, RehashingSize;
        content, rcontent := rcontent, Content([], []);
        RehashingTbl, RehashingIdx, RehashingSize := null, -1, 0;
      }
    }

    method RehashStep()
      requires Valid() && 0 <= RehashingIdx
      modifies this`Table, this`Size, this`RehashingIdx, this`RehashingSize, this`RehashingTbl, this`content, this`rcontent
      modifies Table, RehashingTbl, nodes`Next, nodes`home
      ensures Valid() && View() == Dict.RehashStep(env, old(View()))
      ensures Table == old(Table) || Table == old(RehashingTbl)
      ensures RehashingTbl == null || RehashingTbl == old(RehashingTbl)
    {
      StepKeepsShape(env, View());
      MigrateBuckets(REHASHING_BUCKETS);
      FinishRehashing();
    }

    /** The entry for key in the old table, or in the only one. */
    ghost function InOld(key: K): Entry?<K, V>
      requires 0 < |content.view| == |content.chains|
      reads this`content
    {
      Spot(env, content.chains, content.view, key)
    }

    ghost function InNew(key: K): Entry?<K, V>
      requires |rcontent.view| == |rcontent.chains|
      reads this`rcontent
    {
      if rcontent.view == [] then null else Spot(env, rcontent.chains, rcontent.view, key)
    }

    /** GetEntry: the new table first while rehashing, then the old one. */
    method GetEntry(key: K) returns (entry: Entry?<K, V>, exist: bool)
      requires Valid()
      ensures exist == (entry != null) == Lookup(env, View(), key).Some?
      ensures entry == if InNew(key) != null then InNew(key) else InOld(key)
      ensures exist ==> entry in nodes && entry.Key == key && Lookup(env, View(), key) == Some(entry.Value)
    {
      if RehashingIdx >= 0 {
        var newIndex := Bucket(env, key, RehashingSize);
        assert Homed(env, RehashingTbl, newIndex, rcontent.chains[newIndex], nodes);
        entry := FindInChain(RehashingTbl[newIndex], key, rcontent.chains[newIndex], rcontent.view[newIndex]);
        if entry != null {
          return entry, true;
        }
      }
      var index := Bucket(env, key, Size);
      assert Homed(env, Table, index, content.chains[index], nodes);
      entry := FindInChain(Table[index], key, content.chains[index], content.view[index]);
      return entry, entry != null;
    }

    /** The search and store of Set, or of AddRaw when not overwriting, on the new table. */
    method StoreInNew(key: K, value: V, overwrite: bool) returns (found: bool, r: Entry<K, V>)
      requires LinkedUp() && RehashingIdx != -1
      modifies this`nodes, this`rcontent, RehashingTbl, nodes`Value, nodes`Next
      ensures LinkedUp() && found == FindAt(env, old(rcontent).view, key).Some? && r in nodes && r.Key == key
      ensures rcontent.view == if found && !overwrite then old(rcontent).view else PutAt(env, old(rcontent).view, key, value)
      ensures r == InNew(key)
      ensures !found ==> fresh(r) && rcontent.chains == Linking(env, old(rcontent).chains, key, r)
      ensures old(nodes) <= nodes && fresh(nodes - old(nodes))
    {
      ghost var chains, view, ns;
      ghost var b := Bucket(env, key, RehashingSize);
      assert Homed(env, RehashingTbl, b, rcontent.chains[b], nodes);
      found, r, chains, view, ns := StoreBeside(env, RehashingTbl, key, value, overwrite, rcontent.chains, rcontent.view,
                                                Table, content.chains, content.view, nodes, null);
      nodes, rcontent := ns, Content(chains, view);
    }

    /** The same on the only table. */
    method StoreInOld(key: K, value: V, overwrite: bool) returns (found: bool, r: Entry<K, V>)
      requires LinkedUp() && RehashingIdx == -1
      modifies this`nodes, this`content, Table, nodes`Value, nodes`Next
      ensures LinkedUp() && found == FindAt(env, old(content).view, key).Some? && r in nodes && r.Key == key
      ensures content.view == if found && !overwrite then old(content).view else PutAt(env, old(content).view, key, value)
      ensures r == InOld(key)
      ensures old(nodes) <= nodes && fresh(nodes - old(nodes))
    {
      ghost var chains, view, ns;
      ghost var b := Bucket(env, key, Size);
      assert Homed(env, Table, b, content.chains[b], nodes);
      found, r, chains, view, ns := StoreIn(env, Table, key, value, overwrite, content.chains, content.view, nodes);
      nodes, content := ns, Content(chains, view);
    }

    /** Set during a migration, in the new table only. */
    method SetInNew(key: K, value: V)
      requires Valid() && RehashingIdx >= 0
      modifies this`nodes, this`rcontent, this`Count, this`usedMemory, RehashingTbl, nodes`Value, nodes`Next
      ensures LinkedUp() && View() == Dict.Store(env, old(View()), key, value)
      ensures old(nodes) <= nodes && fresh(nodes - old(nodes))
    {
      var found, r := StoreInNew(key, value, true);
      Charge(if found then 0 else 1, if found then 0 else env.keyMem(key) + env.valMem(value));
    }

    /** Set in the only table; an overwrite is charged once more. */
    method SetInOld(key: K, value: V)
      requires Valid() && RehashingIdx == -1
      modifies this`nodes, this`content, this`Count, this`usedMemory, Table, nodes`Value, nodes`Next
      ensures LinkedUp() && View() == Dict.Store(env, old(View()), key, value)
      ensures old(nodes) <= nodes && fresh(nodes - old(nodes))
    {
      var found, r := StoreInOld(key, value, true);
      Charge(if found then 0 else 1, env.keyMem(key) + env.valMem(value));
    }

    /** h.Count++ and IncreaseUsedMemory. */
    method Charge(entries: int, memory: int)
      requires LinkedUp()
      modifies this`Count, this`usedMemory
      ensures LinkedUp() && Count == old(Count) + entries && usedMemory == old(usedMemory) + memory
    {
      Count := Count + entries;
      usedMemory := usedMemory + memory;
    }

    method Set(key: K, value: V)
      requires Valid()
      modifies this, Table, RehashingTbl, nodes
      ensures Valid() && View() == Dict.Set(env, old(View()), key, value)
      ensures Table == old(Table) || Table == old(RehashingTbl)
      ensures RehashingTbl == null || RehashingTbl == old(RehashingTbl) || fresh(RehashingTbl)
      ensures old(nodes) <= nodes && fresh(nodes - old(nodes))
    {
      SetKeepsShape(env, View(), key, value);
      StepIfRehashing();
      if RehashingIdx >= 0 {
        SetInNew(key, value);
      } else {
        SetInOld(key, value);
      }
      GrowIfLoaded();
    }

    /** The deferred check of Set. */
    method GrowIfLoaded()
      requires RehashingIdx < 0 ==> Valid()
      modifies this`RehashingIdx, this`RehashingSize, this`RehashingTbl, this`rcontent
      ensures View() == Dict.GrowIfLoaded(old(View())) && (old(Valid()) ==> Valid())
      ensures old(RehashingIdx) >= 0 ==> RehashingTbl == old(RehashingTbl) && rcontent == old(rcontent)
      ensures old(RehashingIdx) >= 0 ==> RehashingIdx == old(RehashingIdx) && RehashingSize == old(RehashingSize)
      ensures RehashingTbl == old(RehashingTbl) || fresh(RehashingTbl)
    {
      if 10 * Count > 7 * Size {
        StartRehashing();
      }
    }

    /** findPositionForInsert once its migration step is done, on a call that writes one table only: the only
        one, or the new one where the key's bucket is in use. */
    method AddEntry(key: K, zero: V) returns (r: Entry<K, V>, existed: bool)
      requires Valid()
      requires RehashingIdx >= 0 ==> rcontent.view[Bucket(env, key, RehashingSize)] != []
      modifies this`nodes, this`content, this`rcontent, this`Count, this`usedMemory
      modifies Table, RehashingTbl, nodes`Value, nodes`Next
      ensures LinkedUp() && View() == Dict.AddTo(env, old(View()), key, zero) && r in nodes && r.Key == key
      ensures old(nodes) <= nodes && fresh(nodes - old(nodes))
      ensures existed <==> old(RehashingIdx) >= 0 || old(content).view[Bucket(env, key, Size)] != []
      ensures r == if RehashingIdx < 0 then InOld(key) else InNew(key)
    {
      var found, index := false, Bucket(env, key, Size);
      if RehashingIdx >= 0 {
        found, r := StoreInNew(key, zero, false);
        existed := true;
      } else {
        assert Linked(Table[index], content.chains[index], content.view[index]);
        existed := Table[index] != null;
        found, r := StoreInOld(key, zero, false);
      }
      Charge(if found then 0 else 1, if found then 0 else env.keyMem(key));
    }

    /** r is linked in both tables: it is the whole of its new bucket and the last of its old one. All else
        is as it should be. */
    ghost predicate Doubled(r: Entry<K, V>)
      reads this`Table, this`Size, this`RehashingIdx, this`RehashingSize, this`RehashingTbl
      reads this`nodes, this`content, this`rcontent, Table, RehashingTbl, nodes
    {
      && Size == Table.Length && 0 <= RehashingIdx <= Size
      && RehashingTbl != null && RehashingTbl != Table && RehashingSize == RehashingTbl.Length == 2 * Size
      && TableOk(env, RehashingTbl, rcontent.chains, rcontent.view, nodes)
      && rcontent.chains[Bucket(env, r.Key, RehashingSize)] == [r]
      && OthersOk(env, Table, content.chains, content.view, nodes, Bucket(env, r.Key, Size))
      && EndsIn(env, Table, Bucket(env, r.Key, Size), content.chains[Bucket(env, r.Key, Size)],
                content.view[Bucket(env, r.Key, Size)], nodes, r)
    }

    /** findPositionForInsert once its migration step is done, where the key's new bucket is empty: the new
        entry goes there, and on into the old table, which returns its entry for the key or links the new one
        a second time. */
    method AddToEmpty(key: K, zero: V) returns (r: Entry<K, V>, existed: bool, found: bool)
      requires Valid() && RehashingIdx >= 0 && rcontent.view[Bucket(env, key, RehashingSize)] == []
      modifies this`nodes, this`content, this`rcontent, this`Count, this`usedMemory
      modifies Table, RehashingTbl, nodes`Value, nodes`Next
      ensures found == FindAt(env, old(content).view, key).Some? && r in nodes && r.Key == key
      ensures if found then LinkedUp() else Doubled(r)
      ensures content.view == if found then old(content).view else PutAt(env, old(content).view, key, zero)
      ensures rcontent.view == PutAt(env, old(rcontent).view, key, zero)
      ensures Count == old(Count) + if found then 1 else 2
      ensures usedMemory == old(usedMemory) + if found then env.keyMem(key) else 2 * env.keyMem(key)
      ensures r == InOld(key)
      ensures old(nodes) <= nodes && fresh(nodes - old(nodes))
      ensures existed <==> old(content).view[Bucket(env, key, Size)] != []
    {
      var index := Bucket(env, key, Size);
      assert Linked(Table[index], content.chains[index], content.view[index]);
      existed := Table[index] != null;
      var entry := StoreInEmpty(key, zero);
      found, r := LinkOn(entry);
      if !found {
        ChargeAgain(r);
      }
    }

    method ChargeAgain(r: Entry<K, V>)
      requires Doubled(r)
      modifies this`Count, this`usedMemory
      ensures Doubled(r) && Count == old(Count) + 1 && usedMemory == old(usedMemory) + env.keyMem(r.Key)
    {
      Count := Count + 1;
      usedMemory := usedMemory + env.keyMem(r.Key);
    }

    /** The new entry becomes the first of its empty new bucket. */
    method StoreInEmpty(key: K, zero: V) returns (entry: Entry<K, V>)
      requires Valid() && RehashingIdx >= 0 && rcontent.view[Bucket(env, key, RehashingSize)] == []
      modifies this`nodes, this`rcontent, this`Count, this`usedMemory, RehashingTbl, nodes`Value, nodes`Next
      ensures LinkedUp() && rcontent.view == PutAt(env, old(rcontent).view, key, zero)
      ensures entry in nodes && entry.Key == key && entry.Value == zero
      ensures rcontent.chains[Bucket(env, key, RehashingSize)] == [entry]
      ensures Count == old(Count) + 1 && usedMemory == old(usedMemory) + env.keyMem(key)
      ensures old(nodes) <= nodes && fresh(nodes - old(nodes))
    {
      var b := Bucket(env, key, RehashingSize);
      assert Linked(RehashingTbl[b], rcontent.chains[b], rcontent.view[b]);
      var found;
      found, entry := StoreInNew(key, zero, false);
      assert rcontent.view[b] == [(key, zero)];
      assert Linked(RehashingTbl[b], rcontent.chains[b], rcontent.view[b]);
      Charge(1, env.keyMem(key));
    }

    /** The walk of the old table that follows: it finds an entry for the key, or links the new one again. */
    method LinkOn(entry: Entry<K, V>) returns (found: bool, r: Entry<K, V>)
      requires LinkedUp() && 0 <= RehashingIdx < Size && RehashingSize == 2 * Size && entry in nodes
      requires rcontent.chains[Bucket(env, entry.Key, RehashingSize)] == [entry]
      modifies this`content, Table, nodes`Value, nodes`Next
      ensures found == FindAt(env, old(content).view, entry.Key).Some? && r in nodes && r.Key == entry.Key
      ensures if found then LinkedUp() else Doubled(entry) && r == entry
      ensures content.view == if found then old(content).view else PutAt(env, old(content).view, entry.Key, old(entry.Value))
      ensures r == InOld(entry.Key)
    {
      var b, index := Bucket(env, entry.Key, RehashingSize), Bucket(env, entry.Key, Size);
      assert Homed(env, RehashingTbl, b, rcontent.chains[b], nodes) && rcontent.chains[b][0] == entry;
      assert Linked(RehashingTbl[b], rcontent.chains[b], rcontent.view[b]);
      assert Homed(env, Table, index, content.chains[index], nodes);
      FirstAfterPut(content.view[index], entry.Key, entry.Value);
      ghost var c := content;
      ghost var chains, view;
      if FindAt(env, c.view, entry.Key) == None {
        content := Content(Linking(env, c.chains, entry.Key, entry), PutAt(env, c.view, entry.Key, entry.Value));
      }
      found, r, chains, view := StoreAgain(env, Table, entry, c.chains, c.view, RehashingTbl, rcontent.chains, rcontent.view, nodes);
      assert found ==> Homed(env, Table, index, content.chains[index], nodes);
    }

    /** AddRaw. A call that links twice leaves the table doubled, any other one valid. */
    method AddRaw(key: K, zero: V) returns (r: Entry<K, V>, existed: bool)
      requires Valid()
      modifies this, Table, RehashingTbl, nodes
      ensures View() == Dict.AddRaw(env, old(View()), key, zero) && r in nodes && r.Key == key
      ensures if LinksTwice(env, old(View()), key) then Doubled(r) else Valid()
      ensures r == if ReturnsNew(env, old(View()), key) then InNew(key) else InOld(key)
      ensures existed == Reported(env, old(View()), key)
      ensures Table == old(Table) || Table == old(RehashingTbl)
      ensures RehashingTbl == null || RehashingTbl == old(RehashingTbl) || fresh(RehashingTbl)
      ensures old(nodes) <= nodes && fresh(nodes - old(nodes))
    {
      StepIfRehashing();
      r, existed := AddAndGrow(key, zero);
    }

    /** The migration step at the start of Set and of findPositionForInsert. */
    method StepIfRehashing()
      requires Valid()
      modifies this`Table, this`Size, this`RehashingIdx, this`RehashingSize, this`RehashingTbl, this`content, this`rcontent
      modifies Table, RehashingTbl, nodes`Next, nodes`home
      ensures Valid() && View() == Dict.StepIfRehashing(env, old(View()))
      ensures Table == old(Table) || Table == old(RehashingTbl)
      ensures RehashingTbl == null || RehashingTbl == old(RehashingTbl)
    {
      if RehashingIdx >= 0 {
        RehashStep();
      }
    }

    /** findPositionForInsert after its step, with its deferred check. */
    method AddAndGrow(key: K, zero: V) returns (r: Entry<K, V>, existed: bool)
      requires Valid()
      modifies this`nodes, this`content, this`rcontent, this`Count, this`usedMemory
      modifies this`RehashingIdx, this`RehashingSize, this`RehashingTbl
      modifies Table, RehashingTbl, nodes`Value, nodes`Next
      ensures View() == Dict.GrowIfLoaded(Dict.AddTo(env, old(View()), key, zero)) && r in nodes && r.Key == key
      ensures if Doubles(env, old(View()), key) then Doubled(r) else Valid()
      ensures r == if old(RehashingIdx) >= 0 && old(rcontent).view[Bucket(env, key, old(RehashingSize))] != []
                   then InNew(key) else InOld(key)
      ensures existed <==>
        (old(RehashingIdx) >= 0 && !Doubles(env, old(View()), key)) || old(content).view[Bucket(env, key, Size)] != []
      ensures old(nodes) <= nodes && fresh(nodes - old(nodes))
      ensures RehashingTbl == old(RehashingTbl) || fresh(RehashingTbl)
    {
      r, existed := AddAnywhere(key, zero);
      GrowIfLoaded();
    }

    /** findPositionForInsert once its migration step is done. */
    method AddAnywhere(key: K, zero: V) returns (r: Entry<K, V>, existed: bool)
      requires Valid()
      modifies this`nodes, this`content, this`rcontent, this`Count, this`usedMemory
      modifies Table, RehashingTbl, nodes`Value, nodes`Next
      ensures View() == Dict.AddTo(env, old(View()), key, zero) && r in nodes && r.Key == key
      ensures if Doubles(env, old(View()), key) then Doubled(r) else LinkedUp()
      ensures r == if RehashingIdx >= 0 && old(rcontent).view[Bucket(env, key, RehashingSize)] != [] then InNew(key) else InOld(key)
      ensures existed <==> (old(RehashingIdx) >= 0 && !Doubles(env, old(View()), key)) || old(content).view[Bucket(env, key, Size)] != []
      ensures old(nodes) <= nodes && fresh(nodes - old(nodes))
    {
      if RehashingIdx >= 0 {
        var newIndex := Bucket(env, key, RehashingSize);
        assert Linked(RehashingTbl[newIndex], rcontent.chains[newIndex], rcontent.view[newIndex]);
        if RehashingTbl[newIndex] == null {
          var found;
          r, existed, found := AddToEmpty(key, zero);
          return;
        }
      }
      r, existed := AddEntry(key, zero);
    }

    /** SetVal on an entry as GetEntry or AddRaw returns it; `inOld` says that it is the old table's. */
    method SetVal(entry: Entry?<K, V>, val: V, ghost inOld: bool)
      requires Shape(View()) && (Valid() || (entry != null && inOld && Doubled(entry)))
      requires entry != null ==> entry == if inOld then InOld(entry.Key) else InNew(entry.Key)
      modifies this`usedMemory, this`content, this`rcontent, nodes`Value
      ensures entry == null ==> Valid() && View() == old(View())
      ensures entry != null ==> inOld || old(rcontent).view != []
      ensures entry != null && old(Valid()) ==> Valid()
      ensures entry != null && old(Valid()) ==>
        View() == if inOld then SetOld(env, old(View()), entry.Key, val) else SetNew(env, old(View()), entry.Key, val)
      ensures !old(Valid()) ==> old(rcontent).view != [] && entry != null && Doubled(entry)
      ensures !old(Valid()) ==> View() == SetBoth(env, old(View()), entry.Key, val)
    {
      if entry == null {
        return;
      }
      ghost var c, r, key, shared := content, rcontent, entry.Key, if Valid() then null else entry;
      if inOld {
        content := c.(view := PutAt(env, c.view, key, val));
      }
      if !inOld || shared != null {
        rcontent := r.(view := PutAt(env, r.view, key, val));
      }
      usedMemory := usedMemory + env.valMem(val);
      if RehashingIdx == -1 {
        OverwriteIn(env, Table, entry, val, c.chains, c.view, nodes);
      } else {
        ghost var here := inOld && shared == null;
        OverwriteBeside(env, if here then Table else RehashingTbl, entry, val,
                        if here then c.chains else r.chains, if here then c.view else r.view,
                        if here then RehashingTbl else Table,
                        if here then r.chains else c.chains, if here then r.view else c.view, nodes, shared);
      }
    }

    /** AddRaw and SetVal, as addInternal of db/db.go calls them. */
    method Add(key: K, val: V, zero: V) returns (entry: Entry<K, V>)
      requires Valid()
      modifies this, Table, RehashingTbl, nodes
      ensures View() == Dict.Add(env, old(View()), key, val, zero) && entry.Key == key
      ensures if LinksTwice(env, old(View()), key) then Doubled(entry) else Valid()
    {
      ghost var s := View();
      var existed;
      entry, existed := AddRaw(key, zero);
      SetVal(entry, val, !ReturnsNew(env, s, key));
    }

    /** GetEntry and SetVal, as setValue of db/db.go calls them. */
    method Overwrite(key: K, val: V)
      requires Valid()
      modifies this`usedMemory, this`content, this`rcontent, nodes`Value
      ensures Valid() && View() == Dict.SetFound(env, old(View()), key, val)
    {
      var entry, exist := GetEntry(key);
      SetVal(entry, val, InNew(key) == null);
    }

    /** deleteFromTable on the old table, which is the only one when no migration runs. */
    method DeleteFromOld(key: K) returns (deleted: bool)
      requires LinkedUp()
      modifies this`usedMemory, this`content, Table, nodes`Next
      ensures LinkedUp() && content.view == RemoveAt(env, old(content).view, key)
      ensures deleted == FindAt(env, old(content).view, key).Some?
      ensures usedMemory == old(usedMemory) - Released(env, old(content).view[Bucket(env, key, Size)], key)
    {
      var gone;
      ghost var chains, view;
      if RehashingIdx != -1 {
        gone, chains, view := DeleteBeside(env, Table, key, content.chains, content.view,
                                           RehashingTbl, rcontent.chains, rcontent.view, nodes);
      } else {
        gone, chains, view := DeleteFromTable(env, Table, key, content.chains, content.view, nodes);
      }
      content := Content(chains, view);
      deleted := gone != null;
      if deleted {
        usedMemory := usedMemory - (env.keyMem(key) + env.valMem(gone.Value));
      }
    }

    /** deleteFromTable on the new table. */
    method DeleteFromNew(key: K) returns (deleted: bool)
      requires LinkedUp() && RehashingIdx != -1
      modifies this`usedMemory, this`rcontent, RehashingTbl, nodes`Next
      ensures LinkedUp() && rcontent.view == RemoveAt(env, old(rcontent).view, key)
      ensures deleted == FindAt(env, old(rcontent).view, key).Some?
      ensures usedMemory == old(usedMemory) - Released(env, old(rcontent).view[Bucket(env, key, RehashingSize)], key)
    {
      ghost var chains, view;
      var gone;
      gone, chains, view := DeleteBeside(env, RehashingTbl, key, rcontent.chains, rcontent.view,
                                         Table, content.chains, content.view, nodes);
      rcontent := Content(chains, view);
      deleted := gone != null;
      if deleted {
        usedMemory := usedMemory - (env.keyMem(key) + env.valMem(gone.Value));
      }
    }

    method Delete(key: K) returns (deleted: bool)
      requires Valid()
      modifies this`usedMemory, this`content, this`rcontent, Table, RehashingTbl, nodes`Next
      ensures Valid() && (View(), deleted) == Dict.Delete(env, old(View()), key)
    {
      deleted := DeleteFromOld(key);
      if RehashingIdx >= 0 {
        var fromNew := DeleteFromNew(key);
        deleted := deleted || fromNew;
      }
    }
  }
}
