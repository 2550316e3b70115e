/** Whole runs of Insert and Delete against the finite map they should be. */
module RaxRuns {
  import opened Util
  import opened MapFill
  import opened Rax
  import opened RaxInsert
  import opened RaxDelete
  import opened RaxUnique

  datatype Op<V> = InsertOp(key: Bytes, val: V) | DeleteOp(key: Bytes)

  function Step<V>(n: Node<V>, op: Op<V>): Node<V> {
    match op
    case InsertOp(k, v) => Inserted(n, k, v)
    case DeleteOp(k) => Removed(n, k).0
  }

  function Run<V>(n: Node<V>, ops: seq<Op<V>>): Node<V>
    decreases |ops|
  {
    if ops == [] then n else Run(Step(n, ops[0]), ops[1..])
  }

  function MapStep<V>(m: map<Bytes, V>, op: Op<V>): map<Bytes, V> {
    match op
    case InsertOp(k, v) => m[k := v]
    case DeleteOp(k) => m - {k}
  }

  function MapRun<V>(m: map<Bytes, V>, ops: seq<Op<V>>): map<Bytes, V>
    decreases |ops|
  {
    if ops == [] then m else MapRun(MapStep(m, ops[0]), ops[1..])
  }

  /** n stores exactly m, in canonical form with one leaf for each key. */
  ghost predicate Stores<V(!new)>(n: Node<V>, m: map<Bytes, V>) {
    && Canonical(n) && Leaves(n) == |m|
    && forall q :: Get(n, q) == if q in m then Some(m[q]) else None
  }

  lemma InsertedLeaves<V>(n: Node<V>, k: Bytes, v: V)
    requires Canonical(n) && !RootLabelFits(n, k)
    ensures Leaves(Inserted(n, k, v)) == Leaves(n) + if Get(n, k) == None then 1 else 0
  {
    StripsIff(n, k);
    PlaceLeaves(n, k, k, v);
  }

  lemma StoresUpdate<V(!new)>(n: Node<V>, r: Node<V>, m: map<Bytes, V>, k: Bytes, v: V)
    requires Stores(n, m) && Canonical(r) && Leaves(r) == Leaves(n) + if Get(n, k) == None then 1 else 0
    requires forall q :: Get(r, q) == if q == k then Some(v) else Get(n, q)
    ensures Stores(r, m[k := v])
  {
    OneMore(m, k, v);
    assert Get(n, k) == if k in m then Some(m[k]) else None;
  }

  lemma SafeInsert<V(!new)>(n: Node<V>, m: map<Bytes, V>, k: Bytes, v: V)
    requires Stores(n, m) && !RootLabelFits(n, k)
    ensures Stores(Inserted(n, k, v), m[k := v]) && Inserted(n, k, v).prefix == n.prefix
  {
    InsertedIs(n, k, v);
    InsertedLeaves(n, k, v);
    StoresUpdate(n, Inserted(n, k, v), m, k, v);
  }

  lemma SafeDelete<V(!new)>(n: Node<V>, m: map<Bytes, V>, k: Bytes)
    requires Stores(n, m) && Clean(n, k) && (k != [] || n.leaf == None)
    ensures Stores(Removed(n, k).0, m - {k}) && Removed(n, k).0.prefix == n.prefix
  {
    CleanKeepsCanonical(n, k);
    CleanLeaves(n, k);
    OneLess(m, k);
    assert Get(n, k) == if k in m then Some(m[k]) else None;
    if k == [] {
      assert Get(n, k) == None && m - {k} == m;
    } else {
      DeleteExact(n, k);
      assert DeletesOnly(n, k);
    }
  }

  // ---------------------------------------------------------------- exactly the right runs

  /** The call does what it should on n: an insert meets no fitting root label, or finds its value under the
      key and under what is left of it; a deletion is clean and does not name the root's own leaf. */
  predicate Right<V(==)>(n: Node<V>, op: Op<V>) {
    match op
    case InsertOp(k, v) =>
      !RootLabelFits(n, k) || (Get(n, k) == Some(v) && Get(n, Strip(n.edges, k)) == Some(v))
    case DeleteOp(k) => Clean(n, k) && (k != [] || n.leaf == None)
  }

  predicate AlwaysRight<V(==)>(n: Node<V>, ops: seq<Op<V>>)
    decreases |ops|
  {
    ops == [] || (Right(n, ops[0]) && AlwaysRight(Step(n, ops[0]), ops[1..]))
  }

  /** What the call reports is right by the map: Insert that its key is new, Delete that it was there. */
  predicate ReportsRight<V>(n: Node<V>, m: map<Bytes, V>, op: Op<V>) {
    match op
    case InsertOp(k, _) => Get(n, Strip(n.edges, k)) == None <==> k !in m
    case DeleteOp(k) => Removed(n, k).1 <==> k in m
  }

  /** All along the run the tree stores what the map holds, and each call reports what it should. */
  ghost predicate StoresAlong<V(!new)>(n: Node<V>, m: map<Bytes, V>, ops: seq<Op<V>>)
    decreases |ops|
  {
    && Stores(n, m)
    && (ops != [] ==>
          && ReportsRight(n, m, ops[0])
          && StoresAlong(Step(n, ops[0]), MapStep(m, ops[0]), ops[1..]))
  }

  /** A misplaced insert whose value is there already, twice, changes no more than a leaf's printed key. */
  lemma IdleInsert<V(!new)>(n: Node<V>, m: map<Bytes, V>, k: Bytes, v: V)
    requires Stores(n, m) && Get(n, k) == Some(v) && Get(n, Strip(n.edges, k)) == Some(v)
    ensures Stores(Inserted(n, k, v), m[k := v])
  {
    var s := Strip(n.edges, k);
    StripTwice(n.edges, k);
    PlaceCanonical(n, s, k, v);
    PlaceLeaves(n, s, k, v);
    forall q
      ensures Get(Inserted(n, k, v), q) == Get(n, q)
    {
      InsertGet(n, k, v, q);
    }
    assert k in m && m[k := v] == m;
  }

  lemma RightStep<V(!new)>(n: Node<V>, m: map<Bytes, V>, op: Op<V>)
    requires Stores(n, m)
    ensures Right(n, op) <==> Stores(Step(n, op), MapStep(m, op)) && ReportsRight(n, m, op)
  {
    match op
    case InsertOp(k, v) => RightInsert(n, m, k, v);
    case DeleteOp(k) => RightDelete(n, m, k);
  }

  lemma StoresReads<V(!new)>(n: Node<V>, r: Node<V>, m: map<Bytes, V>, k: Bytes, v: V)
    requires Stores(n, m)
    ensures Stores(r, m[k := v]) ==> forall q :: Get(r, q) == if q == k then Some(v) else Get(n, q)
  {
  }

  lemma StoresLess<V(!new)>(n: Node<V>, r: Node<V>, m: map<Bytes, V>, k: Bytes)
    requires Stores(n, m)
    ensures Stores(r, m - {k}) ==> forall q :: Get(r, q) == if q == k then None else Get(n, q)
  {
  }

  lemma RightInsert<V(!new)>(n: Node<V>, m: map<Bytes, V>, k: Bytes, v: V)
    requires Stores(n, m)
    ensures Right(n, InsertOp(k, v)) <==> Stores(Inserted(n, k, v), m[k := v])
    ensures Right(n, InsertOp(k, v)) ==> ReportsRight(n, m, InsertOp(k, v))
  {
    assert Get(n, k) == if k in m then Some(m[k]) else None;
    StripsIff(n, k);
    InsertExact(n, k, v);
    StoresReads(n, Inserted(n, k, v), m, k, v);
    if !RootLabelFits(n, k) {
      SafeInsert(n, m, k, v);
    } else if Right(n, InsertOp(k, v)) {
      IdleInsert(n, m, k, v);
    }
  }

  lemma RightDelete<V(!new)>(n: Node<V>, m: map<Bytes, V>, k: Bytes)
    requires Stores(n, m)
    ensures Right(n, DeleteOp(k)) <==> Stores(Removed(n, k).0, m - {k}) && (Removed(n, k).1 <==> k in m)
  {
    assert Get(n, k) == if k in m then Some(m[k]) else None;
    if k != [] {
      DeleteExact(n, k);
    }
    if Stores(Removed(n, k).0, m - {k}) && (Removed(n, k).1 <==> k in m) {
      JustTheKey(n, Removed(n, k).0, Removed(n, k).1, m, k);
    }
    if Right(n, DeleteOp(k)) {
      SafeDelete(n, m, k);
    }
  }

  lemma JustTheKey<V(!new)>(n: Node<V>, r: Node<V>, deleted: bool, m: map<Bytes, V>, k: Bytes)
    requires Stores(n, m) && Stores(r, m - {k}) && (deleted <==> k in m)
    ensures deleted == Get(n, k).Some? && forall q :: Get(r, q) == if q == k then None else Get(n, q)
  {
    StoresLess(n, r, m, k);
    assert Get(n, k) == if k in m then Some(m[k]) else None;
  }

  /** A run stores the map at every point, with right reports, exactly when each of its calls is right. */
  lemma {:induction false} RunIsRight<V(!new)>(n: Node<V>, m: map<Bytes, V>, ops: seq<Op<V>>)
    requires Stores(n, m)
    ensures StoresAlong(n, m, ops) <==> AlwaysRight(n, ops)
    decreases |ops|
  {
    if ops != [] {
      RightStep(n, m, ops[0]);
      if Right(n, ops[0]) {
        RunIsRight(Step(n, ops[0]), MapStep(m, ops[0]), ops[1..]);
      }
    }
  }

  // ---------------------------------------------------------------- the tree of a run

  lemma {:induction false} AlongToEnd<V(!new)>(n: Node<V>, m: map<Bytes, V>, ops: seq<Op<V>>)
    requires StoresAlong(n, m, ops)
    ensures Stores(Run(n, ops), MapRun(m, ops)) && Run(n, ops).prefix == n.prefix
    decreases |ops|
  {
    if ops != [] {
      RightStep(n, m, ops[0]);
      KeepsPrefix(n, ops[0]);
      AlongToEnd(Step(n, ops[0]), MapStep(m, ops[0]), ops[1..]);
    }
  }

  lemma KeepsPrefix<V(!new)>(n: Node<V>, op: Op<V>)
    requires Canonical(n) && Right(n, op)
    ensures Step(n, op).prefix == n.prefix
  {
    match op
    case InsertOp(k, v) =>
      StripTwice(n.edges, k);
      PlaceCanonical(n, Strip(n.edges, k), k, v);
    case DeleteOp(k) => CleanKeepsCanonical(n, k);
  }

  lemma EmptyStoresNothing<V(!new)>()
    ensures Stores(Node<V>.Node([], [], None), map[])
  {
  }

  /** Any run of right calls from the empty tree stores exactly the map the same calls build, canonically and
      with one leaf for each key. */
  lemma RunStoresMap<V(!new)>(ops: seq<Op<V>>)
    requires AlwaysRight(Node([], [], None), ops)
    ensures Stores(Run(Node([], [], None), ops), MapRun(map[], ops))
  {
    EmptyStoresNothing<V>();
    RunIsRight(Node([], [], None), map[], ops);
    AlongToEnd(Node([], [], None), map[], ops);
  }

  /** So two such runs that build the same map, in whatever order and with whatever deletions on the way,
      build the same tree. */
  lemma SameMapSameTree<V(!new)>(ops: seq<Op<V>>, ops': seq<Op<V>>)
    requires AlwaysRight(Node([], [], None), ops) && AlwaysRight(Node([], [], None), ops')
    requires MapRun(map[], ops) == MapRun(map[], ops')
    ensures Same(Run(Node([], [], None), ops), Run(Node([], [], None), ops'))
  {
    EmptyStoresNothing<V>();
    RunIsRight(Node([], [], None), map[], ops);
    RunIsRight(Node([], [], None), map[], ops');
    AlongToEnd(Node([], [], None), map[], ops);
    AlongToEnd(Node([], [], None), map[], ops');
    CanonicalIsUnique(Run(Node([], [], None), ops), Run(Node([], [], None), ops'));
  }
}
