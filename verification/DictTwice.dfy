/** What becomes of an entry that AddRaw has linked into both tables of a HashTable: the migration of its old
    bucket ties it into a ring, unless that bucket had been migrated before. */
module DictTwice {
  import opened Util
  import opened Dict
  import opened DictRefinement
  import opened DictCalls
  import opened DictHeap

  // ---------------------------------------------------------------- rings

  /** The entry after c[j], round the ring. */
  ghost function Around<K, V>(c: seq<Entry<K, V>>, j: nat): Entry<K, V>
    requires j < |c|
  {
    if j + 1 < |c| then c[j + 1] else c[0]
  }

  /** From head on, the Next links run through the entries c and back to the first of them. */
  ghost predicate Ring<K, V>(head: Entry?<K, V>, c: seq<Entry<K, V>>)
    reads c`Next
  {
    && c != [] && head == c[0]
    && forall j {:trigger c[j].Next} :: 0 <= j < |c| ==> c[j].Next == Around(c, j)
  }

  /** A ring is no chain: no finite run of links from it ends in nil. */
  lemma RingIsNoChain<K, V>(head: Entry?<K, V>, ring: seq<Entry<K, V>>, c: seq<Entry<K, V>>, v: Chain<K, V>)
    requires Ring(head, ring)
    ensures !Linked(head, c, v)
  {
    if Linked(head, c, v) {
      RingLeadsOn(head, ring, c, v, |c| - 1);
    }
  }

  lemma {:induction false} RingLeadsOn<K, V>(head: Entry?<K, V>, ring: seq<Entry<K, V>>, c: seq<Entry<K, V>>, v: Chain<K, V>, i: nat)
    requires Ring(head, ring) && Linked(head, c, v) && i < |c|
    ensures c[i] in ring && c[i].Next != null
  {
    if i > 0 {
      RingLeadsOn(head, ring, c, v, i - 1);
      var j :| 0 <= j < |ring| && c[i - 1] == ring[j];
      assert ring[j].Next == Around(ring, j) && c[i - 1].Next == At(c, i) == c[i];
    }
    var j :| 0 <= j < |ring| && c[i] == ring[j];
    assert ring[j].Next == Around(ring, j);
  }

  lemma NextTurn(i: nat, n: nat)
    requires n > 0
    ensures (i + 1) % n == if i % n + 1 < n then i % n + 1 else 0
  {
    var q, r := i / n, i % n;
    assert i + 1 == q * n + (r + 1);
    if r + 1 < n {
      DivisionIsUnique((i + 1) / n, (i + 1) % n, q, r + 1, n);
    } else {
      assert q * n + n == (q + 1) * n;
      DivisionIsUnique((i + 1) / n, (i + 1) % n, q + 1, 0, n);
    }
  }

  /** The search loop of GetEntry on a ring without the key, for any number of turns: it is still going on. */
  method SearchTurns<K(==), V>(head: Entry?<K, V>, key: K, turns: nat, ghost ring: seq<Entry<K, V>>) returns (curr: Entry?<K, V>)
    requires Ring(head, ring) && forall j :: 0 <= j < |ring| ==> ring[j].Key != key
    ensures curr == ring[turns % |ring|] && curr.Key != key
  {
    curr := head;
    var i := 0;
    while i < turns && curr != null && curr.Key != key
      invariant 0 <= i <= turns && curr == ring[i % |ring|]
      decreases turns - i
    {
      NextTurn(i, |ring|);
      assert ring[i % |ring|].Next == Around(ring, i % |ring|);
      curr := curr.Next;
      i := i + 1;
    }
  }

  // ---------------------------------------------------------------- the buckets of a doubled table

  /** The entry's two buckets belong together: only entries of the one can go to the other. */
  lemma OnlyFrom<K, V>(e: Env<K, V>, k: K, q: K, n: nat)
    requires n > 0 && Bucket(e, k, 2 * n) == Bucket(e, q, 2 * n)
    ensures Bucket(e, k, n) == Bucket(e, q, n)
  {
    NewBucketComesFromOld(e, k, n);
    NewBucketComesFromOld(e, q, n);
  }

  /** The migration of another bucket i leaves both links of r as they are. */
  method MoveOtherBucket<K, V>(e: Env<K, V>, tbl: array<Entry?<K, V>>, rt: array<Entry?<K, V>>, i: nat, ghost r: Entry<K, V>,
                               ghost chains: seq<seq<Entry<K, V>>>, ghost view: seq<Chain<K, V>>,
                               ghost rchains: seq<seq<Entry<K, V>>>, ghost rview: seq<Chain<K, V>>,
                               ghost nodes: set<Entry<K, V>>)
    returns (ghost rchains': seq<seq<Entry<K, V>>>, ghost rview': seq<Chain<K, V>>)
    requires tbl != rt && i < tbl.Length && rt.Length == 2 * tbl.Length && i != Bucket(e, r.Key, tbl.Length)
    requires var b := Bucket(e, r.Key, tbl.Length);
      OthersOk(e, tbl, chains, view, nodes, b) && EndsIn(e, tbl, b, chains[b], view[b], nodes, r)
    requires TableOk(e, rt, rchains, rview, nodes) && rchains[Bucket(e, r.Key, rt.Length)] == [r]
    modifies tbl, rt, nodes`Next, nodes`home
    ensures var b := Bucket(e, r.Key, tbl.Length);
      OthersOk(e, tbl, chains[i := []], view[i := []], nodes, b) && EndsIn(e, tbl, b, chains[b], view[b], nodes, r)
    ensures TableOk(e, rt, rchains', rview', nodes) && rview' == MoveChain(e, view[i], rview)
    ensures rchains'[Bucket(e, r.Key, rt.Length)] == [r]
  {
    ghost var b, nb, c := Bucket(e, r.Key, tbl.Length), Bucket(e, r.Key, rt.Length), chains[i];
    assert Homed(e, tbl, i, c, nodes) && Linked(tbl[i], c, view[i]);
    assert Homed(e, rt, nb, rchains[nb], nodes) && rchains[nb][0] == r;
    forall j | 0 <= j < |c|
      ensures Bucket(e, c[j].Key, rt.Length) != nb
    {
      if Bucket(e, c[j].Key, rt.Length) == nb {
        OnlyFrom(e, c[j].Key, r.Key, tbl.Length);
      }
    }
    ghost var d := chains[b];
    assert forall j :: 0 <= j < |d| - 1 ==> d[..|d| - 1][j] == d[j];
    assert forall j :: 0 <= j < |d| ==> d[j] !in c;
    var entries := tbl[i];
    tbl[i] := null;
    rchains', rview' := MoveEntries(e, entries, rt, c, view[i], rchains, rview, nodes);
    forall k | 0 <= k < |chains| && k != i && k != b
      ensures Homed(e, tbl, k, chains[k], nodes) && Linked(tbl[k], chains[k], view[k])
    {
      assert old(Homed(e, tbl, k, chains[k], nodes)) && old(Linked(tbl[k], chains[k], view[k]));
    }
    assert Linked(tbl[b], d, view[b]) && Homed(e, tbl, b, d[..|d| - 1], nodes);
  }

  /** A chain of entries of c that ends in r. */
  ghost predicate EndsAt<K, V>(chain: seq<Entry<K, V>>, r: Entry<K, V>, c: seq<Entry<K, V>>) {
    chain != [] && chain[|chain| - 1] == r && forall x :: x in chain ==> x in c
  }

  lemma EndsAtStill<K, V>(rc: seq<seq<Entry<K, V>>>, nb: nat, i: nat, x: Entry<K, V>, r: Entry<K, V>, c: seq<Entry<K, V>>)
    requires nb < |rc| && i < |rc| && EndsAt(rc[nb], r, c) && x in c
    ensures EndsAt(rc[i := [x] + rc[i]][nb], r, c)
  {
  }

  /** The moving loop over r's own old bucket, up to r: all that goes to r's new bucket goes in front of it. */
  method MoveUpTo<K, V>(e: Env<K, V>, head: Entry?<K, V>, rt: array<Entry?<K, V>>, r: Entry<K, V>, ghost c: seq<Entry<K, V>>,
                        ghost rchains: seq<seq<Entry<K, V>>>, ghost rview: seq<Chain<K, V>>, ghost nodes: set<Entry<K, V>>)
    returns (next: Entry?<K, V>, ghost rc: seq<seq<Entry<K, V>>>, ghost rv: seq<Chain<K, V>>)
    requires c != [] && Distinct(c) && c[|c| - 1] == r && head == c[0]
    requires forall j {:trigger c[j].Next} :: 0 <= j < |c| ==> c[j].Next == At(c, j + 1)
    requires forall j :: 0 <= j < |c| - 1 ==> c[j] in nodes && c[j].home != rt
    requires TableOk(e, rt, rchains, rview, nodes) && rchains[Bucket(e, r.Key, rt.Length)] == [r]
    modifies rt, c`Next, c`home
    ensures next == r && TableOk(e, rt, rc, rv, nodes) && EndsAt(rc[Bucket(e, r.Key, rt.Length)], r, c)
  {
    ghost var nb := Bucket(e, r.Key, rt.Length);
    next, rc, rv := head, rchains, rview;
    ghost var j := 0;
    while next != r
      invariant 0 <= j < |c| && next == c[j] && TableOk(e, rt, rc, rv, nodes)
      invariant forall i {:trigger c[i].Next} {:trigger c[i].home} :: j <= i < |c| - 1 ==> c[i].Next == At(c, i + 1) && c[i].home != rt
      invariant EndsAt(rc[nb], r, c)
      decreases |c| - j
    {
      assert c[j].Next == At(c, j + 1) == c[j + 1];
      EndsAtStill(rc, nb, Bucket(e, next.Key, rt.Length), next, r, c);
      next, rc, rv := MoveEntry(e, rt, next, rc, rv, nodes);
      j := j + 1;
    }
  }

  /** The migration of r's own bucket: r is pushed in front of the chain that it ends, and so closes a ring.
      Its link on into the old bucket was nil, and there the loop ends. */
  method TieRing<K, V>(e: Env<K, V>, tbl: array<Entry?<K, V>>, rt: array<Entry?<K, V>>, b: nat, r: Entry<K, V>,
                       ghost chains: seq<seq<Entry<K, V>>>, ghost view: seq<Chain<K, V>>,
                       ghost rchains: seq<seq<Entry<K, V>>>, ghost rview: seq<Chain<K, V>>, ghost nodes: set<Entry<K, V>>)
    returns (next: Entry?<K, V>, ghost ring: seq<Entry<K, V>>)
    requires tbl != rt && 0 < tbl.Length && 0 < rt.Length && b == Bucket(e, r.Key, tbl.Length)
    requires OthersOk(e, tbl, chains, view, nodes, b) && EndsIn(e, tbl, b, chains[b], view[b], nodes, r)
    requires TableOk(e, rt, rchains, rview, nodes) && rchains[Bucket(e, r.Key, rt.Length)] == [r]
    modifies tbl, rt, chains[b]`Next, chains[b]`home
    ensures Ring(rt[Bucket(e, r.Key, rt.Length)], ring) && ring[0] == r && next == null
    ensures forall j :: 0 <= j < |ring| ==> ring[j] in chains[b] && ring[j].home == rt
    ensures forall i :: 0 <= i < tbl.Length && i != b ==> tbl[i] == old(tbl[i])
  {
    ghost var nb, c := Bucket(e, r.Key, rt.Length), chains[b];
    assert forall j :: 0 <= j < |c| - 1 ==> c[..|c| - 1][j] == c[j];
    next := tbl[b];
    tbl[b] := null;
    ghost var rc, rv;
    next, rc, rv := MoveUpTo(e, next, rt, r, c, rchains, rview, nodes);
    assert Homed(e, rt, nb, rc[nb], nodes) && Linked(rt[nb], rc[nb], rv[nb]);
    next, ring := CloseRing(rt, Bucket(e, r.Key, rt.Length), r, rc[nb], rv[nb]);
  }

  /** The last turn: the entry that ends the chain of its new bucket becomes the first of it as well. */
  method CloseRing<K, V>(rt: array<Entry?<K, V>>, b: nat, r: Entry<K, V>, ghost c: seq<Entry<K, V>>, ghost v: Chain<K, V>)
    returns (next: Entry?<K, V>, ghost ring: seq<Entry<K, V>>)
    requires b < rt.Length && Linked(rt[b], c, v) && c != [] && c[|c| - 1] == r
    modifies rt, r`Next
    ensures next == null && Ring(rt[b], ring) && ring == [r] + c[..|c| - 1]
  {
    ring := [r] + c[..|c| - 1];
    assert c[|c| - 1].Next == At(c, |c|);
    next := PushFront(rt, b, r);
    forall j | 0 <= j < |ring|
      ensures ring[j].Next == Around(ring, j)
    {
      if j > 0 {
        assert ring[j] == c[j - 1] != r && old(c[j - 1].Next) == At(c, j) == c[j];
      }
    }
  }

  // ---------------------------------------------------------------- the table

  /** rehashStep's work on a bucket other than the entry's. */
  method MigrateOther<K(==), V>(h: HashTable<K, V>, ghost r: Entry<K, V>)
    requires h.Doubled(r) && h.RehashingIdx < h.Size && h.RehashingIdx != Bucket(h.env, r.Key, h.Size)
    modifies h`RehashingIdx, h`content, h`rcontent, h.Table, h.RehashingTbl, h.nodes`Next, h.nodes`home
    ensures h.Doubled(r) && h.View() == Dict.MigrateBucket(h.env, old(h.View()))
    ensures h.content == Content(old(h.content).chains[old(h.RehashingIdx) := []], old(h.content).view[old(h.RehashingIdx) := []])
  {
    ghost var i, c, rc := h.RehashingIdx, h.content, h.rcontent;
    ghost var chains, view :=
      MoveOtherBucket(h.env, h.Table, h.RehashingTbl, h.RehashingIdx, r, c.chains, c.view, rc.chains, rc.view, h.nodes);
    h.content, h.rcontent := Content(c.chains[i := []], c.view[i := []]), Content(chains, view);
    h.RehashingIdx := h.RehashingIdx + 1;
  }

  /** Turns of rehashStep's outer loop, on n buckets that are not the entry's. */
  method MigrateOthers<K(==), V>(h: HashTable<K, V>, ghost r: Entry<K, V>, n: nat)
    requires h.Doubled(r)
    requires var b := Bucket(h.env, r.Key, h.Size); b < h.RehashingIdx || h.RehashingIdx + n <= b
    modifies h`RehashingIdx, h`content, h`rcontent, h.Table, h.RehashingTbl, h.nodes`Next, h.nodes`home
    ensures h.Doubled(r) && h.View() == Migrate(h.env, old(h.View()), n)
    ensures var b := Bucket(h.env, r.Key, h.Size); h.content.chains[b] == old(h.content.chains[b])
    decreases n
  {
    if n > 0 && h.RehashingIdx < h.Size {
      MigrateOther(h, r);
      MigrateOthers(h, r, n - 1);
    }
  }

  /** After a call that linked r twice on a bucket that had been migrated, the rest of the migration goes well:
      the old table, and the second link with it, is dropped by the swap. */
  method MigratePast<K(==), V>(h: HashTable<K, V>, ghost r: Entry<K, V>)
    requires h.Doubled(r) && Bucket(h.env, r.Key, h.Size) < h.RehashingIdx
    modifies h, h.Table, h.RehashingTbl, h.nodes`Next, h.nodes`home
    ensures h.Valid() && h.View() == Finish(Migrate(h.env, old(h.View()), old(h.Size)))
  {
    MigrateOthers(h, r, h.Size);
    FinishPast(h, r);
  }

  /** The swap at the end of rehashStep. */
  method FinishPast<K(==), V>(h: HashTable<K, V>, ghost r: Entry<K, V>)
    requires h.Doubled(r) && h.RehashingIdx == h.Size
    modifies h
    ensures h.Valid() && h.View() == Finish(old(h.View()))
  {
    h.Table, h.Size := h.RehashingTbl, h.RehashingSize;
    h.content, h.rcontent := h.rcontent, Content([], []);
    h.RehashingTbl, h.RehashingIdx, h.RehashingSize := null, -1, 0;
  }

  /** The keys of the doubled bucket are found in the old table. */
  lemma ChainKeys<K(!new), V>(h: HashTable<K, V>, r: Entry<K, V>)
    requires h.Doubled(r) && Shape(h.View())
    ensures forall j :: 0 <= j < |h.content.chains[Bucket(h.env, r.Key, h.Size)]| ==>
      FindAt(h.env, h.content.view, h.content.chains[Bucket(h.env, r.Key, h.Size)][j].Key).Some?
  {
    var b := Bucket(h.env, r.Key, h.Size);
    var c, v := h.content.chains[b], h.content.view[b];
    forall j | 0 <= j < |c|
      ensures FindAt(h.env, h.content.view, c[j].Key).Some?
    {
      assert j < |c| - 1 ==> c[..|c| - 1][j] == c[j];
      assert v[j] == (c[j].Key, c[j].Value);
      FindPresent(v, j);
    }
  }

  lemma {:induction false} FindPresent<K, V>(c: Chain<K, V>, j: nat)
    requires j < |c|
    ensures Find(c, c[j].0).Some?
  {
    if j > 0 {
      FindPresent(c[1..], j - 1);
    }
  }

  // ---------------------------------------------------------------- the migrated bucket, on values

  /** Migrations from states that agree from their index on. */
  lemma {:induction false} MigrateAlike<K, V>(e: Env<K, V>, u: State<K, V>, w: State<K, V>, n: nat)
    requires 0 <= u.idx == w.idx && |u.table| == |w.table| && u.rtable == w.rtable != []
    requires forall i :: u.idx <= i < |u.table| ==> u.table[i] == w.table[i]
    ensures Migrate(e, u, n).rtable == Migrate(e, w, n).rtable && Migrate(e, u, n).idx == Migrate(e, w, n).idx
    ensures forall i :: u.idx <= i < |u.table| ==> Migrate(e, u, n).table[i] == Migrate(e, w, n).table[i]
    ensures forall i :: 0 <= i < u.idx && i < |u.table| ==>
      Migrate(e, u, n).table[i] == u.table[i] && Migrate(e, w, n).table[i] == w.table[i]
    decreases n
  {
    if n != 0 && u.idx < |u.table| {
      MigrateAlike(e, MigrateBucket(e, u), MigrateBucket(e, w), n - 1);
    }
  }

  /** After a call that links twice on a bucket that had been migrated, lookups are right at every point of the
      rest of the migration, and once it is complete the table is good again. */
  lemma PastTwice<K(!new), V>(e: Env<K, V>, s: State<K, V>, k: K, zero: V, n: nat)
    requires Good(e, s) && LinksTwice(e, s, k) && !Unmigrated(e, s, k)
    ensures var m := Migrate(e, AddRaw(e, s, k, zero), n);
      forall q :: Seek(e, m.table, m.rtable, q) == if q == k then Some(zero) else Lookup(e, s, q)
    ensures var u := AddRaw(e, s, k, zero); n >= |u.table| ==>
      && Good(e, Finish(Migrate(e, u, n)))
      && forall q :: Lookup(e, Finish(Migrate(e, u, n)), q) == if q == k then Some(zero) else Lookup(e, s, q)
  {
    var t, u := StepIfRehashing(e, s), AddRaw(e, s, k, zero);
    StepKeepsShape(e, s);
    RehashStepConserves(e, s);
    var w := Store(e, t, k, zero);
    StoreSpec(e, t, k, zero);
    var b := Bucket(e, k, |t.table|);
    assert t.table[b] == [] && u.table == t.table[b := [(k, zero)]] && u.rtable == w.rtable && w.table == t.table;
    MigrateAlike(e, u, w, n);
    MigrateSpec(e, w, n);
    var m, x := Migrate(e, u, n), Migrate(e, w, n);
    SeekAlike(e, m, x, k, zero, b);
    forall q
      ensures Seek(e, m.table, m.rtable, q) == if q == k then Some(zero) else Lookup(e, s, q)
    {
      assert Seek(e, x.table, x.rtable, q) == Lookup(e, w, q) && Lookup(e, t, q) == Lookup(e, s, q);
    }
  }

  /** An old bucket with nothing but k's second link answers no other key, and k is found before it. */
  lemma SeekAlike<K(!new), V>(e: Env<K, V>, m: State<K, V>, x: State<K, V>, k: K, zero: V, b: nat)
    requires |m.table| == |x.table| && m.table != [] && m.rtable == x.rtable != [] && b == Bucket(e, k, |m.table|)
    requires m.table[b] == [(k, zero)] && x.table[b] == []
    requires forall i :: 0 <= i < |m.table| && i != b ==> m.table[i] == x.table[i]
    requires Seek(e, x.table, x.rtable, k).Some?
    ensures forall q :: Seek(e, m.table, m.rtable, q) == Seek(e, x.table, x.rtable, q)
  {
  }
}
