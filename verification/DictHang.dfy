/** From the call that links an entry into both tables to the one that searches for ever: what the calls in
    between keep, and the migration step that ties the ring. */
module DictHang {
  import opened Util
  import opened Dict
  import opened DictHeap
  import opened DictRefinement
  import opened DictCalls
  import opened DictAdd
  import opened DictRuns
  import opened DictLoad
  import opened DictStale
  import opened DictTwice

  /** The entries of the old bucket that ends in r. */
  ghost function OldChain<K, V>(h: HashTable<K, V>, r: Entry<K, V>): seq<Entry<K, V>>
    requires 0 < h.Size == |h.content.chains|
    reads h`Size, h`content
  {
    h.content.chains[Bucket(h.env, r.Key, h.Size)]
  }

  // ---------------------------------------------------------------- calls in between

  /** The search and store in the new table for a key that has other buckets than r. */
  method StoreElsewhere<K(==), V>(h: HashTable<K, V>, ghost r: Entry<K, V>, key: K, value: V, overwrite: bool)
    returns (found: bool, x: Entry<K, V>)
    requires h.Doubled(r) && Bucket(h.env, key, h.RehashingSize) != Bucket(h.env, r.Key, h.RehashingSize)
    modifies h`nodes, h`rcontent, h.RehashingTbl, h.nodes`Value, h.nodes`Next
    ensures h.Doubled(r) && found == FindAt(h.env, old(h.rcontent).view, key).Some? && x in h.nodes && x.Key == key
    ensures h.rcontent.view ==
            if found && !overwrite then old(h.rcontent).view else PutAt(h.env, old(h.rcontent).view, key, value)
    ensures old(h.nodes) <= h.nodes && fresh(h.nodes - old(h.nodes))
  {
    ghost var b := Bucket(h.env, key, h.RehashingSize);
    assert Homed(h.env, h.RehashingTbl, b, h.rcontent.chains[b], h.nodes);
    ghost var chains, view, ns;
    found, x, chains, view, ns := StoreBeside(h.env, h.RehashingTbl, key, value, overwrite, h.rcontent.chains, h.rcontent.view,
                                              h.Table, h.content.chains, h.content.view, h.nodes, r);
    h.nodes, h.rcontent := ns, Content(chains, view);
  }

  /** h.Count++ and IncreaseUsedMemory. */
  method ChargeElsewhere<K(==), V>(h: HashTable<K, V>, ghost r: Entry<K, V>, entries: int, memory: int)
    requires h.Doubled(r)
    modifies h`Count, h`usedMemory
    ensures h.Doubled(r) && h.Count == old(h.Count) + entries && h.usedMemory == old(h.usedMemory) + memory
  {
    h.Count := h.Count + entries;
    h.usedMemory := h.usedMemory + memory;
  }

  method PutElsewhere<K(==), V>(h: HashTable<K, V>, ghost r: Entry<K, V>, key: K, value: V)
    requires h.Doubled(r) && Shape(h.View()) && Bucket(h.env, key, h.RehashingSize) != Bucket(h.env, r.Key, h.RehashingSize)
    modifies h`nodes, h`rcontent, h`Count, h`usedMemory, h.RehashingTbl, h.nodes`Value, h.nodes`Next
    ensures h.Doubled(r) && h.View() == Store(h.env, old(h.View()), key, value)
    ensures old(h.nodes) <= h.nodes && fresh(h.nodes - old(h.nodes))
  {
    var found, x := StoreElsewhere(h, r, key, value, true);
    ChargeElsewhere(h, r, if found then 0 else 1, if found then 0 else h.env.keyMem(key) + h.env.valMem(value));
  }

  /** The migration step of a call, if it does not come to r's old bucket. */
  method StepElsewhere<K(==), V>(h: HashTable<K, V>, ghost r: Entry<K, V>)
    requires h.Doubled(r) && Shape(h.View()) && h.RehashingIdx + REHASHING_BUCKETS <= Bucket(h.env, r.Key, h.Size)
    modifies h`RehashingIdx, h`content, h`rcontent, h.Table, h.RehashingTbl, h.nodes`Next, h.nodes`home
    ensures h.Doubled(r) && Shape(h.View()) && h.View() == StepIfRehashing(h.env, old(h.View()))
    ensures OldChain(h, r) == old(OldChain(h, r))
  {
    StepKeepsShape(h.env, h.View());
    MigrateOthers(h, r, REHASHING_BUCKETS);
  }

  /** During a migration the deferred check does nothing. */
  lemma NoGrowth<K, V>(e: Env<K, V>, s: State<K, V>, t: State<K, V>, k: K, v: V)
    requires Shape(s) && Shape(t) && t == StepIfRehashing(e, s) && t.idx >= 0
    ensures Set(e, s, k, v) == Store(e, t, k, v)
    ensures AddRaw(e, s, k, v) == AddTo(e, t, k, v) && (Doubles(e, t, k) <==> LinksTwice(e, s, k))
  {
  }

  /** Set of a key with another new bucket, by a call whose step does not come to r's old one: r stays linked
      twice. The deferred check does nothing during a migration. */
  method SetElsewhere<K(==), V>(h: HashTable<K, V>, ghost r: Entry<K, V>, key: K, value: V)
    requires h.Doubled(r) && Shape(h.View()) && h.RehashingIdx + REHASHING_BUCKETS <= Bucket(h.env, r.Key, h.Size)
    requires Bucket(h.env, key, h.RehashingSize) != Bucket(h.env, r.Key, h.RehashingSize)
    modifies h`RehashingIdx, h`content, h`rcontent, h`nodes, h`Count, h`usedMemory, h.Table, h.RehashingTbl, h.nodes
    ensures h.Doubled(r) && Shape(h.View()) && h.View() == Set(h.env, old(h.View()), key, value)
    ensures OldChain(h, r) == old(OldChain(h, r))
    ensures old(h.nodes) <= h.nodes && fresh(h.nodes - old(h.nodes))
  {
    ghost var s := h.View();
    StepElsewhere(h, r);
    NoGrowth(h.env, s, h.View(), key, value);
    PutElsewhere(h, r, key, value);
  }

  /** The same of AddRaw, unless it links another entry twice. An old entry that the walk of the old table finds
      is what it returns. */
  method AddRawElsewhere<K(==), V>(h: HashTable<K, V>, ghost r: Entry<K, V>, key: K, zero: V) returns (x: Entry<K, V>)
    requires h.Doubled(r) && Shape(h.View()) && h.RehashingIdx + REHASHING_BUCKETS <= Bucket(h.env, r.Key, h.Size)
    requires Bucket(h.env, key, h.RehashingSize) != Bucket(h.env, r.Key, h.RehashingSize)
    requires !LinksTwice(h.env, h.View(), key)
    modifies h`RehashingIdx, h`content, h`rcontent, h`nodes, h`Count, h`usedMemory, h.Table, h.RehashingTbl, h.nodes
    ensures h.Doubled(r) && Shape(h.View()) && h.View() == AddRaw(h.env, old(h.View()), key, zero) && x.Key == key
    ensures OldChain(h, r) == old(OldChain(h, r))
    ensures old(h.nodes) <= h.nodes && fresh(h.nodes - old(h.nodes))
  {
    ghost var s := h.View();
    StepElsewhere(h, r);
    NoGrowth(h.env, s, h.View(), key, zero);
    x := AddElsewhere(h, r, key, zero);
  }

  method AddElsewhere<K(==), V>(h: HashTable<K, V>, ghost r: Entry<K, V>, key: K, zero: V) returns (x: Entry<K, V>)
    requires h.Doubled(r) && Shape(h.View()) && Bucket(h.env, key, h.RehashingSize) != Bucket(h.env, r.Key, h.RehashingSize)
    requires !Doubles(h.env, h.View(), key)
    modifies h`nodes, h`rcontent, h`Count, h`usedMemory, h.RehashingTbl, h.nodes`Value, h.nodes`Next
    ensures h.Doubled(r) && h.View() == AddTo(h.env, old(h.View()), key, zero) && x.Key == key
    ensures old(h.nodes) <= h.nodes && fresh(h.nodes - old(h.nodes))
  {
    ghost var b := Bucket(h.env, key, h.RehashingSize);
    assert Linked(h.RehashingTbl[b], h.rcontent.chains[b], h.rcontent.view[b]);
    var inUse := h.RehashingTbl[Bucket(h.env, key, h.RehashingSize)] != null;
    x := AddToNew(h, r, key, zero);
    if !inUse {
      x := FindInOld(h, r, key);
    }
  }

  method AddToNew<K(==), V>(h: HashTable<K, V>, ghost r: Entry<K, V>, key: K, zero: V) returns (x: Entry<K, V>)
    requires h.Doubled(r) && Shape(h.View()) && Bucket(h.env, key, h.RehashingSize) != Bucket(h.env, r.Key, h.RehashingSize)
    requires !Doubles(h.env, h.View(), key)
    modifies h`nodes, h`rcontent, h`Count, h`usedMemory, h.RehashingTbl, h.nodes`Value, h.nodes`Next
    ensures h.Doubled(r) && h.View() == AddTo(h.env, old(h.View()), key, zero) && x.Key == key
    ensures old(h.nodes) <= h.nodes && fresh(h.nodes - old(h.nodes))
  {
    var found;
    found, x := StoreElsewhere(h, r, key, zero, false);
    ChargeElsewhere(h, r, if found then 0 else 1, if found then 0 else h.env.keyMem(key));
  }

  method FindInOld<K(==), V>(h: HashTable<K, V>, ghost r: Entry<K, V>, key: K) returns (x: Entry?<K, V>)
    requires h.Doubled(r)
    ensures x != null <==> FindAt(h.env, h.content.view, key).Some?
    ensures x != null ==> x.Key == key
  {
    var index := Bucket(h.env, key, h.Size);
    assert Linked(h.Table[index], h.content.chains[index], h.content.view[index]);
    x := FindInChain(h.Table[index], key, h.content.chains[index], h.content.view[index]);
  }

  // ---------------------------------------------------------------- the step that ties the ring

  /** r's old bucket has been migrated and its new one is a ring; the buckets still to come are in order. */
  ghost predicate Tied<K, V>(h: HashTable<K, V>, r: Entry<K, V>, ring: seq<Entry<K, V>>)
    reads h, h.Table, h.RehashingTbl, h.nodes, ring
  {
    && h.Size == h.Table.Length == |h.content.chains| == |h.content.view| && 0 <= h.RehashingIdx <= h.Size
    && h.RehashingTbl != null && h.RehashingTbl != h.Table && h.RehashingSize == h.RehashingTbl.Length == 2 * h.Size > 0
    && Bucket(h.env, r.Key, h.Size) < h.RehashingIdx && Ring(h.RehashingTbl[Bucket(h.env, r.Key, h.RehashingSize)], ring)
    && (forall j :: 0 <= j < |ring| ==> ring[j].home == h.RehashingTbl)
    && forall i {:trigger h.content.chains[i]} :: h.RehashingIdx <= i < h.Size ==>
         Homed(h.env, h.Table, i, h.content.chains[i], h.nodes) && Linked(h.Table[i], h.content.chains[i], h.content.view[i])
  }

  /** rehashStep's inner loop over r's own bucket. */
  method TieHere<K(==), V>(h: HashTable<K, V>, r: Entry<K, V>) returns (ghost ring: seq<Entry<K, V>>)
    requires h.Doubled(r) && h.RehashingIdx == Bucket(h.env, r.Key, h.Size)
    modifies h`RehashingIdx, h.Table, h.RehashingTbl, h.nodes`Next, h.nodes`home
    ensures Tied(h, r, ring) && ring[0] == r && h.RehashingIdx == old(h.RehashingIdx) + 1
    ensures forall j :: 0 <= j < |ring| ==> ring[j] in old(OldChain(h, r))
  {
    var b := h.RehashingIdx;
    ghost var chains, view, c := h.content.chains, h.content.view, OldChain(h, r);
    assert forall j :: 0 <= j < |c| - 1 ==> c[..|c| - 1][j] == c[j];
    assert Homed(h.env, h.RehashingTbl, Bucket(h.env, r.Key, h.RehashingSize), [r], h.nodes) && [r][0] == r;
    var next;
    next, ring := TieRing(h.env, h.Table, h.RehashingTbl, b, r, chains, view, h.rcontent.chains, h.rcontent.view, h.nodes);
    forall i | b < i < h.Size
      ensures Homed(h.env, h.Table, i, chains[i], h.nodes) && Linked(h.Table[i], chains[i], view[i])
    {
      assert old(Homed(h.env, h.Table, i, chains[i], h.nodes)) && old(Linked(h.Table[i], chains[i], view[i]));
      assert forall j :: 0 <= j < |chains[i]| ==> chains[i][j] !in c;
    }
    h.RehashingIdx := b + 1;
  }

  /** The inner loop over a later bucket does not come near the ring. */
  method MovePastRing<K, V>(e: Env<K, V>, head: Entry?<K, V>, rt: array<Entry?<K, V>>, ghost nb: nat, ghost c: seq<Entry<K, V>>,
                            ghost v: Chain<K, V>, ghost ring: seq<Entry<K, V>>)
    requires Linked(head, c, v) && nb < rt.Length && Ring(rt[nb], ring)
    requires forall j :: 0 <= j < |c| ==> c[j] !in ring && Bucket(e, c[j].Key, rt.Length) != nb
    modifies rt, c`Next
    ensures Ring(rt[nb], ring)
  {
    var entries := head;
    ghost var j := 0;
    while entries != null
      invariant 0 <= j <= |c| && entries == At(c, j) && Ring(rt[nb], ring)
      invariant forall i {:trigger c[i].Next} :: j <= i < |c| ==> c[i].Next == At(c, i + 1)
      decreases |c| - j
    {
      assert c[j].Next == At(c, j + 1) && c[j] !in ring;
      entries := PushFront(rt, Bucket(e, entries.Key, rt.Length), entries);
      j := j + 1;
    }
  }

  method MigrateTied<K(==), V>(h: HashTable<K, V>, ghost r: Entry<K, V>, ghost ring: seq<Entry<K, V>>)
    requires Tied(h, r, ring) && h.RehashingIdx < h.Size
    modifies h`RehashingIdx, h.Table, h.RehashingTbl, h.nodes`Next
    ensures Tied(h, r, ring) && h.RehashingIdx == old(h.RehashingIdx) + 1
  {
    var i := h.RehashingIdx;
    ghost var nb, chains, view := Bucket(h.env, r.Key, h.RehashingSize), h.content.chains, h.content.view;
    ghost var c := chains[i];
    forall j | 0 <= j < |c|
      ensures c[j] !in ring && Bucket(h.env, c[j].Key, h.RehashingSize) != nb
    {
      if Bucket(h.env, c[j].Key, h.RehashingSize) == nb {
        OnlyFrom(h.env, c[j].Key, r.Key, h.Size);
      }
    }
    var entries := h.Table[i];
    h.Table[i] := null;
    MovePastRing(h.env, entries, h.RehashingTbl, nb, c, view[i], ring);
    forall k | i < k < h.Size
      ensures Homed(h.env, h.Table, k, chains[k], h.nodes) && Linked(h.Table[k], chains[k], view[k])
    {
      OtherBuckets(h.env, h.Table, i, c, k, chains[k], h.nodes);
      assert old(Linked(h.Table[k], chains[k], view[k]));
    }
    h.RehashingIdx := i + 1;
  }

  method MigrateRest<K(==), V>(h: HashTable<K, V>, ghost r: Entry<K, V>, last: int, ghost ring: seq<Entry<K, V>>)
    requires Tied(h, r, ring) && h.RehashingIdx <= last
    modifies h`RehashingIdx, h.Table, h.RehashingTbl, h.nodes`Next
    ensures Tied(h, r, ring) && h.RehashingIdx == if last < h.Size then last else h.Size
  {
    while h.RehashingIdx < last && h.RehashingIdx < h.Size
      invariant Tied(h, r, ring) && h.RehashingIdx <= last
      decreases last - h.RehashingIdx
    {
      MigrateTied(h, r, ring);
    }
  }

  /** The migration step of the first call that comes to r's old bucket: it ties the ring, goes on past it, and
      swaps the tables if it comes to the end. The ring is in what was the new table. */
  method StepIntoRing<K(==), V>(h: HashTable<K, V>, r: Entry<K, V>) returns (tbl: array<Entry?<K, V>>, ghost ring: seq<Entry<K, V>>)
    requires h.Doubled(r) && h.RehashingIdx <= Bucket(h.env, r.Key, h.Size) < h.RehashingIdx + REHASHING_BUCKETS
    modifies h`Table, h`Size, h`RehashingIdx, h`RehashingSize, h`RehashingTbl, h`content, h`rcontent
    modifies h.Table, h.RehashingTbl, h.nodes`Next, h.nodes`home
    ensures tbl == old(h.RehashingTbl) && tbl.Length == 2 * old(h.Size)
    ensures if old(h.RehashingIdx) + REHASHING_BUCKETS < old(h.Size)
            then h.RehashingIdx == old(h.RehashingIdx) + REHASHING_BUCKETS && h.RehashingTbl == tbl && h.Size == old(h.Size)
            else h.RehashingIdx == -1 && h.Table == tbl && h.Size == tbl.Length
    ensures Ring(tbl[Bucket(h.env, r.Key, tbl.Length)], ring) && ring[0] == r
    ensures forall j :: 0 <= j < |ring| ==> ring[j] in old(OldChain(h, r))
  {
    tbl := h.RehashingTbl;
    var last := h.RehashingIdx + REHASHING_BUCKETS;
    MigrateOthers(h, r, Bucket(h.env, r.Key, h.Size) - h.RehashingIdx);
    ring := TieHere(h, r);
    MigrateRest(h, r, last, ring);
    SwapTied(h);
  }

  /** The swap at the end of rehashStep. */
  method SwapTied<K(==), V>(h: HashTable<K, V>)
    requires h.RehashingTbl != null
    modifies h`Table, h`Size, h`RehashingIdx, h`RehashingSize, h`RehashingTbl
    ensures old(h.RehashingIdx == h.Size) ==> h.Table == old(h.RehashingTbl) && h.Size == old(h.RehashingSize) && h.RehashingIdx == -1
    ensures old(h.RehashingIdx != h.Size) ==>
      h.RehashingTbl == old(h.RehashingTbl) && h.Size == old(h.Size) && h.RehashingIdx == old(h.RehashingIdx)
  {
    if h.RehashingIdx == h.Size {
      h.Table, h.Size := h.RehashingTbl, h.RehashingSize;
      h.RehashingTbl, h.RehashingIdx, h.RehashingSize := null, -1, 0;
    }
  }

  // ---------------------------------------------------------------- from the call that links twice to the ring

  datatype Call<K, V> = SetCall(key: K, val: V) | AddRawCall(key: K, val: V)

  function Called<K(==), V>(e: Env<K, V>, s: State<K, V>, call: Call<K, V>): (r: State<K, V>)
    requires Shape(s)
    ensures Shape(r)
  {
    SetKeepsShape(e, s, call.key, call.val);
    if call.SetCall? then Set(e, s, call.key, call.val) else AddRaw(e, s, call.key, call.val)
  }

  function CallAll<K(==), V>(e: Env<K, V>, s: State<K, V>, calls: seq<Call<K, V>>): (r: State<K, V>)
    requires Shape(s)
    ensures Shape(r)
    decreases |calls|
  {
    if calls == [] then s else CallAll(e, Called(e, s, calls[0]), calls[1..])
  }

  /** The calls stay away from k: none of their steps comes to its old bucket, none of their keys has its new
      one, and none links an entry of its own twice. */
  predicate StayAway<K(==), V>(e: Env<K, V>, s: State<K, V>, k: K, calls: seq<Call<K, V>>)
    requires Shape(s)
    decreases |calls|
  {
    calls == [] ||
    (&& 0 <= s.idx && s.idx + REHASHING_BUCKETS <= Bucket(e, k, |s.table|)
     && Bucket(e, calls[0].key, 2 * |s.table|) != Bucket(e, k, 2 * |s.table|)
     && (calls[0].AddRawCall? ==> !LinksTwice(e, s, calls[0].key))
     && StayAway(e, Called(e, s, calls[0]), k, calls[1..]))
  }

  method CallsElsewhere<K(==), V>(h: HashTable<K, V>, ghost r: Entry<K, V>, calls: seq<Call<K, V>>)
    requires h.Doubled(r) && Shape(h.View()) && StayAway(h.env, h.View(), r.Key, calls)
    modifies h`RehashingIdx, h`content, h`rcontent, h`nodes, h`Count, h`usedMemory, h.Table, h.RehashingTbl, h.nodes
    ensures h.Doubled(r) && h.View() == CallAll(h.env, old(h.View()), calls) && OldChain(h, r) == old(OldChain(h, r))
    ensures old(h.nodes) <= h.nodes && fresh(h.nodes - old(h.nodes))
    decreases |calls|
  {
    if calls != [] {
      if calls[0].SetCall? {
        SetElsewhere(h, r, calls[0].key, calls[0].val);
      } else {
        var x := AddRawElsewhere(h, r, calls[0].key, calls[0].val);
      }
      CallsElsewhere(h, r, calls[1..]);
    }
  }

  /** No key that s does not hold is among the keys of c, but for k. */
  ghost predicate OnlyOld<K(!new), V>(e: Env<K, V>, s: State<K, V>, k: K, c: seq<Entry<K, V>>)
    requires Shape(s)
  {
    forall q :: q != k && Lookup(e, s, q) == None ==> forall j :: 0 <= j < |c| ==> c[j].Key != q
  }

  method LinkTwice<K(==, !new), V>(h: HashTable<K, V>, key: K, zero: V) returns (r: Entry<K, V>)
    requires h.Valid() && Good(h.env, h.View()) && LinksTwice(h.env, h.View(), key)
    modifies h, h.Table, h.RehashingTbl, h.nodes
    ensures h.Doubled(r) && r.Key == key && h.View() == AddRaw(h.env, old(h.View()), key, zero)
    ensures OnlyOld(h.env, old(h.View()), key, OldChain(h, r))
    ensures h.Table == old(h.Table) || h.Table == old(h.RehashingTbl)
    ensures h.RehashingTbl == null || h.RehashingTbl == old(h.RehashingTbl) || fresh(h.RehashingTbl)
    ensures old(h.nodes) <= h.nodes && fresh(h.nodes - old(h.nodes))
  {
    AddRawExact(h.env, h.View(), key, zero);
    ghost var s := h.View();
    var existed;
    r, existed := h.AddRaw(key, zero);
    ChainKeys(h, r);
    forall q | q != key && Lookup(h.env, s, q) == None
      ensures forall j :: 0 <= j < |OldChain(h, r)| ==> OldChain(h, r)[j].Key != q
    {
      assert Lookup(h.env, AddRaw(h.env, s, key, zero), q) == None;
    }
  }

  lemma OnlyOldToo<K(!new), V>(e: Env<K, V>, s: State<K, V>, k: K, c: seq<Entry<K, V>>, ring: seq<Entry<K, V>>)
    requires Shape(s) && OnlyOld(e, s, k, c) && forall j :: 0 <= j < |ring| ==> ring[j] in c
    ensures OnlyOld(e, s, k, ring)
  {
  }

  /** Calls that stay away from r, and then the migration step of one that comes to it. */
  method CallsIntoRing<K(==), V>(h: HashTable<K, V>, r: Entry<K, V>, calls: seq<Call<K, V>>)
    returns (tbl: array<Entry?<K, V>>, ghost ring: seq<Entry<K, V>>)
    requires h.Doubled(r) && Shape(h.View()) && StayAway(h.env, h.View(), r.Key, calls)
    requires var s := CallAll(h.env, h.View(), calls); s.idx <= Bucket(h.env, r.Key, |s.table|) < s.idx + REHASHING_BUCKETS
    modifies h, h.Table, h.RehashingTbl, h.nodes
    ensures tbl.Length == 2 * old(h.Size) && (if h.RehashingIdx == -1 then h.Table == tbl else h.RehashingTbl == tbl)
    ensures var s := CallAll(h.env, old(h.View()), calls);
      h.RehashingIdx == if s.idx + REHASHING_BUCKETS < |s.table| then s.idx + REHASHING_BUCKETS else -1
    ensures Ring(tbl[Bucket(h.env, r.Key, tbl.Length)], ring) && ring[0] == r
    ensures forall j :: 0 <= j < |ring| ==> ring[j] in old(OldChain(h, r))
  {
    CallsElsewhere(h, r, calls);
    tbl, ring := StepIntoRing(h, r);
  }

  /** AddRaw on a call that links twice on a bucket not yet migrated, any calls that stay away from it, and the
      migration step of the next call, if that comes to the bucket: the new bucket is a ring, and no key that was
      absent before is on it, so a search that comes to it for one goes on for ever. */
  method AddIntoRing<K(==, !new), V>(h: HashTable<K, V>, key: K, zero: V, calls: seq<Call<K, V>>)
    returns (r: Entry<K, V>, tbl: array<Entry?<K, V>>, ghost ring: seq<Entry<K, V>>)
    requires h.Valid() && Good(h.env, h.View()) && LinksTwice(h.env, h.View(), key)
    requires StayAway(h.env, AddRaw(h.env, h.View(), key, zero), key, calls)
    requires var s := CallAll(h.env, AddRaw(h.env, h.View(), key, zero), calls);
      s.idx <= Bucket(h.env, key, |s.table|) < s.idx + REHASHING_BUCKETS
    modifies h, h.Table, h.RehashingTbl, h.nodes
    ensures r.Key == key && tbl.Length == 2 * |old(h.View()).table| && (if h.RehashingIdx == -1 then h.Table == tbl else h.RehashingTbl == tbl)
    ensures var s := CallAll(h.env, AddRaw(h.env, old(h.View()), key, zero), calls);
      h.RehashingIdx == if s.idx + REHASHING_BUCKETS < |s.table| then s.idx + REHASHING_BUCKETS else -1
    ensures Ring(tbl[Bucket(h.env, key, tbl.Length)], ring) && ring[0] == r
    ensures OnlyOld(h.env, old(h.View()), key, ring)
  {
    r := LinkTwice(h, key, zero);
    ghost var c := OldChain(h, r);
    tbl, ring := CallsIntoRing(h, r, calls);
    OnlyOldToo(h.env, old(h.View()), key, c, ring);
  }

  /** So it is with the search for an absent key of the same new bucket by the very next call, if its step comes
      to the old one: after any number of turns it is still on the ring. */
  method SearchHangs<K(==, !new), V>(h: HashTable<K, V>, key: K, zero: V, q: K, turns: nat)
    returns (tbl: array<Entry?<K, V>>, curr: Entry?<K, V>, ghost ring: seq<Entry<K, V>>)
    requires h.Valid() && Good(h.env, h.View()) && LinksTwice(h.env, h.View(), key)
    requires var u := AddRaw(h.env, h.View(), key, zero); u.idx <= Bucket(h.env, key, |u.table|) < u.idx + REHASHING_BUCKETS
    requires q != key && Lookup(h.env, h.View(), q) == None
    requires Bucket(h.env, q, 2 * |h.View().table|) == Bucket(h.env, key, 2 * |h.View().table|)
    modifies h, h.Table, h.RehashingTbl, h.nodes
    ensures var u := AddRaw(h.env, old(h.View()), key, zero);
      h.RehashingIdx == if u.idx + REHASHING_BUCKETS < |u.table| then u.idx + REHASHING_BUCKETS else -1
    ensures tbl.Length == 2 * |old(h.View()).table| && (if h.RehashingIdx == -1 then h.Table == tbl else h.RehashingTbl == tbl)
    ensures Ring(tbl[Bucket(h.env, q, tbl.Length)], ring) && curr in ring && curr.Key != q
  {
    var r;
    r, tbl, ring := AddIntoRing(h, key, zero, []);
    assert forall j :: 0 <= j < |ring| ==> ring[j].Key != q;
    curr := SearchTurns(tbl[Bucket(h.env, q, tbl.Length)], q, turns, ring);
  }

  // ---------------------------------------------------------------- a table that gets there

  lemma {:induction false} FilledIsGood(size: nat, b: nat, n: nat)
    requires b < size && 10 * (n - 1) <= 7 * size
    ensures Good(Crowded(b), GrowIfLoaded(Filled(size, b, n)))
  {
    if n == 0 {
      NewIsGood(Crowded(b), size);
      assert Filled(size, b, 0) == New<nat, int>(size);
    } else {
      FilledIsGood(size, b, n - 1);
      SetFilled(size, b, n - 1);
      SetExact(Crowded(b), Filled(size, b, n - 1), n - 1, 0);
    }
  }

  method SetNext(h: HashTable<nat, int>, ghost size: nat, ghost b: nat, i: nat)
    requires b < size && h.Valid() && h.env == Crowded(b) && h.View() == Filled(size, b, i)
    modifies h, h.Table, h.RehashingTbl, h.nodes
    ensures h.Valid() && h.View() == GrowIfLoaded(Filled(size, b, i + 1))
    ensures h.Table == old(h.Table) || h.Table == old(h.RehashingTbl)
    ensures h.RehashingTbl == null || h.RehashingTbl == old(h.RehashingTbl) || fresh(h.RehashingTbl)
    ensures old(h.nodes) <= h.nodes && fresh(h.nodes - old(h.nodes))
  {
    SetFilled(size, b, i);
    h.Set(i, 0);
  }

  method Fill(size: nat, b: nat, n: nat) returns (h: HashTable<nat, int>)
    requires b < size && JustOver(size, n)
    ensures fresh(h) && fresh(h.Table) && fresh(h.nodes) && (h.RehashingTbl != null ==> fresh(h.RehashingTbl))
    ensures h.Valid() && h.env == Crowded(b) && h.View() == GrowIfLoaded(Filled(size, b, n))
  {
    h := new HashTable(Crowded(b), size);
    assert h.View() == Filled(size, b, 0);
    var i := 0;
    while i < n
      invariant 0 <= i <= n && h.Valid() && h.env == Crowded(b)
      invariant h.View() == if i < n then Filled(size, b, i) else GrowIfLoaded(Filled(size, b, n))
      invariant fresh(h) && fresh(h.Table) && fresh(h.nodes) && (h.RehashingTbl != null ==> fresh(h.RehashingTbl))
    {
      SetNext(h, size, b, i);
      i := i + 1;
    }
  }

  /** What a table like that is ready for: key n to be linked twice, on the bucket of n + 1, and the step after
      that to come to it. */
  ghost predicate Ready(e: Env<nat, int>, s: State<nat, int>, size: nat, b: nat, n: nat) {
    && Shape(s)
    && var u := AddRaw(e, s, n, 0);
       && Good(e, s) && LinksTwice(e, s, n) && Lookup(e, s, n + 1) == None && |s.table| == size == |u.table|
       && u.idx == 10 <= Bucket(e, n, size) < 20
       && Bucket(e, n + 1, 2 * size) == Bucket(e, n, 2 * size) == b
  }

  lemma FilledIsReady(size: nat, b: nat, n: nat)
    requires 10 <= b < 20 && b < size && JustOver(size, n)
    ensures Ready(Crowded(b), GrowIfLoaded(Filled(size, b, n)), size, b, n)
  {
    var s := NextLinksTwice(size, b, n);
    StepKeepsShape(Crowded(b), s);
    CrowdedBucket(b, n, size);
    CrowdedBucket(b, n, 2 * size);
    CrowdedBucket(b, n + 1, 2 * size);
    FilledIsGood(size, b, n);
  }

  /** n Sets that fill one bucket from the second ten of a new table and begin a migration, AddRaw of the next
      key, and the migration step of the Set of the one after it: however many turns its search has made, it is
      still going on, and so the migration stays where it is. */
  method NextCallHangs(size: nat, b: nat, n: nat, turns: nat)
    returns (h: HashTable<nat, int>, tbl: array<Entry?<nat, int>>, curr: Entry?<nat, int>, ghost ring: seq<Entry<nat, int>>)
    requires 10 <= b < 20 && b < size && JustOver(size, n)
    ensures h.RehashingIdx == (if size > 20 then 20 else -1) && (if h.RehashingIdx == -1 then h.Table == tbl else h.RehashingTbl == tbl)
    ensures b < tbl.Length && Ring(tbl[b], ring) && curr in ring && curr.Key != n + 1
  {
    h := FillReady(size, b, n);
    tbl, curr, ring := HangsOn(h, size, b, n, turns);
  }

  method HangsOn(h: HashTable<nat, int>, ghost size: nat, ghost b: nat, n: nat, turns: nat)
    returns (tbl: array<Entry?<nat, int>>, curr: Entry?<nat, int>, ghost ring: seq<Entry<nat, int>>)
    requires h.Valid() && Ready(h.env, h.View(), size, b, n)
    modifies h, h.Table, h.RehashingTbl, h.nodes
    ensures h.RehashingIdx == (if size > 20 then 20 else -1) && (if h.RehashingIdx == -1 then h.Table == tbl else h.RehashingTbl == tbl)
    ensures b < tbl.Length && Ring(tbl[b], ring) && curr in ring && curr.Key != n + 1
  {
    tbl, curr, ring := SearchHangs(h, n, 0, n + 1, turns);
  }

  method FillReady(size: nat, b: nat, n: nat) returns (h: HashTable<nat, int>)
    requires 10 <= b < 20 && b < size && JustOver(size, n)
    ensures fresh(h) && fresh(h.Table) && fresh(h.nodes) && (h.RehashingTbl != null ==> fresh(h.RehashingTbl))
    ensures h.Valid() && Ready(h.env, h.View(), size, b, n)
  {
    FilledIsReady(size, b, n);
    h := Fill(size, b, n);
  }

  /** Sixteen Sets on a new table of twenty-two buckets lead there; the values alone, which know of no shared
      entry, would have the migration end with the second Set after it. */
  lemma TieIsReachable()
    ensures exists e: Env<nat, int>, kvs: seq<(nat, int)>, k: nat ::
      var s := SetAll(e, New(22), kvs);
      && |kvs| == 16 && LoadBelow(s) && s.idx == 0 && Ties(e, s, AddOp(k, 0, 0)) && Lookup(e, s, k + 1) == None
      && Run(e, s, [AddOp(k, 0, 0), SetOp(k + 1, 0), SetOp(k + 2, 0)]).idx == -1
  {
    var s := LinksTwiceAfter(22, 15, 16, Keys(16));
    ValuesGoOn(Crowded(15), s, 16);
  }

  lemma ValuesGoOn(e: Env<nat, int>, s: State<nat, int>, k: nat)
    requires LoadBelow(s) && s.idx == 0 && |s.table| == 22
    ensures Run(e, s, [AddOp(k, 0, 0), SetOp(k + 1, 0), SetOp(k + 2, 0)]).idx == -1
  {
    var op0: Op<nat, int>, op1: Op<nat, int>, op2: Op<nat, int> := AddOp(k, 0, 0), SetOp(k + 1, 0), SetOp(k + 2, 0);
    NextIsBelow(e, s, op0);
    NextIsBelow(e, Step(e, s, op0), op1);
    NextIsBelow(e, Step(e, Step(e, s, op0), op1), op2);
    RunThree(e, s, op0, op1, op2);
  }

  lemma RunThree<K, V>(e: Env<K, V>, s: State<K, V>, a: Op<K, V>, b: Op<K, V>, c: Op<K, V>)
    requires Shape(s)
    ensures Run(e, s, [a, b, c]) == Step(e, Step(e, Step(e, s, a), b), c)
  {
    var s1 := Step(e, s, a);
    assert [a, b, c][1..] == [b, c] && [b, c][1..] == [c] && [c][1..] == [];
    assert Run(e, Step(e, s1, b), [c]) == Run(e, Step(e, Step(e, s1, b), c), []);
  }

  lemma NextIsBelow(e: Env<nat, int>, s: State<nat, int>, op: Op<nat, int>)
    requires LoadBelow(s) && 0 <= s.idx <= 20 && |s.table| == 22 && Inserting(op)
    ensures var r := Step(e, s, op); LoadBelow(r) && if s.idx < 12 then r.idx == s.idx + 10 && |r.table| == 22 else r.idx == -1
  {
    StepMoves(e, s, op);
    StepKeepsLoadBelow(e, s, op);
  }
}
