/** Set and Delete, one call at a time, against the finite map they should be. */
module DictCalls {
  import opened Util
  import opened Dict
  import opened DictRefinement

  ghost predicate Represents<K(!new), V>(e: Env<K, V>, s: State<K, V>, m: map<K, V>)
    requires Shape(s)
  {
    forall k :: Lookup(e, s, k) == if k in m then Some(m[k]) else None
  }

  /** The calls that break the table, read off the state before the call: a migration goes on past this
      step, and the key still sits in a bucket of the old table that the step will not reach. */
  predicate Stale<K(==), V>(e: Env<K, V>, s: State<K, V>, k: K)
    requires Shape(s)
  {
    var b := Bucket(e, k, |s.table|);
    0 <= s.idx && s.idx + REHASHING_BUCKETS < |s.table| && s.idx + REHASHING_BUCKETS <= b && Find(s.table[b], k).Some?
  }

  lemma {:induction false} MigrateEmptiesBuckets<K, V>(e: Env<K, V>, s: State<K, V>, n: nat, b: nat)
    requires 0 <= s.idx <= |s.table| && s.rtable != [] && b < |s.table|
    ensures Migrate(e, s, n).table[b] == if s.idx <= b < s.idx + n then [] else s.table[b]
    decreases n
  {
    if n != 0 && s.idx < |s.table| {
      MigrateEmptiesBuckets(e, MigrateBucket(e, s), n - 1, b);
    }
  }

  lemma StepLeavesBucket<K, V>(e: Env<K, V>, s: State<K, V>, b: nat)
    requires Shape(s) && 0 <= s.idx && s.idx + 10 < |s.table| && b < |s.table|
    ensures |StepIfRehashing(e, s).table| == |s.table|
    ensures StepIfRehashing(e, s).table[b] == if s.idx <= b < s.idx + 10 then [] else s.table[b]
  {
    StepKeepsShape(e, s);
    MigrateEmptiesBuckets(e, s, REHASHING_BUCKETS, b);
  }

  lemma GrowKeeps<K(!new), V>(e: Env<K, V>, s: State<K, V>)
    requires Shape(s)
    ensures Shape(GrowIfLoaded(s))
    ensures Good(e, GrowIfLoaded(s)) <==> Good(e, s)
    ensures forall k :: Lookup(e, GrowIfLoaded(s), k) == Lookup(e, s, k)
    ensures forall f :: Weight(f, GrowIfLoaded(s)) == Weight(f, s)
  {
    var g := GrowIfLoaded(s);
    if g != s {
      assert forall i :: 0 <= i < |g.rtable| ==> g.rtable[i] == [];
      forall f
        ensures Weight(f, g) == Weight(f, s)
      {
        TotalEmpty(f, g.rtable);
      }
    }
  }

  lemma PutAtSpec<K(!new), V>(e: Env<K, V>, t: seq<Chain<K, V>>, k: K, v: V, q: K)
    requires t != [] && Placed(e, t)
    ensures Placed(e, PutAt(e, t, k, v))
    ensures FindAt(e, PutAt(e, t, k, v), q) ==
            if q == k then Some(v) else FindAt(e, t, q)
  {
    var b := Bucket(e, k, |t|);
    assert InBucket(e, t[b], |t|, b);
    PutStaysInBucket(e, t[b], |t|, b, k, v);
    PutSpec(t[b], k, v, q);
  }

  lemma RemoveAtSpec<K(!new), V>(e: Env<K, V>, t: seq<Chain<K, V>>, k: K, q: K)
    requires t != [] && Placed(e, t)
    ensures Placed(e, RemoveAt(e, t, k))
    ensures FindAt(e, RemoveAt(e, t, k), q) == if q == k then None else FindAt(e, t, q)
  {
    var b := Bucket(e, k, |t|);
    assert InBucket(e, t[b], |t|, b);
    RemoveStaysInBucket(e, t[b], |t|, b, k);
    RemoveSpec(t[b], k, q);
  }

  /** The key the store will not see, because it searches the new table only. */
  predicate Hidden<K(==), V>(e: Env<K, V>, s: State<K, V>, k: K)
    requires Shape(s)
  {
    s.idx >= 0 && FindAt(e, s.table, k).Some?
  }

  function Before<K(==), V>(e: Env<K, V>, s: State<K, V>, k: K, f: ((K, V)) -> int): int
    requires Shape(s)
  {
    match Lookup(e, s, k) case None => 0 case Some(o) => f((k, o))
  }

  /** The weight an overwrite takes away: that of the entry for k, unless the call overlooks it. */
  function Replaced<K(==), V>(e: Env<K, V>, s: State<K, V>, k: K, f: ((K, V)) -> int, overlooked: bool): int
    requires Shape(s)
  {
    if overlooked then 0 else Before(e, s, k, f)
  }

  lemma StoreSpec<K(!new), V>(e: Env<K, V>, s: State<K, V>, k: K, v: V)
    requires Good(e, s)
    ensures Shape(Store(e, s, k, v))
    ensures Good(e, Store(e, s, k, v)) <==> !Hidden(e, s, k)
    ensures forall q :: Lookup(e, Store(e, s, k, v), q) == if q == k then Some(v) else Lookup(e, s, q)
    ensures forall f :: Weight(f, Store(e, s, k, v)) == Weight(f, s) + f((k, v)) - Replaced(e, s, k, f, Hidden(e, s, k))
  {
    var r := Store(e, s, k, v);
    var t := if s.idx >= 0 then s.rtable else s.table;
    var b := Bucket(e, k, |t|);
    var u := PutAt(e, t, k, v);
    forall q
      ensures Placed(e, u)
      ensures FindAt(e, u, q) == if q == k then Some(v) else FindAt(e, t, q)
    {
      PutAtSpec(e, t, k, v, q);
    }
    forall f
      ensures Total(f, u) == Total(f, t) + f((k, v)) - match Find(t[b], k) case None => 0 case Some(o) => f((k, o))
    {
      TotalUpdate(f, t, b, Put(t[b], k, v));
      PutSum(f, t[b], k, v);
    }
    PutAtSpec(e, t, k, v, k);
    if s.idx >= 0 {
      assert r.rtable == u && r.table == s.table;
      if Hidden(e, s, k) {
        assert FindAt(e, r.table, k).Some? && FindAt(e, r.rtable, k).Some?;
      } else {
        assert Disjoint(e, r.table, r.rtable);
      }
    }
  }

  lemma StaleIsHidden<K(!new), V>(e: Env<K, V>, s: State<K, V>, k: K)
    requires Good(e, s)
    ensures Shape(StepIfRehashing(e, s))
    ensures Stale(e, s, k) <==> Hidden(e, StepIfRehashing(e, s), k)
  {
    StepKeepsShape(e, s);
    if 0 <= s.idx && s.idx + 10 < |s.table| {
      StepLeavesBucket(e, s, Bucket(e, k, |s.table|));
    }
  }

  /** Set keeps "one map over two tables" exactly when the call is not stale. Even a stale call answers
      the next lookups right; it is the duplicate it leaves behind that breaks the table. */
  lemma SetExact<K(!new), V>(e: Env<K, V>, s: State<K, V>, k: K, v: V)
    requires Good(e, s)
    ensures Shape(Set(e, s, k, v))
    ensures Good(e, Set(e, s, k, v)) <==> !Stale(e, s, k)
    ensures forall q :: Lookup(e, Set(e, s, k, v), q) == if q == k then Some(v) else Lookup(e, s, q)
    ensures forall f :: Weight(f, Set(e, s, k, v)) == Weight(f, s) + f((k, v)) - Replaced(e, s, k, f, Stale(e, s, k))
  {
    RehashStepConserves(e, s);
    StaleIsHidden(e, s, k);
    StoreSpec(e, StepIfRehashing(e, s), k, v);
    GrowKeeps(e, Store(e, StepIfRehashing(e, s), k, v));
  }

  lemma DeleteWeight<K(!new), V>(e: Env<K, V>, s: State<K, V>, k: K, f: ((K, V)) -> int)
    requires Good(e, s)
    ensures Weight(f, Delete(e, s, k).0) == Weight(f, s) - Before(e, s, k, f)
  {
    var b := Bucket(e, k, |s.table|);
    TotalUpdate(f, s.table, b, Remove(s.table[b], k));
    RemoveSum(f, s.table[b], k);
    if s.idx >= 0 {
      var rb := Bucket(e, k, |s.rtable|);
      TotalUpdate(f, s.rtable, rb, Remove(s.rtable[rb], k));
      RemoveSum(f, s.rtable[rb], k);
      assert FindAt(e, s.table, k) == None || FindAt(e, s.rtable, k) == None;
    }
  }

  /** Delete removes its key and nothing else, wherever the migration stands, and says whether it was there. */
  lemma DeleteExact<K(!new), V>(e: Env<K, V>, s: State<K, V>, k: K)
    requires Good(e, s)
    ensures Good(e, Delete(e, s, k).0)
    ensures Delete(e, s, k).1 <==> Lookup(e, s, k).Some?
    ensures forall q :: Lookup(e, Delete(e, s, k).0, q) == if q == k then None else Lookup(e, s, q)
  {
    var r := Delete(e, s, k).0;
    assert r.table == RemoveAt(e, s.table, k);
    assert s.idx >= 0 ==> r.rtable == RemoveAt(e, s.rtable, k);
    forall q
      ensures FindAt(e, r.table, q) == if q == k then None else FindAt(e, s.table, q)
      ensures s.idx >= 0 ==> (FindAt(e, r.rtable, q) == if q == k then None else FindAt(e, s.rtable, q))
      ensures Placed(e, r.table) && (s.idx >= 0 ==> Placed(e, r.rtable))
    {
      RemoveAtSpec(e, s.table, k, q);
      if s.idx >= 0 {
        RemoveAtSpec(e, s.rtable, k, q);
      }
    }
    RemoveAtSpec(e, s.table, k, k);
    if s.idx >= 0 {
      RemoveAtSpec(e, s.rtable, k, k);
      forall q
        ensures FindAt(e, r.table, q) == None || FindAt(e, r.rtable, q) == None
      {
        assert FindAt(e, s.table, q) == None || FindAt(e, s.rtable, q) == None;
      }
    }
  }

  // ---------------------------------------------------------------- the counters

  function One<K, V>(): ((K, V)) -> int { p => 1 }

  function EntryMem<K, V>(e: Env<K, V>): ((K, V)) -> int {
    (p: (K, V)) => e.keyMem(p.0) + e.valMem(p.1)
  }

  /** How far one Set moves the memory counter away from the memory of the entries: an overwrite in the
      idle table leaves the old entry charged, an overwrite in the new table charges nothing. */
  function SetDrift<K(==), V>(e: Env<K, V>, s: State<K, V>, k: K, v: V): int
    requires Shape(s)
  {
    if Stale(e, s, k) then 0
    else match Lookup(e, s, k)
      case None => 0
      case Some(o) =>
        if 0 <= s.idx && s.idx + REHASHING_BUCKETS < |s.table| then e.valMem(o) - e.valMem(v)
        else e.keyMem(k) + e.valMem(o)
  }

  lemma SetCounters<K(!new), V>(e: Env<K, V>, s: State<K, V>, k: K, v: V)
    requires Good(e, s)
    ensures Set(e, s, k, v).count == s.count + if Stale(e, s, k) || Lookup(e, s, k) == None then 1 else 0
    ensures Set(e, s, k, v).mem - Weight(EntryMem(e), Set(e, s, k, v)) ==
            s.mem - Weight(EntryMem(e), s) + SetDrift(e, s, k, v)
  {
    StepKeepsShape(e, s);
    RehashStepConserves(e, s);
    StaleIsHidden(e, s, k);
    var t := StepIfRehashing(e, s);
    assert Lookup(e, t, k) == Lookup(e, s, k);
    StoreCounters(e, t, k, v);
    SetExact(e, s, k, v);
    var f: ((K, V)) -> int := EntryMem(e);
    assert Weight(f, Set(e, s, k, v)) == Weight(f, s) + f((k, v)) - Replaced(e, s, k, f, Stale(e, s, k));
  }

  lemma StoreCounters<K(!new), V>(e: Env<K, V>, s: State<K, V>, k: K, v: V)
    requires Good(e, s)
    ensures var counted := Hidden(e, s, k) || Lookup(e, s, k) == None;
      && Store(e, s, k, v).count == s.count + (if counted then 1 else 0)
      && Store(e, s, k, v).mem == s.mem + if counted || s.idx < 0 then e.keyMem(k) + e.valMem(v) else 0
  {
    assert s.idx >= 0 ==> FindAt(e, s.table, k) == None || FindAt(e, s.rtable, k) == None;
  }

  lemma DeleteCounters<K(!new), V>(e: Env<K, V>, s: State<K, V>, k: K)
    requires Good(e, s)
    ensures Delete(e, s, k).0.count == s.count
    ensures Delete(e, s, k).0.mem - Weight(EntryMem(e), Delete(e, s, k).0) == s.mem - Weight(EntryMem(e), s)
  {
    DeleteWeight(e, s, k, EntryMem(e));
    assert s.idx >= 0 ==> FindAt(e, s.table, k) == None || FindAt(e, s.rtable, k) == None;
  }

  lemma SetKeepsShape<K, V>(e: Env<K, V>, s: State<K, V>, k: K, v: V)
    requires Shape(s)
    ensures Shape(Set(e, s, k, v))
  {
    StepKeepsShape(e, s);
  }
}
