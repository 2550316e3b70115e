/** AddRaw and SetVal, one call at a time, against the finite map they should be. */
module DictAdd {
  import opened Util
  import opened Dict
  import opened DictRefinement
  import opened DictCalls

  lemma InBoth<K(!new), V>(e: Env<K, V>, s: State<K, V>, k: K)
    requires Shape(s) && s.idx >= 0 && FindAt(e, s.table, k).Some? && FindAt(e, s.rtable, k).Some?
    ensures !Good(e, s)
  {
    assert Good(e, s) ==> Disjoint(e, s.table, s.rtable);
  }

  // ---------------------------------------------------------------- AddRaw

  lemma AddToSpec<K(!new), V>(e: Env<K, V>, t: State<K, V>, k: K, zero: V)
    requires Good(e, t)
    ensures Shape(AddTo(e, t, k, zero)) && (Good(e, AddTo(e, t, k, zero)) <==> !Hidden(e, t, k) && !Doubles(e, t, k))
    ensures forall q :: Lookup(e, AddTo(e, t, k, zero), q) ==
                        if q != k || (Lookup(e, t, k).Some? && !Hidden(e, t, k)) then Lookup(e, t, q) else Some(zero)
    ensures !Hidden(e, t, k) && !Doubles(e, t, k) ==>
      forall f :: Weight(f, AddTo(e, t, k, zero)) == Weight(f, t) + if Lookup(e, t, k) == None then f((k, zero)) else 0
  {
    var target := if t.idx >= 0 then t.rtable else t.table;
    assert t.idx >= 0 ==> FindAt(e, t.table, k) == None || FindAt(e, t.rtable, k) == None;
    if Doubles(e, t, k) {
      DoublesSpec(e, t, k, zero);
    } else if FindAt(e, target, k) == None {
      var u, m := Store(e, t, k, zero), t.mem + e.keyMem(k);
      StoreSpec(e, t, k, zero);
      MemIsIrrelevant(e, u, m);
    }
  }

  lemma DoublesSpec<K(!new), V>(e: Env<K, V>, t: State<K, V>, k: K, zero: V)
    requires Good(e, t) && Doubles(e, t, k)
    ensures Shape(AddTo(e, t, k, zero)) && !Good(e, AddTo(e, t, k, zero))
    ensures forall q :: Lookup(e, AddTo(e, t, k, zero), q) == if q == k then Some(zero) else Lookup(e, t, q)
  {
    forall q
      ensures FindAt(e, PutAt(e, t.table, k, zero), q) == if q == k then Some(zero) else FindAt(e, t.table, q)
      ensures FindAt(e, PutAt(e, t.rtable, k, zero), q) == if q == k then Some(zero) else FindAt(e, t.rtable, q)
    {
      PutAtSpec(e, t.table, k, zero, q);
      PutAtSpec(e, t.rtable, k, zero, q);
    }
    InBoth(e, AddTo(e, t, k, zero), k);
  }

  lemma MemIsIrrelevant<K(!new), V>(e: Env<K, V>, u: State<K, V>, m: int)
    requires Shape(u)
    ensures Good(e, u.(mem := m)) <==> Good(e, u)
    ensures forall q :: Lookup(e, u.(mem := m), q) == Lookup(e, u, q)
    ensures forall f :: Weight(f, u.(mem := m)) == Weight(f, u)
  {
  }

  /** AddRaw keeps the table good exactly when it is not stale and does not link its entry twice. It adds an
      absent key with the zero value, and leaves a present one, and every other key, as they were; a stale
      call hides the key's value behind a zero value. */
  lemma AddRawExact<K(!new), V>(e: Env<K, V>, s: State<K, V>, k: K, zero: V)
    requires Good(e, s)
    ensures Good(e, AddRaw(e, s, k, zero)) <==> !Stale(e, s, k) && !LinksTwice(e, s, k)
    ensures forall q :: Lookup(e, AddRaw(e, s, k, zero), q) ==
                        if q != k || (Lookup(e, s, k).Some? && !Stale(e, s, k)) then Lookup(e, s, q) else Some(zero)
    ensures !Stale(e, s, k) && !LinksTwice(e, s, k) ==>
      forall f :: Weight(f, AddRaw(e, s, k, zero)) == Weight(f, s) + if Lookup(e, s, k) == None then f((k, zero)) else 0
  {
    RehashStepConserves(e, s);
    StaleIsHidden(e, s, k);
    var t := StepIfRehashing(e, s);
    AddToSpec(e, t, k, zero);
    GrowKeeps(e, AddTo(e, t, k, zero));
  }

  // ---------------------------------------------------------------- SetVal

  /** SetVal on what GetEntry finds overwrites the value of a present key in whichever table it is. */
  lemma SetFoundExact<K(!new), V>(e: Env<K, V>, s: State<K, V>, k: K, v: V)
    requires Good(e, s)
    ensures Good(e, SetFound(e, s, k, v))
    ensures forall q :: Lookup(e, SetFound(e, s, k, v), q) ==
                        if q == k && Lookup(e, s, k).Some? then Some(v) else Lookup(e, s, q)
    ensures Lookup(e, s, k).Some? ==>
      forall f :: Weight(f, SetFound(e, s, k, v)) == Weight(f, s) + f((k, v)) - Before(e, s, k, f)
    ensures SetFound(e, s, k, v).count == s.count
    ensures SetFound(e, s, k, v).mem == s.mem + if Lookup(e, s, k).Some? then e.valMem(v) else 0
  {
    var r := SetFound(e, s, k, v);
    var inNew := s.idx >= 0 && FindAt(e, s.rtable, k).Some?;
    var t := if inNew then s.rtable else s.table;
    assert s.idx >= 0 ==> Disjoint(e, s.table, s.rtable);
    if FindAt(e, t, k).Some? {
      forall q
        ensures Placed(e, PutAt(e, t, k, v))
        ensures FindAt(e, PutAt(e, t, k, v), q) == if q == k then Some(v) else FindAt(e, t, q)
      {
        PutAtSpec(e, t, k, v, q);
      }
      PutAtSpec(e, t, k, v, k);
      OverwriteWeight(e, t, k, v);
      if s.idx >= 0 {
        OverwriteKeepsEmpty(e, s, k, v);
        assert Disjoint(e, r.table, r.rtable);
      }
    }
  }

  lemma OverwriteWeight<K(!new), V>(e: Env<K, V>, t: seq<Chain<K, V>>, k: K, v: V)
    requires t != [] && FindAt(e, t, k).Some?
    ensures forall f :: Total(f, PutAt(e, t, k, v)) == Total(f, t) + f((k, v)) - f((k, FindAt(e, t, k).value))
  {
    var b := Bucket(e, k, |t|);
    forall f: ((K, V)) -> int
      ensures Total(f, PutAt(e, t, k, v)) == Total(f, t) + f((k, v)) - f((k, FindAt(e, t, k).value))
    {
      TotalUpdate(f, t, b, Put(t[b], k, v));
      PutSum(f, t[b], k, v);
    }
  }

  /** An overwrite in the old table is not in a migrated bucket. */
  lemma OverwriteKeepsEmpty<K(!new), V>(e: Env<K, V>, s: State<K, V>, k: K, v: V)
    requires Good(e, s) && s.idx >= 0
    ensures FindAt(e, s.table, k).Some? ==> forall i :: 0 <= i < s.idx ==> PutAt(e, s.table, k, v)[i] == []
  {
  }

  // ---------------------------------------------------------------- both, as addInternal

  lemma AddWell<K(!new), V>(e: Env<K, V>, s: State<K, V>, k: K, v: V, zero: V)
    requires Good(e, s) && !Stale(e, s, k) && !LinksTwice(e, s, k)
    ensures !ReturnsOld(e, s, k)
    ensures Good(e, Add(e, s, k, v, zero))
    ensures forall q :: Lookup(e, Add(e, s, k, v, zero), q) == if q == k then Some(v) else Lookup(e, s, q)
    ensures forall f :: Weight(f, Add(e, s, k, v, zero)) == Weight(f, s) + f((k, v)) - Before(e, s, k, f)
  {
    var u := AddRaw(e, s, k, zero);
    StaleIsHidden(e, s, k);
    AddRawExact(e, s, k, zero);
    SetFoundExact(e, u, k, v);
    forall f: ((K, V)) -> int
      ensures Weight(f, Add(e, s, k, v, zero)) == Weight(f, s) + f((k, v)) - Before(e, s, k, f)
    {
      assert Weight(f, u) == Weight(f, s) + if Lookup(e, s, k) == None then f((k, zero)) else 0;
      assert Weight(f, SetFound(e, u, k, v)) == Weight(f, u) + f((k, v)) - Before(e, u, k, f);
    }
  }

  lemma AddBadly<K(!new), V>(e: Env<K, V>, s: State<K, V>, k: K, v: V, zero: V)
    requires Good(e, s) && (Stale(e, s, k) || LinksTwice(e, s, k))
    ensures !Good(e, Add(e, s, k, v, zero)) && (ReturnsOld(e, s, k) ==> Stale(e, s, k))
    ensures forall q :: Lookup(e, Add(e, s, k, v, zero), q) ==
                        if q != k then Lookup(e, s, q) else if ReturnsOld(e, s, k) then Some(zero) else Some(v)
  {
    var t, r := StepIfRehashing(e, s), Add(e, s, k, v, zero);
    StepKeepsShape(e, s);
    RehashStepConserves(e, s);
    BadTables(e, s, k, v, zero);
    AfterPuts(e, t, r, k, v, if ReturnsOld(e, s, k) then zero else v);
    assert forall q :: Lookup(e, t, q) == Lookup(e, s, q);
  }

  /** With k put into the new table, and into the old one or already there, k is in both. */
  lemma AfterPuts<K(!new), V>(e: Env<K, V>, t: State<K, V>, r: State<K, V>, k: K, v: V, w: V)
    requires Good(e, t) && t.idx == r.idx >= 0 && Shape(r) && r.rtable == PutAt(e, t.rtable, k, w)
    requires r.table == PutAt(e, t.table, k, v) || (r.table == t.table && Hidden(e, t, k))
    ensures !Good(e, r) && forall q :: Lookup(e, r, q) == if q == k then Some(w) else Lookup(e, t, q)
  {
    BothPut(e, t, k, v, w);
    InBoth(e, r, k);
  }

  /** The tables such a call leaves: it writes the new one, and the old one too or not at all. */
  lemma BadTables<K(!new), V>(e: Env<K, V>, s: State<K, V>, k: K, v: V, zero: V)
    requires Good(e, s) && (Stale(e, s, k) || LinksTwice(e, s, k))
    ensures var t, r := StepIfRehashing(e, s), Add(e, s, k, v, zero);
      && Shape(t) && Good(e, t) && r.idx == t.idx >= 0 && (Hidden(e, t, k) || Doubles(e, t, k))
      && (ReturnsOld(e, s, k) ==> Stale(e, s, k) && Hidden(e, t, k))
      && r.rtable == PutAt(e, t.rtable, k, if ReturnsOld(e, s, k) then zero else v)
      && r.table == if Hidden(e, t, k) && !ReturnsOld(e, s, k) then t.table else PutAt(e, t.table, k, v)
  {
    StepKeepsShape(e, s);
    RehashStepConserves(e, s);
    StaleIsHidden(e, s, k);
    var t := StepIfRehashing(e, s);
    BadAdd(e, t, k, v, zero);
    assert AddRaw(e, s, k, zero) == AddTo(e, t, k, zero);
  }

  lemma BothPut<K(!new), V>(e: Env<K, V>, t: State<K, V>, k: K, v: V, w: V)
    requires Good(e, t) && t.idx >= 0
    ensures forall q :: FindAt(e, PutAt(e, t.table, k, v), q) == if q == k then Some(v) else FindAt(e, t.table, q)
    ensures forall q :: FindAt(e, PutAt(e, t.rtable, k, w), q) == if q == k then Some(w) else FindAt(e, t.rtable, q)
  {
    forall q
      ensures FindAt(e, PutAt(e, t.table, k, v), q) == if q == k then Some(v) else FindAt(e, t.table, q)
      ensures FindAt(e, PutAt(e, t.rtable, k, w), q) == if q == k then Some(w) else FindAt(e, t.rtable, q)
    {
      PutAtSpec(e, t.table, k, v, q);
      PutAtSpec(e, t.rtable, k, w, q);
    }
  }

  /** AddRaw and SetVal together store the value like a map update exactly when the call is neither stale nor
      linking twice; a stale call that finds the new bucket empty loses the value to the old entry. */
  lemma AddExact<K(!new), V>(e: Env<K, V>, s: State<K, V>, k: K, v: V, zero: V)
    requires Good(e, s)
    ensures Good(e, Add(e, s, k, v, zero)) <==> !Stale(e, s, k) && !LinksTwice(e, s, k)
    ensures ReturnsOld(e, s, k) ==> Stale(e, s, k)
    ensures forall q :: Lookup(e, Add(e, s, k, v, zero), q) ==
                        if q != k then Lookup(e, s, q) else if ReturnsOld(e, s, k) then Some(zero) else Some(v)
    ensures !Stale(e, s, k) && !LinksTwice(e, s, k) ==>
      forall f :: Weight(f, Add(e, s, k, v, zero)) == Weight(f, s) + f((k, v)) - Before(e, s, k, f)
  {
    if Stale(e, s, k) || LinksTwice(e, s, k) {
      AddBadly(e, s, k, v, zero);
    } else {
      AddWell(e, s, k, v, zero);
    }
  }

  /** What AddRaw leaves there for SetVal. */
  lemma BadAdd<K(!new), V>(e: Env<K, V>, t: State<K, V>, k: K, v: V, zero: V)
    requires Good(e, t) && t.idx >= 0 && (Hidden(e, t, k) || Doubles(e, t, k))
    ensures Shape(AddTo(e, t, k, zero)) && AddTo(e, t, k, zero).idx == t.idx
    ensures var a := AddTo(e, t, k, zero);
      && PutAt(e, a.rtable, k, v) == PutAt(e, t.rtable, k, v)
      && (Hidden(e, t, k) ==> a.table == t.table && a.rtable == PutAt(e, t.rtable, k, zero))
      && (Doubles(e, t, k) ==> PutAt(e, a.table, k, v) == PutAt(e, t.table, k, v))
  {
    assert FindAt(e, t.table, k) == None || FindAt(e, t.rtable, k) == None;
    PutTwice(t.table[Bucket(e, k, |t.table|)], k, zero, v);
    PutTwice(t.rtable[Bucket(e, k, |t.rtable|)], k, zero, v);
  }

  lemma {:induction false} PutTwice<K, V>(c: Chain<K, V>, k: K, v: V, w: V)
    ensures Put(Put(c, k, v), k, w) == Put(c, k, w)
  {
    if c != [] && c[0].0 != k {
      PutTwice(c[1..], k, v, w);
    }
  }

  /** How Add moves the counters: Count with the keys, memory by the value it overwrites on top. */
  lemma AddCounters<K(!new), V>(e: Env<K, V>, s: State<K, V>, k: K, v: V, zero: V)
    requires Good(e, s) && !Stale(e, s, k) && !LinksTwice(e, s, k)
    ensures Add(e, s, k, v, zero).count == s.count + if Lookup(e, s, k) == None then 1 else 0
    ensures Add(e, s, k, v, zero).mem - Weight(EntryMem(e), Add(e, s, k, v, zero)) ==
            s.mem - Weight(EntryMem(e), s) + match Lookup(e, s, k) case None => 0 case Some(o) => e.valMem(o)
  {
    var t, u := StepIfRehashing(e, s), AddRaw(e, s, k, zero);
    StepKeepsShape(e, s);
    RehashStepConserves(e, s);
    StaleIsHidden(e, s, k);
    assert Lookup(e, t, k) == Lookup(e, s, k);
    AddRawCounters(e, t, k, zero);
    AddRawExact(e, s, k, zero);
    SetFoundExact(e, u, k, v);
    AddExact(e, s, k, v, zero);
    var f: ((K, V)) -> int := EntryMem(e);
    assert Weight(f, Add(e, s, k, v, zero)) == Weight(f, s) + f((k, v)) - Before(e, s, k, f);
  }

  lemma AddRawCounters<K(!new), V>(e: Env<K, V>, t: State<K, V>, k: K, zero: V)
    requires Good(e, t) && !Hidden(e, t, k) && !Doubles(e, t, k)
    ensures Shape(AddTo(e, t, k, zero))
    ensures AddTo(e, t, k, zero).count == t.count + if Lookup(e, t, k) == None then 1 else 0
    ensures AddTo(e, t, k, zero).mem == t.mem + if Lookup(e, t, k) == None then e.keyMem(k) else 0
  {
    AddToSpec(e, t, k, zero);
    StoreCounters(e, t, k, zero);
  }

  /** What AddRaw returns on a good table: a present key is reported, and its value returned, unless a stale
      call has just made a new entry for it and returns that. */
  lemma ReturnedIs<K(!new), V>(e: Env<K, V>, s: State<K, V>, k: K, zero: V)
    requires Good(e, s)
    ensures Lookup(e, s, k).Some? ==> Reported(e, s, k)
    ensures Returned(e, s, k, zero) ==
            if Lookup(e, s, k) == None || (Stale(e, s, k) && ReturnsNew(e, s, k)) then zero else Lookup(e, s, k).value
  {
    var t := StepIfRehashing(e, s);
    StepKeepsShape(e, s);
    RehashStepConserves(e, s);
    StaleIsHidden(e, s, k);
    assert Lookup(e, t, k) == Lookup(e, s, k);
    assert t.idx >= 0 ==> FindAt(e, t.table, k) == None || FindAt(e, t.rtable, k) == None;
    PutAtSpec(e, t.table, k, zero, k);
    if t.idx >= 0 {
      PutAtSpec(e, t.rtable, k, zero, k);
    }
  }

  /** On any table AddRaw reports a key, present or not, exactly when some entry is in one of its buckets: an entry that
      it links behind others is come upon as it walks on. */
  lemma ReportedIff<K, V>(e: Env<K, V>, s: State<K, V>, k: K)
    requires Shape(s)
    ensures Shape(StepIfRehashing(e, s))
    ensures var t := StepIfRehashing(e, s);
      Reported(e, s, k) <==> t.table[Bucket(e, k, |t.table|)] != [] || (t.idx >= 0 && t.rtable[Bucket(e, k, |t.rtable|)] != [])
  {
    StepKeepsShape(e, s);
  }
}
