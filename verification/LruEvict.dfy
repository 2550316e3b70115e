/** EvictionPoolPopulate and PerformEvictions of db/lru.go on the keyspace and its memory counter. */
module LruEvict {
  import opened Util
  import opened Dict
  import opened DictRefinement
  import opened DictCalls
  import opened Keyspace
  import opened KeyspaceRuns
  import opened Lru

  const MAX_MEMORY := 1024 * 1024 * 1024

  /** A keyspace and what all other tables have charged to the one counter. */
  datatype Store = Store(db: Db, other: int)

  function Counter(st: Store): int { Charged(st.db) + st.other }

  // ---------------------------------------------------------------- deletions, on any two tables

  function Size<K, V>(t: seq<Chain<K, V>>): nat {
    if t == [] then 0 else |t[0]| + Size(t[1..])
  }

  function Entries<K, V>(s: State<K, V>): nat { Size(s.table) + Size(s.rtable) }

  lemma {:induction false} SizeUpdate<K, V>(t: seq<Chain<K, V>>, i: nat, c: Chain<K, V>)
    requires i < |t|
    ensures Size(t[i := c]) == Size(t) - |t[i]| + |c|
  {
    if i == 0 {
      assert t[i := c][1..] == t[1..];
    } else {
      assert t[i := c][1..] == t[1..][i - 1 := c];
      SizeUpdate(t[1..], i - 1, c);
    }
  }

  lemma {:induction false} RemoveAny<K, V>(c: Chain<K, V>, k: K, q: K)
    ensures |Remove(c, k)| == |c| - if Find(c, k).Some? then 1 else 0
    ensures Find(c, k) == None ==> Remove(c, k) == c
    ensures q != k ==> Find(Remove(c, k), q) == Find(c, q)
    ensures Find(Remove(c, k), k).Some? ==> Find(c, k).Some?
  {
    if c != [] && c[0].0 != k {
      RemoveAny(c[1..], k, q);
    }
  }

  /** Delete on any table, good or not: it leaves the other keys alone, makes none up, changes nothing if it
      finds nothing, and takes an entry away if there is one. */
  lemma DeleteAny<K, V>(e: Env<K, V>, s: State<K, V>, k: K, q: K)
    requires Shape(s)
    ensures q != k ==> Lookup(e, Delete(e, s, k).0, q) == Lookup(e, s, q)
    ensures Lookup(e, Delete(e, s, k).0, k).Some? ==> Lookup(e, s, k).Some?
    ensures Delete(e, s, k).1 <==> Lookup(e, s, k).Some?
    ensures !Delete(e, s, k).1 ==> Delete(e, s, k).0 == s
    ensures Entries(Delete(e, s, k).0) < Entries(s) || !Delete(e, s, k).1
  {
    var b := Bucket(e, k, |s.table|);
    RemoveAny(s.table[b], k, q);
    SizeUpdate(s.table, b, Remove(s.table[b], k));
    assert s.table[b := s.table[b]] == s.table;
    if s.idx >= 0 {
      var rb := Bucket(e, k, |s.rtable|);
      RemoveAny(s.rtable[rb], k, q);
      SizeUpdate(s.rtable, rb, Remove(s.rtable[rb], k));
      assert s.rtable[rb := s.rtable[rb]] == s.rtable;
    }
  }

  lemma DeletedAny(db: Db, key: string, q: string)
    requires Shaped(db)
    ensures var (d, deleted) := Deleted(db, key);
      && (deleted <==> Value(db, key).Some?) && (!deleted ==> d == db)
      && (q != key ==> Value(d, q) == Value(db, q) && Expiry(d, q) == Expiry(db, q))
      && (Value(d, q).Some? ==> Value(db, q).Some?) && (Expiry(d, q).Some? ==> Expiry(db, q).Some?)
      && (deleted && Expiry(db, key).Some? ==> Entries(d.expire) < Entries(db.expire))
  {
    var e, x := DictEnv(db.hash), ExpireEnv(db.hash);
    DeleteAny(e, db.dict, key, q);
    DeleteAny(x, db.expire, key, q);
    var d := Deleted(db, key).0;
    NewTables(db, d.dict, d.expire);
  }

  // ---------------------------------------------------------------- the eviction loop

  /** The scan for the best candidate: from the most idle slot down, the first key that has an expiry. */
  function Best(p: Pool, db: Db): (r: Option<string>)
    requires Shaped(db)
    ensures r.Some? ==> Expiry(db, r.value).Some? && r.value != "" && exists i :: 0 <= i < |p| && p[i].key == r.value
  {
    if p == [] then None
    else
      var last := p[|p| - 1];
      if last.key != "" && Expiry(db, last.key).Some? then Some(last.key) else Best(p[..|p| - 1], db)
  }

  /** A slot that the scan stops at. */
  predicate Eligible(s: Slot, db: Db)
    requires Shaped(db)
  {
    s.key != "" && Expiry(db, s.key).Some?
  }

  ghost predicate NoneFrom(p: Pool, db: Db, i: nat)
    requires Shaped(db)
  {
    forall j :: i <= j < |p| ==> !Eligible(p[j], db)
  }

  /** The last slot that the scan stops at, and its key. */
  ghost predicate LastEligible(p: Pool, db: Db, i: nat, key: string)
    requires Shaped(db)
  {
    i < |p| && Eligible(p[i], db) && p[i].key == key && NoneFrom(p, db, i + 1)
  }

  lemma {:induction false} BestIsLast(p: Pool, db: Db)
    requires Shaped(db)
    ensures match Best(p, db) case None => NoneFrom(p, db, 0) case Some(key) => exists i: nat :: LastEligible(p, db, i, key)
    decreases |p|
  {
    if p != [] {
      var front := p[..|p| - 1];
      if Eligible(p[|p| - 1], db) {
        var i: nat := |p| - 1;
        assert Best(p, db) == Some(p[i].key) && LastEligible(p, db, i, p[i].key);
      } else {
        BestIsLast(front, db);
        OneSlotMore(p, front, db);
        assert Best(p, db) == Best(front, db);
      }
    }
  }

  lemma OneSlotMore(p: Pool, front: Pool, db: Db)
    requires Shaped(db) && p != [] && front == p[..|p| - 1] && !Eligible(p[|p| - 1], db)
    ensures NoneFrom(front, db, 0) ==> NoneFrom(p, db, 0)
    ensures forall i: nat, key :: LastEligible(front, db, i, key) ==> LastEligible(p, db, i, key)
  {
    assert forall i :: 0 <= i < |p| - 1 ==> p[i] == front[i];
  }

  /** What is evicted is in the pool with a key that expires, and no slot whose key expires is idle for longer;
      if there is no such slot nothing is. */
  lemma MostIdleIsEvicted(p: Pool, db: Db)
    requires Shaped(db) && PoolOk(p)
    ensures Best(p, db) == None <==> forall i :: 0 <= i < Used(p) ==> Expiry(db, p[i].key) == None
    ensures Best(p, db).Some? ==>
      exists i :: 0 <= i < Used(p) && p[i].key == Best(p, db).value && Expiry(db, p[i].key).Some?
                  && forall j :: 0 <= j < Used(p) && Expiry(db, p[j].key).Some? ==> p[j].idle <= p[i].idle
  {
    UsedSlots(p);
    BestIsLast(p, db);
    assert forall i :: 0 <= i < Used(p) ==> (Eligible(p[i], db) <==> Expiry(db, p[i].key).Some?);
    if Best(p, db).Some? {
      var i: nat :| LastEligible(p, db, i, Best(p, db).value);
      assert i < Used(p);
      forall j | 0 <= j < Used(p) && Expiry(db, p[j].key).Some?
        ensures p[j].idle <= p[i].idle
      {
        assert Eligible(p[j], db);
      }
    }
  }

  /** PerformEvictions either frees enough or never returns: no candidate is left, or the best one has no
      value, its deletion changes nothing, and it is found again without end. */
  datatype Evicted = Done(st: Store, freed: int) | Spins

  function Evict(p: Pool, st: Store, toFree: int, freed: int): (r: Evicted)
    requires Shaped(st.db)
    ensures r.Done? ==> Shaped(r.st.db)
    decreases Entries(st.db.expire)
  {
    if freed >= toFree then Done(st, freed)
    else
      match Best(p, st.db)
      case None => Spins
      case Some(key) =>
        var (d, deleted) := Deleted(st.db, key);
        DeletedAny(st.db, key, key);
        if !deleted then Spins else Evict(p, Store(d, st.other), toFree, freed + (Charged(st.db) - Charged(d)))
  }

  /** What a turn of the loop does to a keyspace, and whether it is the same again from there. */
  ghost predicate Turn(p: Pool, db: Db, d: Db, stuck: bool)
    requires Shaped(db)
  {
    match Best(p, db)
    case None => stuck
    case Some(key) => stuck == !Deleted(db, key).1 && d == Deleted(db, key).0
  }

  lemma EvictTurn(p: Pool, st: Store, next: Store, stuck: bool, toFree: int, freed: int, delta: int)
    requires Shaped(st.db) && Shaped(next.db) && freed < toFree && Turn(p, st.db, next.db, stuck) && next.other == st.other
    requires delta == Charged(st.db) - Charged(next.db)
    ensures Evict(p, st, toFree, freed) == if stuck then Spins else Evict(p, next, toFree, freed + delta)
  {
    if Best(p, st.db).Some? {
      DeletedAny(st.db, Best(p, st.db).value, Best(p, st.db).value);
    }
  }

  function PerformEvictions(p: Pool, st: Store): (r: Evicted)
    requires Shaped(st.db)
    ensures r.Done? ==> Shaped(r.st.db)
  {
    if Counter(st) <= MAX_MEMORY then Done(st, 0) else Evict(p, st, Counter(st) - MAX_MEMORY, 0)
  }

  // ---------------------------------------------------------------- how it ends

  /** Both tables are good; an expiry may be without a value. */
  ghost predicate GoodTables(db: Db) {
    Shaped(db) && Good(DictEnv(db.hash), db.dict) && Good(ExpireEnv(db.hash), db.expire)
  }

  lemma DeletedGood(db: Db, key: string)
    requires GoodTables(db)
    ensures var d := Deleted(db, key).0;
      && GoodTables(d) && d.hash == db.hash
      && (Value(db, key).Some? ==> Value(d, key) == None && Expiry(d, key) == None)
      && (Value(db, key).Some? && Expiry(db, key).Some? ==> Charged(db) - Charged(d) == 2 * (16 + |key|))
  {
    var e, x := DictEnv(db.hash), ExpireEnv(db.hash);
    DeleteExact(e, db.dict, key);
    DeleteExact(x, db.expire, key);
    DeleteReleases(e, db.dict, key);
    DeleteReleases(x, db.expire, key);
    assert e.keyMem(key) == x.keyMem(key) == KeyMem(key);
    assert forall v :: e.valMem(v) == 0;
    assert forall v :: x.valMem(v) == 0;
    NewTables(db, Deleted(db, key).0.dict, Deleted(db, key).0.expire);
  }

  lemma DeleteReleases<K(!new), V>(e: Env<K, V>, s: State<K, V>, k: K)
    requires Good(e, s)
    ensures s.mem - Delete(e, s, k).0.mem ==
            match Lookup(e, s, k) case None => 0 case Some(v) => e.keyMem(k) + e.valMem(v)
  {
    assert s.idx >= 0 ==> FindAt(e, s.table, k) == None || FindAt(e, s.rtable, k) == None;
  }

  /** What GenericDelete gives back. */
  function Freed(db: Db, key: string): nat
    requires Shaped(db)
  {
    DeletedCharges(db, key);
    Charged(db) - Charged(Deleted(db, key).0)
  }

  lemma DeletedCharges(db: Db, key: string)
    requires Shaped(db)
    ensures Charged(Deleted(db, key).0) <= Charged(db)
  {
    assert DictEnv(db.hash).keyMem(key) == ExpireEnv(db.hash).keyMem(key) == KeyMem(key);
    assert forall v :: DictEnv(db.hash).valMem(v) == 0;
    assert forall v :: ExpireEnv(db.hash).valMem(v) == 0;
  }

  /** What one pass over the pool can free, from its most idle slot down: each key is deleted as often as it has
      an expiry and a value, and an expiry without a value ends the pass. */
  function Freeable(p: Pool, db: Db): nat
    requires Shaped(db)
    decreases Entries(db.expire), |p|
  {
    if p == [] then 0
    else
      var key, front := p[|p| - 1].key, p[..|p| - 1];
      DeletedAny(db, key, key);
      if key == "" || Expiry(db, key) == None then Freeable(front, db)
      else if Value(db, key) == None then 0
      else Freed(db, key) + Freeable(p, Deleted(db, key).0)
  }

  /** On good tables once is enough, for twice the key's size. */
  lemma FreeableOnGood(p: Pool, db: Db)
    requires GoodTables(db) && p != []
    ensures var key, front := p[|p| - 1].key, p[..|p| - 1];
      key != "" && Expiry(db, key).Some? && Value(db, key).Some? ==>
        Freeable(p, db) == 2 * (16 + |key|) + Freeable(front, Deleted(db, key).0)
  {
    DeletedGood(db, p[|p| - 1].key);
  }

  /** Deleting the best key first, as the loop does, is a beginning of the pass. */
  lemma {:induction false} BestFreesFirst(p: Pool, db: Db)
    requires Shaped(db)
    ensures Best(p, db) == None ==> Freeable(p, db) == 0
    ensures Best(p, db).Some? ==>
      var key := Best(p, db).value;
      Freeable(p, db) == if Value(db, key) == None then 0 else Freed(db, key) + Freeable(p, Deleted(db, key).0)
    decreases |p|
  {
    if p != [] {
      var last, front := p[|p| - 1].key, p[..|p| - 1];
      BestFreesFirst(front, db);
      if (last == "" || Expiry(db, last) == None) && Best(front, db).Some? {
        DeletedAny(db, Best(front, db).value, last);
      }
    }
  }

  /** PerformEvictions' loop returns exactly when that pass can free enough, on any two tables that share
      no entry. */
  lemma {:induction false} EvictReturnsIff(p: Pool, st: Store, toFree: int, freed: int)
    requires Shaped(st.db)
    ensures Evict(p, st, toFree, freed).Done? <==> freed + Freeable(p, st.db) >= toFree
    decreases Entries(st.db.expire)
  {
    BestFreesFirst(p, st.db);
    if freed < toFree && Best(p, st.db).Some? {
      var key := Best(p, st.db).value;
      DeletedAny(st.db, key, key);
      if Value(st.db, key).Some? {
        EvictReturnsIff(p, Store(Deleted(st.db, key).0, st.other), toFree, freed + Freed(st.db, key));
      }
    }
  }

  /** On any such tables: when it returns, it has freed what the counter says, and a key whose lookups it changed
      was in the pool and had a value and an expiry. */
  lemma {:induction false} EvictFrees(p: Pool, st: Store, toFree: int, freed: int, q: string)
    requires Shaped(st.db) && Evict(p, st, toFree, freed).Done?
    ensures var e := Evict(p, st, toFree, freed); var d := e.st.db;
      && e.freed >= toFree && e.freed - freed == Counter(st) - Counter(e.st)
      && (Value(d, q) != Value(st.db, q) || Expiry(d, q) != Expiry(st.db, q) ==>
            Expiry(st.db, q).Some? && Value(st.db, q).Some? && exists i :: 0 <= i < |p| && p[i].key == q)
    decreases Entries(st.db.expire)
  {
    if freed < toFree {
      var key := Best(p, st.db).value;
      var d := Deleted(st.db, key).0;
      DeletedAny(st.db, key, key);
      DeletedAny(st.db, key, q);
      EvictFrees(p, Store(d, st.other), toFree, freed + (Charged(st.db) - Charged(d)), q);
    }
  }

  /** d is as good and as sound as db, and either nothing about q has changed, or it is gone from both tables. */
  ghost predicate KeptOrGone(db: Db, d: Db, q: string)
    requires Shaped(db)
  {
    && (GoodTables(db) ==> GoodTables(d)) && (Sound(db) ==> Sound(d)) && Shaped(d)
    && ((Value(d, q) == Value(db, q) && Expiry(d, q) == Expiry(db, q)) || (Value(d, q) == None && Expiry(d, q) == None))
  }

  /** On good tables a key whose lookups it changed is gone from both; and a sound keyspace stays sound. */
  lemma {:induction false} EvictKeepsGood(p: Pool, st: Store, toFree: int, freed: int, q: string)
    requires GoodTables(st.db) && Evict(p, st, toFree, freed).Done?
    ensures KeptOrGone(st.db, Evict(p, st, toFree, freed).st.db, q)
    decreases Entries(st.db.expire)
  {
    if freed < toFree {
      var key := Best(p, st.db).value;
      var next := Store(Deleted(st.db, key).0, st.other);
      var delta := Charged(st.db) - Charged(next.db);
      DeletedAny(st.db, key, key);
      DeletedKeeps(st.db, key, q);
      EvictTurn(p, st, next, false, toFree, freed, delta);
      EvictKeepsGood(p, next, toFree, freed + delta, q);
      StillKeptOrGone(st.db, next.db, Evict(p, next, toFree, freed + delta).st.db, q);
    }
  }

  lemma StillKeptOrGone(a: Db, b: Db, c: Db, q: string)
    requires Shaped(a) && Shaped(b) && KeptOrGone(a, b, q) && KeptOrGone(b, c, q)
    ensures KeptOrGone(a, c, q)
  {
  }

  lemma DeletedKeeps(db: Db, key: string, q: string)
    requires GoodTables(db) && Value(db, key).Some?
    ensures GoodTables(Deleted(db, key).0) && KeptOrGone(db, Deleted(db, key).0, q)
  {
    DeletedAny(db, key, q);
    DeletedGood(db, key);
    if Sound(db) {
      DeletedExact(db, key);
    }
  }

  /** One pass over the pool, from its most idle slot down: keys that expire are deleted until `need` is freed. */
  function Pass(p: Pool, db: Db, need: int): (r: Db)
    requires Shaped(db)
    decreases |p|
  {
    if p == [] || need <= 0 then db
    else
      var last, front := p[|p| - 1], p[..|p| - 1];
      if Eligible(last, db) then Pass(front, Deleted(db, last.key).0, need - Freed(db, last.key)) else Pass(front, db, need)
  }

  /** Slots that the scan passes over do nothing in a pass. */
  lemma {:induction false} PassSkips(p: Pool, db: Db, need: int, i: nat)
    requires Shaped(db) && i <= |p| && NoneFrom(p, db, i)
    ensures Pass(p, db, need) == Pass(p[..i], db, need)
    decreases |p|
  {
    if i == |p| {
      assert p[..i] == p;
    } else {
      var front := p[..|p| - 1];
      PassSkips(front, db, need, i);
      assert front[..i] == p[..i];
    }
  }

  lemma StillNoneFrom(p: Pool, db: Db, i: nat, key: string)
    requires GoodTables(db) && Value(db, key).Some? && LastEligible(p, db, i, key)
    ensures NoneFrom(p, Deleted(db, key).0, i)
  {
    DeletedGood(db, key);
    forall j | i <= j < |p|
      ensures !Eligible(p[j], Deleted(db, key).0)
    {
      DeletedAny(db, key, p[j].key);
    }
  }

  /** Deleting the best key is the first thing that a pass does; with it its slot is passed over. */
  lemma PassBegins(p: Pool, db: Db, need: int)
    requires GoodTables(db) && Best(p, db).Some? && Value(db, Best(p, db).value).Some? && need > 0
    ensures var key := Best(p, db).value;
      Pass(p, db, need) == Pass(p, Deleted(db, key).0, need - Freed(db, key))
  {
    BestIsLast(p, db);
    var key := Best(p, db).value;
    var i: nat :| LastEligible(p, db, i, key);
    PassSkips(p, db, need, i + 1);
    assert p[..i + 1][..i] == p[..i];
    StillNoneFrom(p, db, i, key);
    PassSkips(p, Deleted(db, key).0, need - Freed(db, key), i);
  }

  /** On good tables the loop, which scans the whole pool again after every deletion, evicts what one pass does: from
      the most idle slot down, and no more than it takes to free enough. */
  lemma {:induction false} EvictIsOnePass(p: Pool, st: Store, toFree: int, freed: int)
    requires GoodTables(st.db) && Evict(p, st, toFree, freed).Done?
    ensures Evict(p, st, toFree, freed).st == Store(Pass(p, st.db, toFree - freed), st.other)
    decreases Entries(st.db.expire)
  {
    if freed < toFree {
      var key := Best(p, st.db).value;
      var next, delta := Store(Deleted(st.db, key).0, st.other), Freed(st.db, key);
      DeletedAny(st.db, key, key);
      DeletedGood(st.db, key);
      PassBegins(p, st.db, toFree - freed);
      EvictTurn(p, st, next, false, toFree, freed, delta);
      EvictIsOnePass(p, next, toFree, freed + delta);
      assert toFree - freed - delta == toFree - (freed + delta);
    }
  }

  /** PerformEvictions returns iff memory is within bounds already or the pool can free the excess; then
      memory is within bounds, and what it reports as freed is exactly the drop of the counter. */
  lemma PerformEvictionsExact(p: Pool, st: Store)
    requires Shaped(st.db)
    ensures PerformEvictions(p, st).Done? <==>
            Counter(st) <= 1073741824 || Freeable(p, st.db) >= Counter(st) - 1073741824
    ensures PerformEvictions(p, st).Done? ==>
      && Counter(PerformEvictions(p, st).st) <= 1073741824
      && PerformEvictions(p, st).freed == Counter(st) - Counter(PerformEvictions(p, st).st)
  {
    EvictReturnsIff(p, st, Counter(st) - MAX_MEMORY, 0);
    if Counter(st) > MAX_MEMORY && PerformEvictions(p, st).Done? {
      EvictFrees(p, st, Counter(st) - MAX_MEMORY, 0, "");
    }
  }

  // ---------------------------------------------------------------- populating

  /** Get finds an object, not nil, for every sampled key. */
  predicate AllStored(keys: seq<string>, db: Db)
    requires Shaped(db)
  {
    forall k :: k in keys ==> Value(db, k).Some? && Value(db, k).value.Some?
  }

  /** What populating offers: each sampled key with the idle time of its object. */
  function Candidates(keys: seq<string>, db: Db, clock: int): (ss: seq<Slot>)
    requires Shaped(db) && AllStored(keys, db)
    ensures |ss| == |keys|
    ensures forall i :: 0 <= i < |ss| ==> ss[i] == Slot(keys[i], Idle(clock, Value(db, keys[i]).value.value.lru))
  {
    seq(|keys|, i requires 0 <= i < |keys| => Slot(keys[i], Idle(clock, Value(db, keys[i]).value.value.lru)))
  }

  lemma CandidatesOneMore(keys: seq<string>, key: string, o: Obj, db: Db, clock: int)
    requires Shaped(db) && AllStored(keys, db) && Value(db, key) == Some(Some(o))
    ensures AllStored(keys + [key], db)
    ensures Candidates(keys + [key], db, clock) == Candidates(keys, db, clock) + [Slot(key, Idle(clock, o.lru))]
  {
    assert AllStored(keys + [key], db) by {
      forall k | k in keys + [key]
        ensures Value(db, k).Some? && Value(db, k).value.Some?
      {
      }
    }
  }

  /** A sampled key is offered with its object's idle time in milliseconds: a thousand for each tick since its
      last access, one tick short after a wrap-around of the clock. */
  lemma OfferedIdle(keys: seq<string>, db: Db, clock: int, i: nat, o: Obj)
    requires Shaped(db) && AllStored(keys, db) && i < |keys| && Value(db, keys[i]) == Some(Some(o))
    requires 0 <= clock <= 16777215 && 0 <= o.lru <= 16777215
    ensures clock >= o.lru ==> Candidates(keys, db, clock)[i] == Slot(keys[i], 1000 * (clock - o.lru))
    ensures clock < o.lru ==> Candidates(keys, db, clock)[i] == Slot(keys[i], 1000 * ((clock - o.lru) % 16777216 - 1))
  {
    IdleTracksAge(clock, o.lru, o.lru);
  }

  /** The object of each of the keys. */
  ghost predicate Objects(keys: seq<string>, db: Db, os: seq<Obj>)
    requires Shaped(db)
  {
    |os| == |keys| && forall i :: 0 <= i < |keys| ==> Value(db, keys[i]) == Some(Some(os[i]))
  }

  /** None of the objects is older than that one by more than a tick, on a clock that wraps around after 2^24. */
  ghost predicate Oldest(os: seq<Obj>, clock: int, b: nat) {
    b < |os| && forall i :: 0 <= i < |os| ==> (clock - os[i].lru) % 16777216 <= (clock - os[b].lru) % 16777216 + 1
  }

  /** Populating an empty pool from stored objects makes its best entry, the first one that eviction tries, a
      sampled key with the oldest of the objects, but for a tick. */
  lemma BestIsOldest(p: Pool, keys: seq<string>, os: seq<Obj>, db: Db, clock: int)
    requires |p| == 4 && forall i :: 0 <= i < |p| ==> p[i].key == ""
    requires Shaped(db) && Objects(keys, db, os) && AllStored(keys, db) && keys != [] && "" !in keys
    requires 0 <= clock <= 16777215 && forall i :: 0 <= i < |os| ==> 0 <= os[i].lru <= 16777215
    ensures var r := OfferAll(p, Candidates(keys, db, clock));
      && Used(r) > 0
      && exists b: nat :: Oldest(os, clock, b) && r[Used(r) - 1].key == keys[b]
  {
    var cs := Candidates(keys, db, clock);
    assert forall i :: 0 <= i < |cs| ==> cs[i].key == keys[i];
    TopOfOffers(p, cs);
    var b := IndexOf(cs, OfferAll(p, cs)[Used(OfferAll(p, cs)) - 1]);
    NoneOlder(os, clock, cs, b);
  }

  ghost function IndexOf(cs: seq<Slot>, s: Slot): (i: nat)
    requires s in cs
    ensures i < |cs| && cs[i] == s
  {
    var i :| 0 <= i < |cs| && cs[i] == s; i
  }

  lemma NoneOlder(os: seq<Obj>, clock: int, cs: seq<Slot>, b: nat)
    requires 0 <= clock <= 16777215 && forall i :: 0 <= i < |os| ==> 0 <= os[i].lru <= 16777215
    requires b < |cs| == |os| && forall i :: 0 <= i < |cs| ==> cs[i].idle == Idle(clock, os[i].lru)
    requires forall i :: 0 <= i < |cs| ==> cs[i].idle <= cs[b].idle
    ensures Oldest(os, clock, b)
  {
    forall i | 0 <= i < |os|
      ensures (clock - os[i].lru) % 16777216 <= (clock - os[b].lru) % 16777216 + 1
    {
      assert cs[i].idle <= cs[b].idle;
      IdleTracksAge(clock, os[i].lru, os[b].lru);
      IdleTracksAge(clock, os[b].lru, os[i].lru);
    }
  }

  // ---------------------------------------------------------------- the object

  class LRU {
    const ep: array<Slot>
    const clock: int
    const db: RedisDb

    /** The slots of a new pool are zero values. */
    constructor (db: RedisDb, lruClock: int)
      ensures ep.Length == 4 && fresh(ep) && HoldsTop(ep[..], []) && this.db == db && clock == lruClock
    {
      ep := new Slot[EVPOOL_SIZE](_ => Slot("", 0));
      this.db, clock := db, lruClock;
      new;
      EmptyPoolHoldsTop(ep[..]);
    }

    /** Populating from the sampled keys; false where Get gives a nil object and its access time is read. */
    method EvictionPoolPopulate(keys: seq<string>) returns (ok: bool)
      requires ep.Length == EVPOOL_SIZE && db.Valid()
      modifies ep
      ensures db.Valid() && (ok <==> AllStored(keys, db.State()))
      ensures ok ==> ep[..] == OfferAll(old(ep[..]), Candidates(keys, db.State(), clock))
    {
      var i := 0;
      while i < |keys|
        invariant 0 <= i <= |keys| && db.Valid() && db.State() == old(db.State())
        invariant AllStored(keys[..i], db.State())
        invariant ep[..] == OfferAll(old(ep[..]), Candidates(keys[..i], db.State(), clock))
      {
        assert keys[..i + 1] == keys[..i] + [keys[i]];
        var val := db.Get(keys[i]);
        if val == None || val.value == None {
          assert keys[i] in keys;
          return false;
        }
        CandidatesOneMore(keys[..i], keys[i], val.value.value, db.State(), clock);
        OfferAllOneMore(old(ep[..]), Candidates(keys[..i], db.State(), clock), Slot(keys[i], Idle(clock, val.value.value.lru)));
        OfferKey(ep, keys[i], Idle(clock, val.value.value.lru));
        i := i + 1;
      }
      assert keys[..i] == keys;
      return true;
    }

    /** PerformEvictions, giving up where the source would spin for ever; `other` is the share of the counter
        that is not this keyspace's. */
    method Perform(other: int) returns (spins: bool, memFreed: int)
      requires ep.Length == EVPOOL_SIZE && db.Valid()
      modifies db
      ensures db.Valid()
      ensures match PerformEvictions(ep[..], Store(old(db.State()), other))
              case Spins => spins
              case Done(st, freed) => !spins && memFreed == freed && db.State() == st.db
    {
      var used := db.dict.mem + db.expire.mem + other;
      if used <= MAX_MEMORY {
        return false, 0;
      }
      spins, memFreed := EvictUntil(used - MAX_MEMORY, other);
    }

    method EvictUntil(toFree: int, ghost other: int) returns (spins: bool, memFreed: int)
      requires ep.Length == EVPOOL_SIZE && db.Valid()
      modifies db
      ensures db.Valid()
      ensures var r := Evict(ep[..], Store(old(db.State()), other), toFree, 0);
        spins == r.Spins? && (r.Done? ==> memFreed == r.freed && db.State() == r.st.db)
    {
      memFreed := 0;
      ghost var p, st := ep[..], Store(db.State(), other);
      ghost var goal := Evict(p, st, toFree, 0);
      while memFreed < toFree
        invariant db.Valid() && st == Store(db.State(), other)
        invariant goal == Evict(p, st, toFree, memFreed)
        decreases Entries(st.db.expire)
      {
        var stuck, delta := EvictBest();
        ghost var next := Store(db.State(), other);
        assert Turn(p, st.db, next.db, stuck);
        EvictTurn(p, st, next, stuck, toFree, memFreed, delta);
        if stuck {
          return true, memFreed;
        }
        st, memFreed := next, memFreed + delta;
      }
      return false, memFreed;
    }

    /** One turn of the loop: the best key is deleted, unless there is none or it has no value. */
    method EvictBest() returns (stuck: bool, delta: int)
      requires ep.Length == EVPOOL_SIZE && db.Valid()
      modifies db
      ensures db.Valid() && delta == Charged(old(db.State())) - Charged(db.State())
      ensures Turn(ep[..], old(db.State()), db.State(), stuck)
      ensures !stuck ==> Entries(db.expire) < Entries(old(db.expire))
    {
      var bestkey := BestKey();
      if bestkey == "" {
        return true, 0;
      }
      DeletedAny(db.State(), bestkey, bestkey);
      delta := db.dict.mem + db.expire.mem;
      var deleted := db.GenericDelete(bestkey);
      delta := delta - (db.dict.mem + db.expire.mem);
      stuck := !deleted;
    }

    /** The backward scan; the empty string when it finds nothing. */
    method BestKey() returns (key: string)
      requires ep.Length == EVPOOL_SIZE && db.Valid()
      ensures match Best(ep[..], db.State()) case None => key == "" case Some(b) => key == b && key != ""
    {
      var k := EVPOOL_SIZE;
      assert ep[..k] == ep[..];
      while k > 0
        invariant 0 <= k <= EVPOOL_SIZE && Best(ep[..], db.State()) == Best(ep[..k], db.State())
      {
        k := k - 1;
        assert ep[..k + 1][..k] == ep[..k];
        var exist := Lookup(ExpireEnv(db.hash), db.expire, ep[k].key).Some?;
        if ep[k].key != "" && exist {
          return ep[k].key;
        }
      }
      return "";
    }
  }
}
