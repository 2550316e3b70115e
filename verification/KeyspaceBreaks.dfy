/** What a stale SetExpire does to the keyspace later, and a run from an empty database that gets there. */
module KeyspaceBreaks {
  import opened Util
  import opened Dict
  import opened DictCalls
  import opened DictAdd
  import DictLoad
  import DictStale
  import opened Keyspace
  import opened KeyspaceRuns

  lemma {:induction false} ApplyConcat(db: Db, a: seq<Call>, b: seq<Call>)
    requires Shaped(db)
    ensures ApplyAll(db, a + b) == match ApplyAll(db, a) case None => None case Some(d) => ApplyAll(d, b)
    decreases |a|
  {
    if a == [] {
      assert a + b == b;
    } else {
      assert (a + b)[1..] == a[1..] + b;
      if Apply(db, a[0]).Some? {
        ApplyConcat(Apply(db, a[0]).value, a[1..], b);
      }
    }
  }

  lemma TwoCalls(db: Db, a: Call, b: Call)
    requires Shaped(db)
    ensures ApplyAll(db, [a, b]) == match Apply(db, a) case None => None case Some(c) => Apply(c, b)
  {
    assert [a, b][1..] == [b] && [b][1..] == [];
    if Apply(db, a).Some? {
      var c := Apply(db, a).value;
      assert ApplyAll(c, [b]) == match Apply(c, b) case None => None case Some(d) => ApplyAll(d, []);
    }
  }

  // ---------------------------------------------------------------- the orphaned expiry

  function Expires(kvs: seq<(string, nat)>): (calls: seq<Call>)
    ensures |calls| == |kvs|
  {
    if kvs == [] then [] else [CallSetExpire(kvs[0].0, kvs[0].1)] + Expires(kvs[1..])
  }

  lemma {:induction false} ExpiresSet(db: Db, kvs: seq<(string, nat)>)
    requires Shaped(db) && forall i :: 0 <= i < |kvs| ==> Value(db, kvs[i].0).Some?
    ensures ApplyAll(db, Expires(kvs)) == Some(db.(expire := DictLoad.SetAll(ExpireEnv(db.hash), db.expire, kvs)))
    decreases |kvs|
  {
    if kvs != [] {
      var d := WithExpire(db, kvs[0].0, kvs[0].1);
      SameDict(db, d);
      ExpiresSet(d, kvs[1..]);
      assert Expires(kvs)[1..] == Expires(kvs[1..]);
    }
  }

  /** After any stale SetExpire of a stored key, as many SetExpires of other stored keys as carry the expiry
      table past the key's old bucket bring its old expiry back, although no call named the key; and then
      GenericDelete takes the value away and leaves an expiry, the one that was lost before. */
  lemma StaleExpireOrphans(db: Db, key: string, at: nat, kvs: seq<(string, nat)>)
    requires Sound(db) && Value(db, key).Some? && Stale(ExpireEnv(db.hash), db.expire, key)
    requires forall i :: 0 <= i < |kvs| ==> kvs[i].0 != key && Value(db, kvs[i].0).Some?
    requires |kvs| == (Bucket(ExpireEnv(db.hash), key, |db.expire.table|) - db.expire.idx) / 10
    ensures var calls := [CallSetExpire(key, at)] + Expires(kvs);
      && ApplyAll(db, calls).Some? && Expiry(ApplyAll(db, calls).value, key) == Expiry(db, key)
      && ApplyAll(db, calls + [CallDelete(key)]).Some?
      && Value(ApplyAll(db, calls + [CallDelete(key)]).value, key) == None
      && Expiry(ApplyAll(db, calls + [CallDelete(key)]).value, key) == Some(at)
  {
    var e, calls := ExpireEnv(db.hash), [CallSetExpire(key, at)] + Expires(kvs);
    var x := DictLoad.SetAll(e, WithExpire(db, key, at).expire, kvs);
    ThenExpires(db, key, at, kvs);
    DictStale.StaleSetIsLost(e, db.expire, key, at, kvs);
    DictStale.StaleSetSurvivesDelete(e, db.expire, key, at, kvs);
    NewTables(db, db.dict, x);
    ApplyConcat(db, calls, [CallDelete(key)]);
    ThenDelete(db.(expire := x), key);
    assert Sound(db) && Value(db, key) == Lookup(DictEnv(db.hash), db.dict, key);
    DeleteExact(DictEnv(db.hash), db.dict, key);
  }

  lemma ThenExpires(db: Db, key: string, at: nat, kvs: seq<(string, nat)>)
    requires Shaped(db) && Value(db, key).Some?
    requires forall i :: 0 <= i < |kvs| ==> Value(db, kvs[i].0).Some?
    ensures ApplyAll(db, [CallSetExpire(key, at)] + Expires(kvs)) ==
            Some(db.(expire := DictLoad.SetAll(ExpireEnv(db.hash), WithExpire(db, key, at).expire, kvs)))
    ensures WithExpire(db, key, at).expire == Set(ExpireEnv(db.hash), db.expire, key, at)
  {
    var d := WithExpire(db, key, at);
    SameDict(db, d);
    ExpiresSet(d, kvs);
    assert ([CallSetExpire(key, at)] + Expires(kvs))[1..] == Expires(kvs);
  }

  lemma ThenDelete(db: Db, key: string)
    requires Shaped(db)
    ensures ApplyAll(db, [CallDelete(key)]) == Some(Deleted(db, key).0)
    ensures var u, d := Deleted(db, key).0, Delete(DictEnv(db.hash), db.dict, key);
      && Value(u, key) == Lookup(DictEnv(db.hash), d.0, key)
      && (d.1 ==> Expiry(u, key) == Lookup(ExpireEnv(db.hash), Delete(ExpireEnv(db.hash), db.expire, key).0, key))
  {
    assert [CallDelete(key)][1..] == [];
    NewTables(db, Deleted(db, key).0.dict, Deleted(db, key).0.expire);
  }

  // ---------------------------------------------------------------- a run that gets there

  /** A hash that sends every key to the last of the sixteen buckets. */
  function Crowd(): string -> nat { (k: string) => 15 }

  function KeyOf(i: nat): (k: string)
    ensures |k| == i
  {
    seq(i, _ => 'k')
  }

  /** n keys stored, each with an expiry, and no migration begun. */
  ghost predicate Crowded(db: Db, n: nat) {
    && Sound(db) && db.hash == Crowd()
    && Idle(db.dict, n) && Idle(db.expire, n)
    && forall j: nat :: (Value(db, KeyOf(j)).Some? <==> j < n) && (Expiry(db, KeyOf(j)).Some? <==> j < n)
  }

  predicate Idle<V>(s: State<string, V>, n: nat) {
    s.idx == -1 && |s.table| == INITIAL_DB_SIZE && s.count == n
  }

  function AddCalls(n: nat, obj: Obj): seq<Call> {
    [CallSetKey(KeyOf(n), obj, SetKeyFlags(false, false, true, false)), CallSetExpire(KeyOf(n), 1)]
  }

  function AllCalls(n: nat, obj: Obj): seq<Call> {
    if n == 0 then [] else AllCalls(n - 1, obj) + AddCalls(n - 1, obj)
  }

  lemma AddToIdle(db: Db, n: nat, obj: Obj) returns (d: Db)
    requires Crowded(db, n) && n < 12
    ensures ApplyAll(db, AddCalls(n, obj)) == Some(d) && Sound(d) && d.hash == Crowd()
    ensures n < 11 ==> Idle(d.dict, n + 1) && Idle(d.expire, n + 1)
    ensures n == 11 ==> d.expire.idx == 0 && |d.expire.table| == 16 && forall i :: 0 <= i < |d.expire.rtable| ==> d.expire.rtable[i] == []
    ensures forall j: nat :: (Value(d, KeyOf(j)).Some? <==> j <= n) && (Expiry(d, KeyOf(j)).Some? <==> j <= n)
  {
    var k := KeyOf(n);
    var e, x := DictEnv(db.hash), ExpireEnv(db.hash);
    var flags := SetKeyFlags(false, false, true, false);
    var call0, call1 := CallSetKey(k, obj, flags), CallSetExpire(k, 1);
    SetKeyPanics(db, k, obj, flags);
    ApplyExact(db, call0);
    var c := Apply(db, call0).value;
    ApplyExact(c, call1);
    d := Apply(c, call1).value;
    TwoCalls(db, call0, call1);
    assert forall j: nat :: KeyOf(j) == k <==> j == n by {
      assert forall j: nat :: |KeyOf(j)| == j;
    }
    Counts(db, k, obj, c, d);
  }

  lemma Counts(db: Db, k: string, obj: Obj, c: Db, d: Db)
    requires Sound(db) && db.dict.idx == -1 == db.expire.idx && Value(db, k) == None && Expiry(db, k) == None
    requires AfterSetKey(db, k, obj, SetKeyFlags(false, false, true, false)) == Some(c) && Shaped(c) && d == WithExpire(c, k, 1)
    requires Value(c, k).Some?
    ensures d.dict == Add(DictEnv(db.hash), db.dict, k, Some(obj.(lru := LOOKUP_CLOCK)), None)
    ensures d.expire == Set(ExpireEnv(db.hash), Delete(ExpireEnv(db.hash), db.expire, k).0, k, 1)
    ensures d.dict.count == db.dict.count + 1 && d.expire.count == db.expire.count + 1
    ensures DictLoad.Moved(db.dict, d.dict) && DictLoad.Moved(db.expire, d.expire)
    ensures forall i :: 0 <= i < |d.expire.rtable| ==> d.expire.rtable[i] == []
  {
    var e, x := DictEnv(db.hash), ExpireEnv(db.hash);
    var w := Delete(x, db.expire, k).0;
    AddCounters(e, db.dict, k, Some(obj.(lru := LOOKUP_CLOCK)), None);
    DictLoad.AddMoves(e, db.dict, k, Some(obj.(lru := LOOKUP_CLOCK)), None);
    DeleteExact(x, db.expire, k);
    DictLoad.SetMoves(x, w, k, 1);
    SetCounters(x, w, k, 1);
  }

  lemma {:induction false} Fill(n: nat, obj: Obj) returns (d: Db)
    requires n < 12
    ensures ApplyAll(New(Crowd()), AllCalls(n, obj)) == Some(d) && Crowded(d, n)
  {
    if n == 0 {
      d := New(Crowd());
      NewIsSound(Crowd());
    } else {
      var c := Fill(n - 1, obj);
      d := AddToIdle(c, n - 1, obj);
      ApplyConcat(New(Crowd()), AllCalls(n - 1, obj), AddCalls(n - 1, obj));
    }
  }

  /** A run of n + 1 = 12 keys to a database on which the first key's next SetExpire is stale. */
  lemma FilledUp(n: nat, obj: Obj) returns (first: seq<Call>, d: Db)
    requires 10 < n < 12
    ensures ApplyAll(New(Crowd()), first) == Some(d) && Sound(d) && Stale(ExpireEnv(d.hash), d.expire, KeyOf(0))
    ensures Value(d, KeyOf(0)).Some? && Value(d, KeyOf(1)).Some?
    ensures (Bucket(ExpireEnv(d.hash), KeyOf(0), |d.expire.table|) - d.expire.idx) / 10 == 1
  {
    var c := Fill(n, obj);
    d := AddToIdle(c, n, obj);
    first := AllCalls(n, obj) + AddCalls(n, obj);
    ApplyConcat(New(Crowd()), AllCalls(n, obj), AddCalls(n, obj));
    FirstIsStale(d);
  }

  /** Twelve keys are stored and given an expiry each; the first one's is set again, the second one's too,
      and the first is deleted: it still has an expiry. */
  lemma OrphanIsReachable(obj: Obj)
    ensures exists hash: string -> nat, calls: seq<Call> ::
      ApplyAll(New(hash), calls).Some? && !Consistent(ApplyAll(New(hash), calls).value)
  {
    var first, d := FilledUp(11, obj);
    assert |KeyOf(0)| != |KeyOf(1)|;
    var calls := OrphanAfter(first, d, KeyOf(0), [(KeyOf(1), 2)]);
  }

  lemma OrphanAfter(first: seq<Call>, d: Db, key: string, kvs: seq<(string, nat)>) returns (calls: seq<Call>)
    requires ApplyAll(New(Crowd()), first) == Some(d) && Sound(d)
    requires Value(d, key).Some? && Stale(ExpireEnv(d.hash), d.expire, key)
    requires forall i :: 0 <= i < |kvs| ==> kvs[i].0 != key && Value(d, kvs[i].0).Some?
    requires |kvs| == (Bucket(ExpireEnv(d.hash), key, |d.expire.table|) - d.expire.idx) / 10
    ensures ApplyAll(New(Crowd()), calls).Some? && !Consistent(ApplyAll(New(Crowd()), calls).value)
  {
    StaleExpireOrphans(d, key, 2, kvs);
    var last := [CallSetExpire(key, 2)] + Expires(kvs) + [CallDelete(key)];
    ApplyConcat(New(Crowd()), first, last);
    calls := first + last;
  }

  lemma FirstIsStale(d: Db)
    requires Shaped(d) && d.hash == Crowd() && d.expire.idx == 0 && |d.expire.table| == 16
    requires Expiry(d, KeyOf(0)).Some? && forall i :: 0 <= i < |d.expire.rtable| ==> d.expire.rtable[i] == []
    ensures Stale(ExpireEnv(d.hash), d.expire, KeyOf(0)) && Bucket(ExpireEnv(d.hash), KeyOf(0), 16) == 15
  {
    assert ExpireEnv(d.hash).hash(KeyOf(0)) == 15;
  }
}
