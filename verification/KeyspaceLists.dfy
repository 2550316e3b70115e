/** Every call of the keyspace on every two tables, good or broken: it comes to calls on its dict and its expiry
    table, so that what any run of them leaves of a key is known from its lists in these tables. */
module KeyspaceLists {
  import opened Util
  import opened Dict
  import opened DictRuns
  import opened DictLists
  import opened DictLoad
  import opened Keyspace
  import opened KeyspaceRuns

  type DictOp = Op<string, Ref>
  type ExpireOp = Op<string, nat>

  ghost predicate BothAtHome(db: Db) { AtHome(DictEnv(db.hash), db.dict) && AtHome(ExpireEnv(db.hash), db.expire) }

  // ---------------------------------------------------------------- one call

  function LookupOps(db: Db, k: string): seq<DictOp>
    requires Shaped(db)
  {
    match Value(db, k)
    case Some(Some(o)) => [SetValOp(k, Some(o.(lru := 100)))]
    case _ => []
  }

  /** An overwritten object hands its access time on; without one the source panics. */
  function OverwriteOps(db: Db, k: string, v: Obj): seq<DictOp>
    requires Shaped(db)
  {
    match Value(db, k)
    case Some(Some(o)) => [SetValOp(k, Some(v.(lru := o.lru)))]
    case _ => []
  }

  function AddOps(db: Db, k: string, v: Obj, update: bool): seq<DictOp>
    requires Shaped(db)
  {
    var e := DictEnv(db.hash);
    if update && Reported(e, db.dict, k) && Returned(e, db.dict, k, None).Some? then
      [AddOp(k, Some(v.(lru := Returned(e, db.dict, k, None).value.lru)), None)]
    else [AddOp(k, Some(v.(lru := 100)), None)]
  }

  function DictOps(db: Db, call: Call): seq<DictOp>
    requires Shaped(db)
  {
    match call
    case CallSetKey(k, v, f) =>
      if f.alreadyExists then OverwriteOps(db, k, v)
      else if f.addOrUpdated || f.doesNotExist || Value(db, k) == None then AddOps(db, k, v, f.addOrUpdated)
      else LookupOps(db, k) + [SetValOp(k, Some(v.(lru := 100)))]
    case CallDelete(k) => [DeleteOp(k)]
    case CallLookup(k) => LookupOps(db, k)
    case _ => []
  }

  /** The expiry table is called for keys that the dict answers. */
  function ExpireOps(db: Db, call: Call): seq<ExpireOp>
    requires Shaped(db)
  {
    match call
    case CallSetKey(k, _, f) => if f.keepTTL then [] else [DeleteOp(k)]
    case CallLookup(_) => []
    case CallSetExpire(k, at) => if Value(db, k).Some? then [SetOp(k, at)] else []
    case _ => if Value(db, call.key).Some? then [DeleteOp(call.key)] else []
  }

  ghost predicate ComesTo(db: Db, d: Db, us: seq<DictOp>, ws: seq<ExpireOp>)
    requires Shaped(db)
  {
    d == Db(db.hash, Run(DictEnv(db.hash), db.dict, us), Run(ExpireEnv(db.hash), db.expire, ws))
  }

  lemma RunOne<K, V>(e: Env<K, V>, s: State<K, V>, op: Op<K, V>)
    requires Shape(s)
    ensures Run(e, s, [op]) == Step(e, s, op) && Run(e, s, []) == s
  {
    assert [op][1..] == [];
  }

  lemma {:induction false} RunConcat<K, V>(e: Env<K, V>, s: State<K, V>, a: seq<Op<K, V>>, b: seq<Op<K, V>>)
    requires Shape(s)
    ensures Run(e, s, a + b) == Run(e, Run(e, s, a), b)
    decreases |a|
  {
    if a == [] {
      assert a + b == b;
    } else {
      assert (a + b)[1..] == a[1..] + b;
      RunConcat(e, Step(e, s, a[0]), a[1..], b);
    }
  }

  lemma LookupComesTo(db: Db, k: string)
    requires Shaped(db) && Touch(db, k).Some?
    ensures ComesTo(db, Touch(db, k).value, LookupOps(db, k), [])
  {
    if Value(db, k).Some? {
      RunOne(DictEnv(db.hash), db.dict, LookupOps(db, k)[0]);
    }
  }

  lemma AddComesTo(db: Db, k: string, v: Obj, update: bool)
    requires Shaped(db) && Added(db, k, v, update).Some?
    ensures ComesTo(db, Added(db, k, v, update).value, AddOps(db, k, v, update), [])
  {
    RunOne(DictEnv(db.hash), db.dict, AddOps(db, k, v, update)[0]);
  }

  lemma OverwriteComesTo(db: Db, k: string, v: Obj)
    requires Shaped(db) && Overwrite(db, k, v).Some?
    ensures ComesTo(db, Overwrite(db, k, v).value, OverwriteOps(db, k, v), [])
  {
    RunOne(DictEnv(db.hash), db.dict, OverwriteOps(db, k, v)[0]);
  }

  lemma StoreComesTo(db: Db, k: string, v: Obj, f: SetKeyFlags)
    requires Shaped(db) && StoreKey(db, k, v, f).Some?
    ensures ComesTo(db, StoreKey(db, k, v, f).value, DictOps(db, CallSetKey(k, v, f)), [])
  {
    if f.alreadyExists {
      OverwriteComesTo(db, k, v);
    } else if f.addOrUpdated || f.doesNotExist || Value(db, k) == None {
      AddComesTo(db, k, v, f.addOrUpdated);
    } else {
      var e, d := DictEnv(db.hash), Touch(db, k).value;
      LookupComesTo(db, k);
      SetFoundAnswers(e, db.dict, k, LookupOps(db, k)[0].val, k);
      assert Value(d, k) == Some(LookupOps(db, k)[0].val);
      OverwriteComesTo(d, k, v);
      RunConcat(e, db.dict, LookupOps(db, k), [SetValOp(k, Some(v.(lru := 100)))]);
    }
  }

  lemma Nothing(db: Db, d: Db, us: seq<DictOp>)
    requires Shaped(db) && ComesTo(db, d, us, [])
    ensures d.expire == db.expire && d.hash == db.hash
  {
  }

  /** AddRaw makes or finds an entry, and SetVal leaves it there. */
  lemma AddedIsThere(db: Db, k: string, v: Obj, update: bool)
    requires BothAtHome(db)
    ensures Added(db, k, v, update).Some? ==> Value(Added(db, k, v, update).value, k).Some?
  {
    if Added(db, k, v, update).Some? {
      var e, u := DictEnv(db.hash), Added(db, k, v, update).value.dict;
      var op := AddOps(db, k, v, update)[0];
      StepOnLists(e, db.dict, op, k);
      TwiceIff(e, db.dict, k);
      RehashesIff(e, db.dict, op);
      LookupIsFirst(e, u, k);
    }
  }

  lemma StoredIsThere(db: Db, k: string, v: Obj, f: SetKeyFlags)
    requires BothAtHome(db)
    ensures StoreKey(db, k, v, f).Some? ==> Value(StoreKey(db, k, v, f).value, k).Some?
  {
    if !f.alreadyExists && (f.addOrUpdated || f.doesNotExist || Value(db, k) == None) {
      AddedIsThere(db, k, v, f.addOrUpdated);
    } else if Value(db, k).Some? && Value(db, k).value.Some? {
      var e, o := DictEnv(db.hash), Value(db, k).value.value;
      var d := if f.alreadyExists then db else Written(db, k, o.(lru := 100));
      SetFoundAnswers(e, db.dict, k, Some(o.(lru := 100)), k);
      SetFoundAnswers(e, d.dict, k, Some(v.(lru := if f.alreadyExists then o.lru else 100)), k);
    }
  }

  /** A call of the keyspace that does not panic comes to these calls on its tables. */
  lemma CallComesTo(db: Db, call: Call)
    requires BothAtHome(db) && Apply(db, call).Some?
    ensures ComesTo(db, Apply(db, call).value, DictOps(db, call), ExpireOps(db, call))
  {
    var x := ExpireEnv(db.hash);
    if ExpireOps(db, call) != [] {
      RunOne(x, db.expire, ExpireOps(db, call)[0]);
    }
    match call
    case CallSetKey(k, v, f) =>
      StoreComesTo(db, k, v, f);
      StoredIsThere(db, k, v, f);
    case CallSetExpire(k, at) =>
    case CallRmExpire(k) =>
    case CallDelete(k) =>
      RunOne(DictEnv(db.hash), db.dict, DictOps(db, call)[0]);
    case CallLookup(k) => LookupComesTo(db, k);
  }

  /** The calls that panic: those that would change a nil object, or one that is not there. */
  lemma CallPanicsIff(db: Db, call: Call)
    requires Shaped(db)
    ensures Apply(db, call) == None <==>
            match call
            case CallLookup(k) => Value(db, k) == Some(None)
            case CallSetKey(k, _, f) =>
              if f.alreadyExists then Value(db, k) == None || Value(db, k) == Some(None)
              else if f.addOrUpdated then Reported(DictEnv(db.hash), db.dict, k) && Returned(DictEnv(db.hash), db.dict, k, None) == None
              else !f.doesNotExist && Value(db, k) == Some(None)
            case _ => false
  {
    if call.CallSetKey? && Value(db, call.key).Some? && Value(db, call.key).value.Some? {
      var o := Value(db, call.key).value.value.(lru := LOOKUP_CLOCK);
      SetFoundAnswers(DictEnv(db.hash), db.dict, call.key, Some(o), call.key);
      assert Value(Written(db, call.key, o), call.key) == Some(Some(o));
    }
  }

  // ---------------------------------------------------------------- whole runs

  function AllDictOps(db: Db, calls: seq<Call>): seq<DictOp>
    requires Shaped(db)
    decreases |calls|
  {
    if calls == [] then []
    else match Apply(db, calls[0]) case None => [] case Some(d) => DictOps(db, calls[0]) + AllDictOps(d, calls[1..])
  }

  function AllExpireOps(db: Db, calls: seq<Call>): seq<ExpireOp>
    requires Shaped(db)
    decreases |calls|
  {
    if calls == [] then []
    else match Apply(db, calls[0]) case None => [] case Some(d) => ExpireOps(db, calls[0]) + AllExpireOps(d, calls[1..])
  }

  lemma StaysAtHome(db: Db, d: Db, us: seq<DictOp>, ws: seq<ExpireOp>)
    requires BothAtHome(db) && ComesTo(db, d, us, ws)
    ensures BothAtHome(d)
  {
    RunLists(DictEnv(db.hash), db.dict, us, "");
    RunLists(ExpireEnv(db.hash), db.expire, ws, "");
  }

  lemma {:induction false} RunComesTo(db: Db, calls: seq<Call>)
    requires BothAtHome(db) && ApplyAll(db, calls).Some?
    ensures ComesTo(db, ApplyAll(db, calls).value, AllDictOps(db, calls), AllExpireOps(db, calls))
    ensures BothAtHome(ApplyAll(db, calls).value)
    decreases |calls|
  {
    if calls != [] {
      var d := Apply(db, calls[0]).value;
      CallComesTo(db, calls[0]);
      StaysAtHome(db, d, DictOps(db, calls[0]), ExpireOps(db, calls[0]));
      RunComesTo(d, calls[1..]);
      RunConcat(DictEnv(db.hash), db.dict, DictOps(db, calls[0]), AllDictOps(d, calls[1..]));
      RunConcat(ExpireEnv(db.hash), db.expire, ExpireOps(db, calls[0]), AllExpireOps(d, calls[1..]));
    }
  }

  /** So after any run that does not panic, whatever it broke, every key's value and expiry are the first of what the
      calls have left in its lists in the two tables. */
  lemma RunAnswers(db: Db, calls: seq<Call>, k: string)
    requires BothAtHome(db) && ApplyAll(db, calls).Some?
    ensures var d, e, x := ApplyAll(db, calls).value, DictEnv(db.hash), ExpireEnv(db.hash);
      var us := KeyRun(e, db.dict, ListsOf(e, db.dict, k), k, AllDictOps(db, calls));
      var ws := KeyRun(x, db.expire, ListsOf(x, db.expire, k), k, AllExpireOps(db, calls));
      && Value(d, k) == First(us.inNew + us.inOld)
      && Expiry(d, k) == First(ws.inNew + ws.inOld)
  {
    RunComesTo(db, calls);
    RunLists(DictEnv(db.hash), db.dict, AllDictOps(db, calls), k);
    RunLists(ExpireEnv(db.hash), db.expire, AllExpireOps(db, calls), k);
  }

  /** The shared memory counter moves by what these calls charge to each table. */
  lemma RunChargesBoth(db: Db, calls: seq<Call>)
    requires BothAtHome(db) && ApplyAll(db, calls).Some?
    ensures KeyspaceRuns.Charged(ApplyAll(db, calls).value) - KeyspaceRuns.Charged(db) ==
            DictLists.Charged(DictEnv(db.hash), db.dict, AllDictOps(db, calls)).memory
            + DictLists.Charged(ExpireEnv(db.hash), db.expire, AllExpireOps(db, calls)).memory
  {
    RunComesTo(db, calls);
    RunCharges(DictEnv(db.hash), db.dict, AllDictOps(db, calls));
    RunCharges(ExpireEnv(db.hash), db.expire, AllExpireOps(db, calls));
  }
}
