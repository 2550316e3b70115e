/** Runs of keyspace calls against two finite maps, and which calls break the tables underneath. */
module KeyspaceRuns {
  import opened Util
  import opened Dict
  import opened DictRefinement
  import opened DictCalls
  import opened DictAdd
  import opened Keyspace

  /** Both tables are good, no value is nil, and only stored keys expire. */
  ghost predicate Sound(db: Db) {
    && Shaped(db) && Good(DictEnv(db.hash), db.dict) && Good(ExpireEnv(db.hash), db.expire)
    && NoNil(db) && Consistent(db)
  }

  ghost predicate NoNil(db: Db)
    requires Shaped(db)
  {
    forall k :: Value(db, k) != Some(None)
  }

  ghost predicate Consistent(db: Db)
    requires Shaped(db)
  {
    forall k :: Expiry(db, k).Some? ==> Value(db, k).Some?
  }

  datatype Call =
    | CallSetKey(key: string, val: Obj, flags: SetKeyFlags)
    | CallSetExpire(key: string, at: nat)
    | CallRmExpire(key: string)
    | CallDelete(key: string)
    | CallLookup(key: string)

  function Apply(db: Db, call: Call): (r: Option<Db>)
    requires Shaped(db)
    ensures r.Some? ==> Shaped(r.value)
  {
    match call
    case CallSetKey(k, v, f) => AfterSetKey(db, k, v, f)
    case CallSetExpire(k, at) => Some(WithExpire(db, k, at))
    case CallRmExpire(k) => Some(WithoutExpire(db, k))
    case CallDelete(k) => Some(Deleted(db, k).0)
    case CallLookup(k) => Touch(db, k)
  }

  /** SetKey goes through AddRaw. */
  predicate Adds(db: Db, key: string, flags: SetKeyFlags)
    requires Shaped(db)
  {
    !flags.alreadyExists && (flags.addOrUpdated || flags.doesNotExist || Value(db, key) == None)
  }

  /** The calls that break a table: a SetExpire that is stale on the expiry table, and a SetKey that adds and
      is stale or links twice on the dict. */
  predicate Breaks(db: Db, call: Call)
    requires Shaped(db)
  {
    match call
    case CallSetKey(k, _, f) =>
      Adds(db, k, f) && (Stale(DictEnv(db.hash), db.dict, k) || LinksTwice(DictEnv(db.hash), db.dict, k))
    case CallSetExpire(k, _) => Value(db, k).Some? && Stale(ExpireEnv(db.hash), db.expire, k)
    case _ => false
  }

  // ---------------------------------------------------------------- one operation

  lemma NewDict(db: Db, u: State<string, Ref>)
    requires Shaped(db) && Shape(u)
    ensures forall q :: Value(db.(dict := u), q) == Lookup(DictEnv(db.hash), u, q)
    ensures forall q :: Expiry(db.(dict := u), q) == Expiry(db, q)
    ensures forall q :: Value(db, q) == Lookup(DictEnv(db.hash), db.dict, q)
  {
  }

  lemma SoundWithDict(db: Db, u: State<string, Ref>)
    requires Sound(db) && Shape(u)
    requires forall q :: Lookup(DictEnv(db.hash), u, q) != Some(None)
    requires forall q :: Value(db, q).Some? ==> Lookup(DictEnv(db.hash), u, q).Some?
    ensures Sound(db.(dict := u)) <==> Good(DictEnv(db.hash), u)
  {
    NewDict(db, u);
  }

  lemma WrittenExact(db: Db, key: string, obj: Obj)
    requires Sound(db) && Value(db, key).Some?
    ensures var d := Written(db, key, obj);
      && Sound(d)
      && (forall q :: Value(d, q) == if q == key then Some(Some(obj)) else Value(db, q))
      && (forall q :: Expiry(d, q) == Expiry(db, q))
  {
    var e := DictEnv(db.hash);
    var u := SetFound(e, db.dict, key, Some(obj));
    NewDict(db, u);
    SetFoundExact(e, db.dict, key, Some(obj));
    SoundWithDict(db, u);
  }

  /** The access time an added object ends up with. */
  function AddedClock(db: Db, key: string, updateIfExist: bool): int
    requires Shaped(db)
  {
    match Value(db, key)
    case Some(Some(o)) => if updateIfExist then o.lru else LOOKUP_CLOCK
    case _ => LOOKUP_CLOCK
  }

  /** Both ways out of addInternal that do not panic store through the entry AddRaw returned. */
  lemma AddExactHere(db: Db, key: string, obj: Obj)
    requires Sound(db)
    ensures var e := DictEnv(db.hash); var d := db.(dict := Add(e, db.dict, key, Some(obj), None));
      && (Sound(d) <==> !Stale(e, db.dict, key) && !LinksTwice(e, db.dict, key))
      && (forall q :: q != key ==> Value(d, q) == Value(db, q))
      && Value(d, key) == (if ReturnsOld(e, db.dict, key) then Some(None) else Some(Some(obj)))
      && (forall q :: Expiry(d, q) == Expiry(db, q))
  {
    var e := DictEnv(db.hash);
    var u := Add(e, db.dict, key, Some(obj), None);
    NewDict(db, u);
    AddExact(e, db.dict, key, Some(obj), None);
    if ReturnsOld(e, db.dict, key) {
      assert !Good(e, u);
    } else {
      SoundWithDict(db, u);
    }
  }

  /** When addInternal panics. */
  predicate AddPanics(db: Db, key: string)
    requires Shaped(db)
  {
    var e := DictEnv(db.hash);
    || (Value(db, key) == None && Reported(e, db.dict, key))
    || (Stale(e, db.dict, key) && ReturnsNew(e, db.dict, key))
  }

  lemma AddedIs(db: Db, key: string, val: Obj, updateIfExist: bool)
    requires Sound(db)
    ensures var e, r := DictEnv(db.hash), Added(db, key, val, updateIfExist);
      && (r == None <==> updateIfExist && AddPanics(db, key))
      && (r.Some? ==>
            r.value == db.(dict := Add(e, db.dict, key, Some(val.(lru := AddedClock(db, key, updateIfExist))), None)))
  {
    ReturnedIs(DictEnv(db.hash), db.dict, key, None);
    assert Value(db, key) == Lookup(DictEnv(db.hash), db.dict, key);
    if Stale(DictEnv(db.hash), db.dict, key) {
      StalePresent(db, key);
    }
  }

  lemma StalePresent(db: Db, key: string)
    requires Sound(db) && Stale(DictEnv(db.hash), db.dict, key)
    ensures Value(db, key).Some?
  {
  }

  lemma AddedExact(db: Db, key: string, val: Obj, updateIfExist: bool)
    requires Sound(db)
    ensures var e, r := DictEnv(db.hash), Added(db, key, val, updateIfExist);
      && (r == None <==> updateIfExist && AddPanics(db, key))
      && (r.Some? ==>
            && (Sound(r.value) <==> !Stale(e, db.dict, key) && !LinksTwice(e, db.dict, key))
            && r.value.expire == db.expire && r.value.hash == db.hash
            && (forall q :: q != key ==> Value(r.value, q) == Value(db, q))
            && Value(r.value, key) == (if ReturnsOld(e, db.dict, key) then Some(None)
                                       else Some(Some(val.(lru := AddedClock(db, key, updateIfExist)))))
            && (forall q :: Expiry(r.value, q) == Expiry(db, q)))
  {
    AddedIs(db, key, val, updateIfExist);
    AddExactHere(db, key, val.(lru := AddedClock(db, key, updateIfExist)));
  }

  lemma WithoutExpireExact(db: Db, key: string)
    requires Shaped(db) && Good(ExpireEnv(db.hash), db.expire)
    ensures var d := WithoutExpire(db, key);
      && Good(ExpireEnv(db.hash), d.expire) && d.dict == db.dict && d.hash == db.hash
      && forall q :: Expiry(d, q) == if q == key && Value(db, key).Some? then None else Expiry(db, q)
  {
    DeleteExact(ExpireEnv(db.hash), db.expire, key);
  }

  lemma WithExpireExact(db: Db, key: string, at: nat)
    requires Shaped(db) && Good(ExpireEnv(db.hash), db.expire)
    ensures var d := WithExpire(db, key, at);
      && (Good(ExpireEnv(db.hash), d.expire) <==> !Breaks(db, CallSetExpire(key, at)))
      && d.dict == db.dict && d.hash == db.hash
      && forall q :: Expiry(d, q) == if q == key && Value(db, key).Some? then Some(at) else Expiry(db, q)
  {
    SetExact(ExpireEnv(db.hash), db.expire, key, at);
  }

  lemma DeletedExact(db: Db, key: string)
    requires Sound(db)
    ensures var d := Deleted(db, key);
      && Sound(d.0) && (d.1 <==> Value(db, key).Some?)
      && (forall q :: Value(d.0, q) == if q == key then None else Value(db, q))
      && (forall q :: Expiry(d.0, q) == if q == key then None else Expiry(db, q))
  {
    var e, x := DictEnv(db.hash), ExpireEnv(db.hash);
    var u, w := Delete(e, db.dict, key), Delete(x, db.expire, key);
    DeleteExact(e, db.dict, key);
    DeleteExact(x, db.expire, key);
    NewTables(db, u.0, if u.1 then w.0 else db.expire);
    assert Value(db, key) == Lookup(e, db.dict, key);
  }

  lemma NewTables(db: Db, u: State<string, Ref>, w: State<string, nat>)
    requires Shaped(db) && Shape(u) && Shape(w)
    ensures forall q :: Value(Db(db.hash, u, w), q) == Lookup(DictEnv(db.hash), u, q)
    ensures forall q :: Expiry(Db(db.hash, u, w), q) == Lookup(ExpireEnv(db.hash), w, q)
    ensures forall q :: Value(db, q) == Lookup(DictEnv(db.hash), db.dict, q)
    ensures forall q :: Expiry(db, q) == Lookup(ExpireEnv(db.hash), db.expire, q)
  {
  }

  lemma SameDict(db: Db, d: Db)
    requires Shaped(db) && Shaped(d) && d.dict == db.dict && d.hash == db.hash
    ensures forall q :: Value(d, q) == Value(db, q)
  {
  }

  lemma StoreKeyExact(db: Db, key: string, val: Obj, flags: SetKeyFlags)
    requires Sound(db)
    ensures var e, r := DictEnv(db.hash), StoreKey(db, key, val, flags);
      && (r == None <==> Panics(db, key, flags))
      && (r.Some? ==>
            && (Sound(r.value) <==> !Breaks(db, CallSetKey(key, val, flags)))
            && r.value.expire == db.expire && r.value.hash == db.hash
            && (forall q :: q != key ==> Value(r.value, q) == Value(db, q))
            && Value(r.value, key) == Stored(db, key, val, flags)
            && (forall q :: Expiry(r.value, q) == Expiry(db, q)))
  {
    if flags.alreadyExists {
      if Value(db, key).Some? {
        WrittenExact(db, key, val.(lru := Value(db, key).value.value.lru));
      }
    } else if flags.addOrUpdated || flags.doesNotExist || Value(db, key) == None {
      AddedExact(db, key, val, flags.addOrUpdated);
    } else {
      var d := Touch(db, key).value;
      WrittenExact(db, key, Value(db, key).value.value.(lru := LOOKUP_CLOCK));
      WrittenExact(d, key, val.(lru := LOOKUP_CLOCK));
    }
  }

  /** SetKey panics when it overwrites an object that is not there: by its flags, or because AddRaw reported
      the entry it had just made. */
  predicate Panics(db: Db, key: string, flags: SetKeyFlags)
    requires Shaped(db)
  {
    if flags.alreadyExists then Value(db, key) == None else flags.addOrUpdated && AddPanics(db, key)
  }

  /** What a lookup of the key says after a SetKey that did not panic. */
  function Stored(db: Db, key: string, val: Obj, flags: SetKeyFlags): Option<Ref>
    requires Shaped(db)
  {
    if Adds(db, key, flags) && ReturnsOld(DictEnv(db.hash), db.dict, key) then Some(None)
    else if flags.alreadyExists then Some(Some(val.(lru := AddedClock(db, key, true))))
    else Some(Some(val.(lru := AddedClock(db, key, flags.addOrUpdated))))
  }

  /** SetKey panics exactly on a call that names an absent key as existing, or that adds or updates a key for
      which AddRaw reports the entry it has just made: an absent one whose bucket is in use, or a present one
      that it overlooks while the new bucket is in use. */
  lemma SetKeyPanics(db: Db, key: string, val: Obj, flags: SetKeyFlags)
    requires Sound(db)
    ensures AfterSetKey(db, key, val, flags) == None <==> Panics(db, key, flags)
  {
    StoreKeyExact(db, key, val, flags);
  }

  // ---------------------------------------------------------------- one call

  /** What lookups say after a call that did not panic, in terms of those before it. */
  ghost predicate Effect(db: Db, call: Call, d: Db)
    requires Shaped(db) && Shaped(d)
  {
    && (forall q :: q != call.key ==> Value(d, q) == Value(db, q) && Expiry(d, q) == Expiry(db, q))
    && match call
       case CallSetKey(k, v, f) =>
         && Value(d, k) == Stored(db, k, v, f)
         && Expiry(d, k) == (if f.keepTTL then Expiry(db, k) else None)
       case CallSetExpire(k, at) =>
         && Value(d, k) == Value(db, k)
         && Expiry(d, k) == (if Value(db, k).Some? then Some(at) else Expiry(db, k))
       case CallRmExpire(k) =>
         && Value(d, k) == Value(db, k)
         && Expiry(d, k) == (if Value(db, k).Some? then None else Expiry(db, k))
       case CallDelete(k) => Value(d, k) == None && Expiry(d, k) == None
       case CallLookup(k) =>
         && Expiry(d, k) == Expiry(db, k)
         && Value(d, k) == match Value(db, k)
              case None => None
              case Some(None) => Some(None)
              case Some(Some(o)) => Some(Some(o.(lru := LOOKUP_CLOCK)))
  }

  lemma SetKeyExact(db: Db, key: string, val: Obj, flags: SetKeyFlags)
    requires Sound(db) && AfterSetKey(db, key, val, flags).Some?
    ensures var call, d := CallSetKey(key, val, flags), AfterSetKey(db, key, val, flags).value;
      && (Sound(d) <==> !Breaks(db, call)) && Effect(db, call, d)
      && d.hash == db.hash && Good(ExpireEnv(db.hash), d.expire) && (flags.keepTTL ==> d.expire == db.expire)
  {
    StoreKeyExact(db, key, val, flags);
    var d := StoreKey(db, key, val, flags).value;
    if !flags.keepTTL {
      RmExpireKeepsSound(d, key);
    }
  }

  lemma RmExpireKeepsSound(db: Db, key: string)
    requires Shaped(db) && Good(ExpireEnv(db.hash), db.expire) && Value(db, key).Some?
    ensures var d := WithoutExpire(db, key);
      && (Sound(d) <==> Sound(db)) && d.hash == db.hash && Good(ExpireEnv(db.hash), d.expire)
      && (forall q :: Value(d, q) == Value(db, q))
      && (forall q :: Expiry(d, q) == if q == key then None else Expiry(db, q))
  {
    WithoutExpireExact(db, key);
    SameDict(db, WithoutExpire(db, key));
  }

  lemma SetExpireExact(db: Db, key: string, at: nat)
    requires Sound(db)
    ensures var call, d := CallSetExpire(key, at), WithExpire(db, key, at);
      (Sound(d) <==> !Breaks(db, call)) && Effect(db, call, d)
  {
    WithExpireExact(db, key, at);
    SameDict(db, WithExpire(db, key, at));
  }

  lemma RmExpireExact(db: Db, key: string)
    requires Sound(db)
    ensures Sound(WithoutExpire(db, key)) && Effect(db, CallRmExpire(key), WithoutExpire(db, key))
  {
    WithoutExpireExact(db, key);
    SameDict(db, WithoutExpire(db, key));
  }

  lemma LookupExact(db: Db, key: string)
    requires Sound(db)
    ensures Touch(db, key).Some? && Sound(Touch(db, key).value) && Effect(db, CallLookup(key), Touch(db, key).value)
  {
    if Value(db, key).Some? {
      WrittenExact(db, key, Value(db, key).value.value.(lru := LOOKUP_CLOCK));
    }
  }

  /** A call leaves the keyspace sound exactly when it does not break a table, and even then it answers the
      next lookups as its effect says and leaves those of other keys alone. */
  lemma ApplyExact(db: Db, call: Call)
    requires Sound(db) && Apply(db, call).Some?
    ensures Sound(Apply(db, call).value) <==> !Breaks(db, call)
    ensures Effect(db, call, Apply(db, call).value)
  {
    match call
    case CallSetKey(k, v, f) => SetKeyExact(db, k, v, f);
    case CallSetExpire(k, at) => SetExpireExact(db, k, at);
    case CallRmExpire(k) => RmExpireExact(db, k);
    case CallDelete(k) => DeletedExact(db, k);
    case CallLookup(k) => LookupExact(db, k);
  }

  // ---------------------------------------------------------------- runs; a panic ends one

  function ApplyAll(db: Db, calls: seq<Call>): (r: Option<Db>)
    requires Shaped(db)
    ensures r.Some? ==> Shaped(r.value)
    decreases |calls|
  {
    if calls == [] then Some(db)
    else match Apply(db, calls[0]) case None => None case Some(d) => ApplyAll(d, calls[1..])
  }

  predicate NeverBreaks(db: Db, calls: seq<Call>)
    requires Shaped(db)
    decreases |calls|
  {
    calls == [] ||
    match Apply(db, calls[0]) case None => true case Some(d) => !Breaks(db, calls[0]) && NeverBreaks(d, calls[1..])
  }

  ghost predicate SoundAlong(db: Db, calls: seq<Call>)
    requires Shaped(db)
    decreases |calls|
  {
    Sound(db) &&
    (calls != [] ==> match Apply(db, calls[0]) case None => true case Some(d) => SoundAlong(d, calls[1..]))
  }

  /** A run keeps the keyspace sound at every point exactly when none of its calls breaks a table. */
  lemma {:induction false} RunStaysSound(db: Db, calls: seq<Call>)
    requires Sound(db)
    ensures SoundAlong(db, calls) <==> NeverBreaks(db, calls)
    decreases |calls|
  {
    if calls != [] && Apply(db, calls[0]).Some? {
      ApplyExact(db, calls[0]);
      if !Breaks(db, calls[0]) {
        RunStaysSound(Apply(db, calls[0]).value, calls[1..]);
      }
    }
  }

  lemma NewIsSound(hash: string -> nat)
    ensures Sound(New(hash)) && Shows(New(hash), Maps(map[], map[])) && Charged(New(hash)) == Live(New(hash)) == 0
    ensures |New(hash).dict.table| == |New(hash).expire.table| == 16
  {
    var db := New(hash);
    assert forall k :: Value(db, k) == None && Expiry(db, k) == None;
    TotalEmpty(EntryMem(DictEnv(hash)), db.dict.table);
    TotalEmpty(EntryMem(ExpireEnv(hash)), db.expire.table);
  }

  // ---------------------------------------------------------------- the two maps

  /** The keyspace as its callers see it. */
  datatype Maps = Maps(values: map<string, Obj>, expiries: map<string, nat>)

  ghost predicate Shows(db: Db, m: Maps)
    requires Shaped(db)
  {
    && (forall k :: Value(db, k) == if k in m.values then Some(Some(m.values[k])) else None)
    && (forall k :: Expiry(db, k) == if k in m.expiries then Some(m.expiries[k]) else None)
  }

  function Maplike(m: Maps, call: Call): Maps {
    match call
    case CallSetKey(k, v, f) =>
      var keeps := k in m.values && (f.alreadyExists || f.addOrUpdated);
      var obj := v.(lru := if keeps then m.values[k].lru else LOOKUP_CLOCK);
      Maps(m.values[k := obj], if f.keepTTL then m.expiries else m.expiries - {k})
    case CallSetExpire(k, at) => if k in m.values then m.(expiries := m.expiries[k := at]) else m
    case CallRmExpire(k) => if k in m.values then m.(expiries := m.expiries - {k}) else m
    case CallDelete(k) => Maps(m.values - {k}, m.expiries - {k})
    case CallLookup(k) => if k in m.values then m.(values := m.values[k := m.values[k].(lru := LOOKUP_CLOCK)]) else m
  }

  function MapRun(m: Maps, calls: seq<Call>): Maps
    decreases |calls|
  {
    if calls == [] then m else MapRun(Maplike(m, calls[0]), calls[1..])
  }

  lemma EffectShows(db: Db, m: Maps, call: Call, d: Db)
    requires Shaped(db) && Shaped(d) && Shows(db, m) && Effect(db, call, d)
    requires call.CallSetKey? ==> Value(d, call.key) == Some(Some(Maplike(m, call).values[call.key]))
    ensures Shows(d, Maplike(m, call))
  {
    var k := call.key;
    assert Value(db, k) == if k in m.values then Some(Some(m.values[k])) else None;
    assert Expiry(db, k) == if k in m.expiries then Some(m.expiries[k]) else None;
  }

  lemma StoredShows(db: Db, m: Maps, key: string, val: Obj, flags: SetKeyFlags)
    requires Sound(db) && Shows(db, m) && !Panics(db, key, flags) && !Breaks(db, CallSetKey(key, val, flags))
    ensures Stored(db, key, val, flags) == Some(Some(Maplike(m, CallSetKey(key, val, flags)).values[key]))
  {
    assert Value(db, key) == if key in m.values then Some(Some(m.values[key])) else None;
    if Adds(db, key, flags) {
      AddExactHere(db, key, val);
    }
  }

  lemma CallRefinesMaps(db: Db, m: Maps, call: Call)
    requires Sound(db) && Shows(db, m) && Apply(db, call).Some? && !Breaks(db, call)
    ensures Sound(Apply(db, call).value) && Shows(Apply(db, call).value, Maplike(m, call))
  {
    ApplyExact(db, call);
    if call.CallSetKey? {
      SetKeyPanics(db, call.key, call.val, call.flags);
      StoredShows(db, m, call.key, call.val, call.flags);
    }
    EffectShows(db, m, call, Apply(db, call).value);
  }

  /** A run that breaks no table shows exactly the two maps that the same calls build; in particular only
      keys with a value have an expiry, and a call changes what is seen of its own key only. */
  lemma {:induction false} RunRefinesMaps(db: Db, m: Maps, calls: seq<Call>)
    requires Sound(db) && Shows(db, m) && NeverBreaks(db, calls) && ApplyAll(db, calls).Some?
    ensures Sound(ApplyAll(db, calls).value) && Shows(ApplyAll(db, calls).value, MapRun(m, calls))
    decreases |calls|
  {
    if calls != [] {
      CallRefinesMaps(db, m, calls[0]);
      RunRefinesMaps(Apply(db, calls[0]).value, Maplike(m, calls[0]), calls[1..]);
    }
  }

  // ---------------------------------------------------------------- the memory counter over both tables

  /** The tables' shares of the one counter, and what their live entries are estimated at. */
  function Charged(db: Db): int { db.dict.mem + db.expire.mem }

  function Live(db: Db): int {
    Weight(EntryMem(DictEnv(db.hash)), db.dict) + Weight(EntryMem(ExpireEnv(db.hash)), db.expire)
  }

  /** The one way to charge too much: Set charges a key again when it overwrites its expiry in the only table. */
  function CallDrift(db: Db, call: Call): nat
    requires Shaped(db)
  {
    if call.CallSetExpire? && Value(db, call.key).Some? && Expiry(db, call.key).Some?
       && !(0 <= db.expire.idx && db.expire.idx + REHASHING_BUCKETS < |db.expire.table|)
    then 16 + |call.key| else 0
  }

  function Drift(db: Db, calls: seq<Call>): nat
    requires Shaped(db)
    decreases |calls|
  {
    if calls == [] then 0
    else match Apply(db, calls[0]) case None => 0 case Some(d) => CallDrift(db, calls[0]) + Drift(d, calls[1..])
  }

  lemma WrittenUsed(db: Db, key: string, obj: Obj)
    requires Sound(db)
    ensures Charged(Written(db, key, obj)) - Live(Written(db, key, obj)) == Charged(db) - Live(db)
  {
    var e := DictEnv(db.hash);
    SetFoundExact(e, db.dict, key, Some(obj));
    if Lookup(e, db.dict, key).Some? {
      var f: ((string, Ref)) -> int := EntryMem(e);
      assert Weight(f, SetFound(e, db.dict, key, Some(obj))) ==
             Weight(f, db.dict) + f((key, Some(obj))) - Before(e, db.dict, key, f);
    }
  }

  lemma AddUsed(db: Db, key: string, obj: Obj)
    requires Sound(db) && !Stale(DictEnv(db.hash), db.dict, key) && !LinksTwice(DictEnv(db.hash), db.dict, key)
    ensures var d := db.(dict := Add(DictEnv(db.hash), db.dict, key, Some(obj), None));
      Charged(d) - Live(d) == Charged(db) - Live(db)
  {
    AddCounters(DictEnv(db.hash), db.dict, key, Some(obj), None);
  }

  lemma StoreKeyUsed(db: Db, key: string, val: Obj, flags: SetKeyFlags)
    requires Sound(db) && StoreKey(db, key, val, flags).Some? && !Breaks(db, CallSetKey(key, val, flags))
    ensures var d := StoreKey(db, key, val, flags).value; Charged(d) - Live(d) == Charged(db) - Live(db)
  {
    StoreKeyExact(db, key, val, flags);
    if flags.alreadyExists {
      WrittenUsed(db, key, val.(lru := Value(db, key).value.value.lru));
    } else if flags.addOrUpdated || flags.doesNotExist || Value(db, key) == None {
      AddedIs(db, key, val, flags.addOrUpdated);
      AddUsed(db, key, val.(lru := AddedClock(db, key, flags.addOrUpdated)));
    } else {
      var o := Value(db, key).value.value.(lru := LOOKUP_CLOCK);
      WrittenExact(db, key, o);
      WrittenUsed(db, key, o);
      WrittenUsed(Written(db, key, o), key, val.(lru := LOOKUP_CLOCK));
    }
  }

  lemma WithoutExpireUsed(db: Db, key: string)
    requires Shaped(db) && Good(ExpireEnv(db.hash), db.expire)
    ensures Charged(WithoutExpire(db, key)) - Live(WithoutExpire(db, key)) == Charged(db) - Live(db)
  {
    DeleteCounters(ExpireEnv(db.hash), db.expire, key);
  }

  lemma DriftIs(db: Db, key: string, at: nat)
    requires Shaped(db) && Value(db, key).Some? && !Stale(ExpireEnv(db.hash), db.expire, key)
    ensures SetDrift(ExpireEnv(db.hash), db.expire, key, at) == CallDrift(db, CallSetExpire(key, at))
  {
    var e := ExpireEnv(db.hash);
    assert e.keyMem(key) == KeyMem(key) && e.valMem(at) == 0;
    match Lookup(e, db.expire, key)
    case None =>
    case Some(o) => assert e.valMem(o) == 0;
  }

  lemma WithExpireUsed(db: Db, key: string, at: nat)
    requires Sound(db) && !Breaks(db, CallSetExpire(key, at))
    ensures var d := WithExpire(db, key, at);
      Charged(d) - Live(d) == Charged(db) - Live(db) + CallDrift(db, CallSetExpire(key, at))
  {
    var e := ExpireEnv(db.hash);
    if Value(db, key).Some? {
      DriftIs(db, key, at);
      SetCounters(e, db.expire, key, at);
      var u := Set(e, db.expire, key, at);
      assert WithExpire(db, key, at) == db.(expire := u);
      ExpireShare(db, u);
    }
  }

  lemma ExpireShare(db: Db, u: State<string, nat>)
    ensures var d := db.(expire := u); var f := EntryMem(ExpireEnv(db.hash));
      Charged(d) - Live(d) - (Charged(db) - Live(db)) == (u.mem - Weight(f, u)) - (db.expire.mem - Weight(f, db.expire))
  {
  }

  lemma DeletedUsed(db: Db, key: string)
    requires Sound(db)
    ensures Charged(Deleted(db, key).0) - Live(Deleted(db, key).0) == Charged(db) - Live(db)
  {
    DeleteCounters(DictEnv(db.hash), db.dict, key);
    DeleteCounters(ExpireEnv(db.hash), db.expire, key);
  }

  lemma SetKeyUsed(db: Db, key: string, val: Obj, flags: SetKeyFlags)
    requires Sound(db) && AfterSetKey(db, key, val, flags).Some? && !Breaks(db, CallSetKey(key, val, flags))
    ensures var d := AfterSetKey(db, key, val, flags).value; Charged(d) - Live(d) == Charged(db) - Live(db)
  {
    StoreKeyUsed(db, key, val, flags);
    StoreKeyExact(db, key, val, flags);
    if !flags.keepTTL {
      WithoutExpireUsed(StoreKey(db, key, val, flags).value, key);
    }
  }

  lemma CallUsed(db: Db, call: Call)
    requires Sound(db) && Apply(db, call).Some? && !Breaks(db, call)
    ensures var d := Apply(db, call).value; Charged(d) - Live(d) == Charged(db) - Live(db) + CallDrift(db, call)
  {
    match call
    case CallSetKey(k, v, f) => SetKeyUsed(db, k, v, f);
    case CallSetExpire(k, at) => WithExpireUsed(db, k, at);
    case CallRmExpire(k) => WithoutExpireUsed(db, k);
    case CallDelete(k) => DeletedUsed(db, k);
    case CallLookup(k) =>
      if Value(db, k).Some? {
        WrittenUsed(db, k, Value(db, k).value.value.(lru := LOOKUP_CLOCK));
      }
  }

  /** Over a run that breaks no table the counter is the estimate of the live entries of both tables, plus one
      key for each SetExpire that overwrote an expiry in the only table. */
  lemma {:induction false} RunUsed(db: Db, calls: seq<Call>)
    requires Sound(db) && NeverBreaks(db, calls) && ApplyAll(db, calls).Some?
    ensures var d := ApplyAll(db, calls).value; Charged(d) - Live(d) == Charged(db) - Live(db) + Drift(db, calls)
    decreases |calls|
  {
    if calls != [] {
      CallUsed(db, calls[0]);
      ApplyExact(db, calls[0]);
      RunUsed(Apply(db, calls[0]).value, calls[1..]);
    }
  }

  // ---------------------------------------------------------------- the counter, from the two maps

  ghost function Pick(ks: set<string>): (k: string)
    requires ks != {}
    ensures k in ks
  {
    var k :| k in ks; k
  }

  /** What the keys take: the header of a string and its bytes each. */
  ghost function Sizes(ks: set<string>): nat
    decreases |ks|
  {
    if ks == {} then 0 else 16 + |Pick(ks)| + Sizes(ks - {Pick(ks)})
  }

  lemma EmptyWeighsNothing<V>(e: Env<string, V>, s: State<string, V>, f: ((string, V)) -> int)
    requires Good(e, s) && forall k :: Lookup(e, s, k) == None
    ensures Weight(f, s) == 0
  {
    forall i | 0 <= i < |s.table|
      ensures s.table[i] == []
    {
      AnyEntryIsFound(e, s, s.table, i);
    }
    forall i | 0 <= i < |s.rtable|
      ensures s.rtable[i] == []
    {
      AnyEntryIsFound(e, s, s.rtable, i);
    }
    TotalEmpty(f, s.table);
    TotalEmpty(f, s.rtable);
  }

  lemma AnyEntryIsFound<V>(e: Env<string, V>, s: State<string, V>, t: seq<Chain<string, V>>, i: nat)
    requires Good(e, s) && i < |t| && (t == s.table || t == s.rtable)
    ensures t[i] != [] ==> Lookup(e, s, t[i][0].0).Some?
  {
    assert InBucket(e, t[i], |t|, i);
    assert t[i] != [] ==> Bucket(e, t[i][0].0, |t|) == i && FindAt(e, t, t[i][0].0).Some?;
  }

  /** The entries of a good table weigh what the keys take that it answers. */
  lemma {:induction false} WeightIsSizes<V>(e: Env<string, V>, s: State<string, V>, ks: set<string>)
    requires Good(e, s) && forall k :: Lookup(e, s, k).Some? <==> k in ks
    requires forall k, v :: EntryMem(e)((k, v)) == 16 + |k|
    ensures Weight(EntryMem(e), s) == Sizes(ks)
    decreases |ks|
  {
    var f: ((string, V)) -> int := EntryMem(e);
    if ks == {} {
      EmptyWeighsNothing(e, s, f);
    } else {
      var k := Pick(ks);
      DeleteExact(e, s, k);
      DeleteWeight(e, s, k, f);
      WeightIsSizes(e, Delete(e, s, k).0, ks - {k});
    }
  }

  /** Over a run from an empty database that breaks no table, the memory counter is 16 bytes and the length for each
      key with a value and again for each with an expiry, plus the drift. */
  lemma CounterIsSizes(hash: string -> nat, calls: seq<Call>)
    requires NeverBreaks(New(hash), calls) && ApplyAll(New(hash), calls).Some?
    ensures var m := MapRun(Maps(map[], map[]), calls);
      Charged(ApplyAll(New(hash), calls).value) == Sizes(m.values.Keys) + Sizes(m.expiries.Keys) + Drift(New(hash), calls)
  {
    NewIsSound(hash);
    RunUsed(New(hash), calls);
    RunRefinesMaps(New(hash), Maps(map[], map[]), calls);
    var d, m := ApplyAll(New(hash), calls).value, MapRun(Maps(map[], map[]), calls);
    assert forall k :: Value(d, k).Some? <==> k in m.values.Keys;
    assert forall k :: Expiry(d, k).Some? <==> k in m.expiries.Keys;
    WeightIsSizes(DictEnv(d.hash), d.dict, m.values.Keys);
    WeightIsSizes(ExpireEnv(d.hash), d.expire, m.expiries.Keys);
  }
}
