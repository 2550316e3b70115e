/** RedisDb of db/db.go: the operations of the keyspace as calls on its two hash tables. */
module Keyspace {
  import opened Util
  import opened Dict
  import opened DictCalls

  datatype Payload = Str(s: string) | U64(n: nat)
  datatype Encoding = Raw | EmbStr | Int | OtherEncoding
  datatype Obj = Obj(value: Payload, encoding: Encoding, lru: int)

  /** A value in the dict is a pointer to an object, None when it is nil; AddRaw stores nil. */
  type Ref = Option<Obj>

  /** The two hash tables, under one hash function. */
  datatype Db = Db(hash: string -> nat, dict: State<string, Ref>, expire: State<string, nat>)

  datatype SetKeyFlags = SetKeyFlags(keepTTL: bool, alreadyExists: bool, doesNotExist: bool, addOrUpdated: bool)

  const LOOKUP_CLOCK := 100
  const INITIAL_DB_SIZE: nat := 16

  /** estimateMemoryUsage: a string counts itself and its header, pointers and uint64 count nothing. */
  function KeyMem(key: string): nat { 16 + |key| }

  function DictEnv(hash: string -> nat): Env<string, Ref> { Env(hash, (k: string) => KeyMem(k), (v: Ref) => 0) }

  function ExpireEnv(hash: string -> nat): Env<string, nat> { Env(hash, (k: string) => KeyMem(k), (v: nat) => 0) }

  ghost predicate Shaped(db: Db) { Shape(db.dict) && Shape(db.expire) }

  function New(hash: string -> nat): Db {
    Db(hash, State(seq(INITIAL_DB_SIZE, _ => []), -1, [], 0, 0), State(seq(INITIAL_DB_SIZE, _ => []), -1, [], 0, 0))
  }

  /** db.dict.Get and db.expire.Get */
  function Value(db: Db, key: string): Option<Ref>
    requires Shaped(db)
  {
    Lookup(DictEnv(db.hash), db.dict, key)
  }

  function Expiry(db: Db, key: string): Option<nat>
    requires Shaped(db)
  {
    Lookup(ExpireEnv(db.hash), db.expire, key)
  }

  // ---------------------------------------------------------------- the operations; None is a panic

  /** The object that Get finds changes its access time, or is replaced, through the entry's pointer. */
  function Written(db: Db, key: string, obj: Obj): (r: Db)
    requires Shaped(db)
    ensures Shaped(r)
  {
    db.(dict := SetFound(DictEnv(db.hash), db.dict, key, Some(obj)))
  }

  /** lookupKey refreshes the access time of what it finds; a nil object panics. */
  function Touch(db: Db, key: string): (r: Option<Db>)
    requires Shaped(db)
    ensures r.Some? ==> Shaped(r.value)
  {
    match Value(db, key)
    case None => Some(db)
    case Some(None) => None
    case Some(Some(o)) => Some(Written(db, key, o.(lru := LOOKUP_CLOCK)))
  }

  /** setValue on what GetEntry finds: the new object takes over the access time of the old one, which must
      be there. */
  function Overwrite(db: Db, key: string, val: Obj): (r: Option<Db>)
    requires Shaped(db)
    ensures r.Some? ==> Shaped(r.value)
  {
    match Value(db, key)
    case Some(Some(o)) => Some(Written(db, key, val.(lru := o.lru)))
    case _ => None
  }

  /** addInternal: what AddRaw reports as existing is overwritten through the entry it returned, if that is
      asked for; anything else is stored in that entry with a fresh access time. */
  function Added(db: Db, key: string, val: Obj, updateIfExist: bool): (r: Option<Db>)
    requires Shaped(db)
    ensures r.Some? ==> Shaped(r.value)
  {
    var e := DictEnv(db.hash);
    if Reported(e, db.dict, key) && updateIfExist then
      match Returned(e, db.dict, key, None)
      case None => None
      case Some(o) => Some(db.(dict := Add(e, db.dict, key, Some(val.(lru := o.lru)), None)))
    else Some(db.(dict := Add(e, db.dict, key, Some(val.(lru := LOOKUP_CLOCK)), None)))
  }

  function WithoutExpire(db: Db, key: string): (r: Db)
    requires Shaped(db)
    ensures Shaped(r)
  {
    if Value(db, key).Some? then db.(expire := Delete(ExpireEnv(db.hash), db.expire, key).0) else db
  }

  function WithExpire(db: Db, key: string, at: nat): (r: Db)
    requires Shaped(db)
    ensures Shaped(r)
  {
    SetKeepsShape(ExpireEnv(db.hash), db.expire, key, at);
    if Value(db, key).Some? then db.(expire := Set(ExpireEnv(db.hash), db.expire, key, at)) else db
  }

  function StoreKey(db: Db, key: string, val: Obj, flags: SetKeyFlags): (r: Option<Db>)
    requires Shaped(db)
    ensures r.Some? ==> Shaped(r.value)
  {
    if flags.alreadyExists then Overwrite(db, key, val)
    else if flags.addOrUpdated then Added(db, key, val, true)
    else if flags.doesNotExist then Added(db, key, val, false)
    else
      match Touch(db, key)
      case None => None
      case Some(d) => if Value(db, key).Some? then Overwrite(d, key, val) else Added(d, key, val, false)
  }

  function AfterSetKey(db: Db, key: string, val: Obj, flags: SetKeyFlags): (r: Option<Db>)
    requires Shaped(db)
    ensures r.Some? ==> Shaped(r.value)
  {
    match StoreKey(db, key, val, flags)
    case None => None
    case Some(d) => Some(if flags.keepTTL then d else WithoutExpire(d, key))
  }

  /** GenericDelete */
  function Deleted(db: Db, key: string): (r: (Db, bool))
    requires Shaped(db)
    ensures Shaped(r.0)
  {
    var (d, exist) := Delete(DictEnv(db.hash), db.dict, key);
    (Db(db.hash, d, if exist then Delete(ExpireEnv(db.hash), db.expire, key).0 else db.expire), exist)
  }

  // ---------------------------------------------------------------- the object

  class RedisDb {
    const hash: string -> nat
    var dict: State<string, Ref>
    var expire: State<string, nat>

    ghost function State(): Db
      reads this
    {
      Db(hash, dict, expire)
    }

    ghost predicate Valid()
      reads this
    {
      Shaped(State())
    }

    constructor (hash: string -> nat)
      ensures Valid() && State() == New(hash)
    {
      this.hash := hash;
      dict, expire := New(hash).dict, New(hash).expire;
    }

    method Get(key: string) returns (val: Option<Ref>)
      requires Valid()
      ensures val == Value(State(), key)
    {
      return Lookup(DictEnv(hash), dict, key);
    }

    /** lookupKey for writing; a nil object is dereferenced only where `ok` is false. */
    method LookupKeyWrite(key: string) returns (exist: bool, ok: bool)
      requires Valid()
      modifies this`dict
      ensures Valid() && exist == Value(old(State()), key).Some? && ok == Touch(old(State()), key).Some?
      ensures ok ==> Some(State()) == Touch(old(State()), key)
      ensures !ok ==> State() == old(State())
    {
      var val := Get(key);
      match val {
        case None => return false, true;
        case Some(None) => return true, false;
        case Some(Some(o)) =>
          dict := SetFound(DictEnv(hash), dict, key, Some(o.(lru := LOOKUP_CLOCK)));
          return true, true;
      }
    }

    /** setValue without an entry; false where the source dereferences a nil object. */
    method SetValue(key: string, val: Obj) returns (ok: bool)
      requires Valid()
      modifies this`dict
      ensures Valid() && ok == Overwrite(old(State()), key, val).Some?
      ensures ok ==> Some(State()) == Overwrite(old(State()), key, val)
    {
      var found := Get(key);
      match found {
        case Some(Some(o)) =>
          dict := SetFound(DictEnv(hash), dict, key, Some(val.(lru := o.lru)));
          return true;
        case _ => return false;
      }
    }

    method AddInternal(key: string, val: Obj, updateIfExist: bool) returns (ok: bool)
      requires Valid()
      modifies this`dict
      ensures Valid() && ok == Added(old(State()), key, val, updateIfExist).Some?
      ensures ok ==> Some(State()) == Added(old(State()), key, val, updateIfExist)
    {
      var e := DictEnv(hash);
      var lru := LOOKUP_CLOCK;
      if Reported(e, dict, key) && updateIfExist {
        var o := Returned(e, dict, key, None);
        if o == None {
          return false;
        }
        lru := o.value.lru;
      }
      dict := Add(e, dict, key, Some(val.(lru := lru)), None);
      return true;
    }

    /** SetKey; false where it panics. */
    method SetKey(key: string, val: Obj, flags: SetKeyFlags) returns (ok: bool)
      requires Valid()
      modifies this
      ensures Valid() && ok == AfterSetKey(old(State()), key, val, flags).Some?
      ensures ok ==> Some(State()) == AfterSetKey(old(State()), key, val, flags)
    {
      var keyFound := 0;
      if flags.alreadyExists {
        keyFound := 1;
      } else if flags.addOrUpdated {
        keyFound := -1;
      } else if !flags.doesNotExist {
        var exist;
        exist, ok := LookupKeyWrite(key);
        if !ok {
          return;
        }
        if exist {
          keyFound := 1;
        }
      }
      if keyFound == 0 {
        ok := AddInternal(key, val, false);
      } else if keyFound == -1 {
        ok := AddInternal(key, val, true);
      } else {
        ok := SetValue(key, val);
      }
      if ok && !flags.keepTTL {
        RmExpire(key);
      }
    }

    method RmExpire(key: string)
      requires Valid()
      modifies this`expire
      ensures Valid() && State() == WithoutExpire(old(State()), key)
    {
      var val := Get(key);
      if val.Some? {
        expire := Delete(ExpireEnv(hash), expire, key).0;
      }
    }

    method SetExpire(key: string, at: nat)
      requires Valid()
      modifies this`expire
      ensures Valid() && State() == WithExpire(old(State()), key, at)
    {
      SetKeepsShape(ExpireEnv(hash), expire, key, at);
      var val := Get(key);
      if val.Some? {
        expire := Set(ExpireEnv(hash), expire, key, at);
      }
    }

    method GenericDelete(key: string) returns (deleted: bool)
      requires Valid()
      modifies this
      ensures Valid() && (State(), deleted) == Deleted(old(State()), key)
    {
      var (d, exist) := Delete(DictEnv(hash), dict, key);
      dict := d;
      if exist {
        expire := Delete(ExpireEnv(hash), expire, key).0;
      }
      return exist;
    }
  }
}
