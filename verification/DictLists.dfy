/** Every call on every table, good or broken: what it does to the entries of one key. A stale call leaves a key
    with two entries, a migration may bring both into one chain, and which of them answers is a matter of their
    order. For one key that is a list of values in its old bucket and one in its new bucket, and each call does
    one simple thing to these two lists. An entry that AddRaw has linked into both tables is two entries here. */
module DictLists {
  import opened Util
  import opened Dict
  import opened DictRefinement
  import opened DictCalls
  import opened DictRuns

  // ---------------------------------------------------------------- one chain

  /** The values of k's entries, in the order of the chain. */
  function Values<K(==), V>(c: Chain<K, V>, k: K): seq<V> {
    if c == [] then [] else (if c[0].0 == k then [c[0].1] else []) + Values(c[1..], k)
  }

  function First<V>(vs: seq<V>): Option<V> { if vs == [] then None else Some(vs[0]) }

  /** The first value overwritten, or a new only one. */
  function Headed<V>(vs: seq<V>, v: V): seq<V> { if vs == [] then [v] else [v] + vs[1..] }

  function Tail<V>(vs: seq<V>): seq<V> { if vs == [] then [] else vs[1..] }

  function Reverse<V>(vs: seq<V>): seq<V> { if vs == [] then [] else Reverse(vs[1..]) + [vs[0]] }

  lemma {:induction false} FindIsFirst<K, V>(c: Chain<K, V>, k: K)
    ensures Find(c, k) == First(Values(c, k))
  {
    if c != [] && c[0].0 != k {
      FindIsFirst(c[1..], k);
    }
  }

  lemma {:induction false} PutValues<K, V>(c: Chain<K, V>, k: K, v: V, q: K)
    ensures Values(Put(c, k, v), q) == if q == k then Headed(Values(c, k), v) else Values(c, q)
  {
    if c != [] && c[0].0 != k {
      PutValues(c[1..], k, v, q);
      assert Put(c, k, v)[1..] == Put(c[1..], k, v);
    } else if c != [] {
      assert Put(c, k, v)[1..] == c[1..];
    }
  }

  lemma {:induction false} RemoveValues<K, V>(c: Chain<K, V>, k: K, q: K)
    ensures Values(Remove(c, k), q) == if q == k then Tail(Values(c, k)) else Values(c, q)
  {
    if c != [] && c[0].0 != k {
      RemoveValues(c[1..], k, q);
      assert Remove(c, k)[1..] == Remove(c[1..], k);
    }
  }

  lemma {:induction false} NotInBucket<K, V>(e: Env<K, V>, c: Chain<K, V>, n: nat, i: nat, k: K)
    requires InBucket(e, c, n, i) && Bucket(e, k, n) != i
    ensures Values(c, k) == []
  {
    if c != [] {
      assert c[0].0 != k;
      NotInBucket(e, c[1..], n, i, k);
    }
  }

  // ---------------------------------------------------------------- one table

  function Held<K(==), V>(e: Env<K, V>, t: seq<Chain<K, V>>, k: K): seq<V>
    requires t != []
  {
    Values(t[Bucket(e, k, |t|)], k)
  }

  lemma PutAtHeld<K, V>(e: Env<K, V>, t: seq<Chain<K, V>>, k: K, v: V, q: K)
    requires t != []
    ensures Held(e, PutAt(e, t, k, v), q) == if q == k then Headed(Held(e, t, k), v) else Held(e, t, q)
  {
    PutValues(t[Bucket(e, k, |t|)], k, v, q);
  }

  lemma RemoveAtHeld<K, V>(e: Env<K, V>, t: seq<Chain<K, V>>, k: K, q: K)
    requires t != []
    ensures Held(e, RemoveAt(e, t, k), q) == if q == k then Tail(Held(e, t, k)) else Held(e, t, q)
  {
    RemoveValues(t[Bucket(e, k, |t|)], k, q);
  }

  /** Moving a chain puts the values it has for k, last first, in front of those the new bucket has. */
  lemma {:induction false} MoveHeld<K, V>(e: Env<K, V>, c: Chain<K, V>, rt: seq<Chain<K, V>>, k: K)
    requires rt != []
    ensures Held(e, MoveChain(e, c, rt), k) == Reverse(Values(c, k)) + Held(e, rt, k)
  {
    if c != [] {
      var i := Bucket(e, c[0].0, |rt|);
      var moved := rt[i := [c[0]] + rt[i]];
      assert moved[i][1..] == rt[i];
      var first := if c[0].0 == k then [c[0].1] else [];
      assert Held(e, moved, k) == first + Held(e, rt, k);
      MoveHeld(e, c[1..], moved, k);
      assert Values(c, k) == first + Values(c[1..], k);
      assert Reverse(Values(c, k)) == Reverse(Values(c[1..], k)) + first by {
        if first != [] {
          assert Values(c, k)[1..] == Values(c[1..], k);
        } else {
          assert Values(c, k) == Values(c[1..], k);
        }
      }
    }
  }

  /** Every entry is in its key's bucket; duplicates are allowed. */
  ghost predicate Homes<K, V>(e: Env<K, V>, t: seq<Chain<K, V>>) {
    forall i :: 0 <= i < |t| ==> InBucket(e, t[i], |t|, i)
  }

  ghost predicate AtHome<K, V>(e: Env<K, V>, s: State<K, V>) {
    Shape(s) && Homes(e, s.table) && Homes(e, s.rtable)
  }

  lemma {:induction false} MoveHomes<K, V>(e: Env<K, V>, c: Chain<K, V>, rt: seq<Chain<K, V>>)
    requires rt != [] && Homes(e, rt)
    ensures Homes(e, MoveChain(e, c, rt))
  {
    if c != [] {
      var i := Bucket(e, c[0].0, |rt|);
      var moved := rt[i := [c[0]] + rt[i]];
      assert InBucket(e, rt[i], |rt|, i);
      assert InBucket(e, moved[i], |rt|, i);
      MoveHomes(e, c[1..], moved);
    }
  }

  lemma PutAtHomes<K, V>(e: Env<K, V>, t: seq<Chain<K, V>>, k: K, v: V)
    requires t != [] && Homes(e, t)
    ensures Homes(e, PutAt(e, t, k, v))
  {
    var b := Bucket(e, k, |t|);
    assert InBucket(e, t[b], |t|, b);
    PutStaysInBucket(e, t[b], |t|, b, k, v);
  }

  lemma RemoveAtHomes<K, V>(e: Env<K, V>, t: seq<Chain<K, V>>, k: K)
    requires t != [] && Homes(e, t)
    ensures Homes(e, RemoveAt(e, t, k))
  {
    var b := Bucket(e, k, |t|);
    assert InBucket(e, t[b], |t|, b);
    RemoveStaysInBucket(e, t[b], |t|, b, k);
  }

  // ---------------------------------------------------------------- the two lists of a key

  datatype Lists<V> = Lists(inOld: seq<V>, inNew: seq<V>)

  function ListsOf<K(==), V>(e: Env<K, V>, s: State<K, V>, k: K): Lists<V>
    requires Shape(s)
  {
    Lists(Held(e, s.table, k), if s.idx >= 0 then Held(e, s.rtable, k) else [])
  }

  /** A lookup answers with the first value of the new list, or else of the old one. */
  lemma LookupIsFirst<K, V>(e: Env<K, V>, s: State<K, V>, k: K)
    requires Shape(s)
    ensures Lookup(e, s, k) == First(ListsOf(e, s, k).inNew + ListsOf(e, s, k).inOld)
  {
    FindIsFirst(s.table[Bucket(e, k, |s.table|)], k);
    if s.idx >= 0 {
      FindIsFirst(s.rtable[Bucket(e, k, |s.rtable|)], k);
    }
  }

  /** The migration step of a call: a key whose bucket is among the ten has its old values moved, last first, in
      front of its new ones; with the last bucket of all the new list is the only one. */
  function Stepped<V>(ls: Lists<V>, idx: int, size: nat, b: nat): Lists<V> {
    if idx < 0 then ls
    else
      var moved := if idx <= b < idx + 10 then Lists([], Reverse(ls.inOld) + ls.inNew) else ls;
      if idx + 10 >= size then Lists(moved.inNew, []) else moved
  }

  lemma {:induction false} MigrateLists<K, V>(e: Env<K, V>, s: State<K, V>, n: nat, k: K)
    requires 0 <= s.idx <= |s.table| && s.table != [] && s.rtable != [] && Homes(e, s.table) && Homes(e, s.rtable)
    ensures var m, b := Migrate(e, s, n), Bucket(e, k, |s.table|);
      && Homes(e, m.table) && Homes(e, m.rtable)
      && Held(e, m.table, k) == (if s.idx <= b < s.idx + n then [] else Held(e, s.table, k))
      && Held(e, m.rtable, k) == (if s.idx <= b < s.idx + n then Reverse(Held(e, s.table, k)) else []) + Held(e, s.rtable, k)
    decreases n
  {
    if n != 0 && s.idx < |s.table| {
      MigrateBucketLists(e, s, k);
      MigrateLists(e, MigrateBucket(e, s), n - 1, k);
    }
  }

  lemma MigrateBucketLists<K, V>(e: Env<K, V>, s: State<K, V>, k: K)
    requires 0 <= s.idx < |s.table| && s.rtable != [] && Homes(e, s.table) && Homes(e, s.rtable)
    ensures var m, here := MigrateBucket(e, s), Bucket(e, k, |s.table|) == s.idx;
      && Homes(e, m.table) && Homes(e, m.rtable)
      && Held(e, m.table, k) == (if here then [] else Held(e, s.table, k))
      && Held(e, m.rtable, k) == (if here then Reverse(Held(e, s.table, k)) else []) + Held(e, s.rtable, k)
  {
    var c := s.table[s.idx];
    assert InBucket(e, c, |s.table|, s.idx);
    MoveHeld(e, c, s.rtable, k);
    MoveHomes(e, c, s.rtable);
    if Bucket(e, k, |s.table|) != s.idx {
      NotInBucket(e, c, |s.table|, s.idx, k);
    }
  }

  lemma StepLists<K, V>(e: Env<K, V>, s: State<K, V>, k: K)
    requires AtHome(e, s)
    ensures AtHome(e, StepIfRehashing(e, s))
    ensures ListsOf(e, StepIfRehashing(e, s), k) == Stepped(ListsOf(e, s, k), s.idx, |s.table|, Bucket(e, k, |s.table|))
  {
    StepKeepsShape(e, s);
    if s.idx >= 0 {
      MigrateLists(e, s, REHASHING_BUCKETS, k);
    }
  }

  /** The new table of a migration that begins is empty. */
  lemma GrowLists<K, V>(e: Env<K, V>, s: State<K, V>, k: K)
    requires Shape(s)
    ensures Shape(GrowIfLoaded(s)) && ListsOf(e, GrowIfLoaded(s), k) == ListsOf(e, s, k)
    ensures AtHome(e, s) ==> AtHome(e, GrowIfLoaded(s))
  {
  }

  // ---------------------------------------------------------------- the calls

  /** A migration is under way, and this call's step does not end it. */
  predicate GoesOn<K, V>(s: State<K, V>) { 0 <= s.idx && s.idx + 10 < |s.table| }

  /** What a call does to the lists of k; s is the state before it. */
  function KeyStep<K(==), V>(e: Env<K, V>, s: State<K, V>, ls: Lists<V>, k: K, op: Op<K, V>): Lists<V>
    requires Shape(s)
  {
    var t := Stepped(ls, s.idx, |s.table|, Bucket(e, k, |s.table|));
    match op
    case DeleteOp(q) =>
      if q != k then ls else Lists(Tail(ls.inOld), Tail(ls.inNew))
    case SetValOp(q, v) =>
      if q != k then ls
      else if ls.inNew != [] then ls.(inNew := Headed(ls.inNew, v))
      else if ls.inOld != [] then ls.(inOld := Headed(ls.inOld, v))
      else ls
    case SetOp(q, v) =>
      if q != k then t
      else if GoesOn(s) then t.(inNew := Headed(t.inNew, v))
      else t.(inOld := Headed(t.inOld, v))
    case AddOp(q, v, zero) =>
      if q != k then t
      else if !GoesOn(s) then t.(inOld := Headed(t.inOld, v))
      else if ReturnsNew(e, s, k) then t.(inNew := Headed(t.inNew, v))
      else if t.inOld == [] then Lists([v], [v])
      else Lists(Headed(t.inOld, v), [zero])
  }

  lemma StoreLists<K, V>(e: Env<K, V>, s: State<K, V>, k: K, v: V, q: K)
    requires Shape(s)
    ensures AtHome(e, s) ==> AtHome(e, Store(e, s, k, v))
    ensures var r, ls := ListsOf(e, Store(e, s, k, v), q), ListsOf(e, s, q);
      r == if q != k then ls else if s.idx >= 0 then ls.(inNew := Headed(ls.inNew, v)) else ls.(inOld := Headed(ls.inOld, v))
  {
    var t := if s.idx >= 0 then s.rtable else s.table;
    PutAtHeld(e, t, k, v, q);
    if AtHome(e, s) {
      PutAtHomes(e, t, k, v);
    }
    assert if s.idx >= 0 then Store(e, s, k, v).rtable == PutAt(e, t, k, v) else Store(e, s, k, v).table == PutAt(e, t, k, v);
  }

  lemma SetLists<K, V>(e: Env<K, V>, s: State<K, V>, k: K, v: V, q: K)
    requires AtHome(e, s)
    ensures AtHome(e, Set(e, s, k, v)) && ListsOf(e, Set(e, s, k, v), q) == KeyStep(e, s, ListsOf(e, s, q), q, SetOp(k, v))
  {
    var t := StepIfRehashing(e, s);
    StepKeepsShape(e, s);
    StepLists(e, s, q);
    StoreLists(e, t, k, v, q);
    GrowLists(e, Store(e, t, k, v), q);
  }

  lemma DeleteLists<K, V>(e: Env<K, V>, s: State<K, V>, k: K, q: K)
    requires AtHome(e, s)
    ensures AtHome(e, Delete(e, s, k).0)
    ensures ListsOf(e, Delete(e, s, k).0, q) == KeyStep(e, s, ListsOf(e, s, q), q, DeleteOp(k))
  {
    assert Delete(e, s, k).0.table == RemoveAt(e, s.table, k);
    RemoveAtHeld(e, s.table, k, q);
    RemoveAtHomes(e, s.table, k);
    if s.idx >= 0 {
      assert Delete(e, s, k).0.rtable == RemoveAt(e, s.rtable, k);
      RemoveAtHeld(e, s.rtable, k, q);
      RemoveAtHomes(e, s.rtable, k);
    }
  }

  lemma FoundIffHeld<K, V>(e: Env<K, V>, t: seq<Chain<K, V>>, k: K)
    requires t != []
    ensures FindAt(e, t, k) == First(Held(e, t, k))
  {
    FindIsFirst(t[Bucket(e, k, |t|)], k);
  }

  lemma SetFoundLists<K, V>(e: Env<K, V>, s: State<K, V>, k: K, v: V, q: K)
    requires AtHome(e, s)
    ensures AtHome(e, SetFound(e, s, k, v))
    ensures ListsOf(e, SetFound(e, s, k, v), q) == KeyStep(e, s, ListsOf(e, s, q), q, SetValOp(k, v))
  {
    FoundIffHeld(e, s.table, k);
    PutAtHeld(e, s.table, k, v, q);
    PutAtHomes(e, s.table, k, v);
    if s.idx >= 0 {
      FoundIffHeld(e, s.rtable, k);
      PutAtHeld(e, s.rtable, k, v, q);
      PutAtHomes(e, s.rtable, k, v);
    }
  }

  /** AddRaw on the lists of k: a zero value where a walk that is made does not find the key. The walk of the new
      bucket is made if it is in use, that of the old one otherwise. */
  function RawStep<K(==), V>(e: Env<K, V>, s: State<K, V>, ls: Lists<V>, k: K, q: K, zero: V): Lists<V>
    requires Shape(s)
  {
    var t := Stepped(ls, s.idx, |s.table|, Bucket(e, k, |s.table|));
    var orZero := (vs: seq<V>) => if vs == [] then [zero] else vs;
    if q != k then t
    else if !GoesOn(s) then t.(inOld := orZero(t.inOld))
    else if t.inNew != [] || ReturnsNew(e, s, k) then t.(inNew := orZero(t.inNew))
    else Lists(orZero(t.inOld), [zero])
  }

  lemma AddToLists<K, V>(e: Env<K, V>, t: State<K, V>, k: K, zero: V, q: K)
    requires Shape(t)
    ensures AtHome(e, t) ==> AtHome(e, AddTo(e, t, k, zero))
    ensures var r, ls := ListsOf(e, AddTo(e, t, k, zero), q), ListsOf(e, t, q);
      if q != k then r == ls
      else if t.idx < 0 then r == if ls.inOld == [] then ls.(inOld := [zero]) else ls
      else
        && r.inNew == (if ls.inNew == [] then [zero] else ls.inNew)
        && r.inOld == if ls.inOld == [] && t.rtable[Bucket(e, k, |t.rtable|)] == [] then [zero] else ls.inOld
  {
    FoundIffHeld(e, t.table, k);
    PutAtHeld(e, t.table, k, zero, q);
    StoreLists(e, t, k, zero, q);
    if t.idx >= 0 {
      FoundIffHeld(e, t.rtable, k);
      PutAtHeld(e, t.rtable, k, zero, q);
    }
    if AtHome(e, t) {
      PutAtHomes(e, t.table, k, zero);
      if t.idx >= 0 {
        PutAtHomes(e, t.rtable, k, zero);
      }
    }
  }

  lemma AddRawLists<K, V>(e: Env<K, V>, s: State<K, V>, k: K, zero: V, q: K)
    requires AtHome(e, s)
    ensures AtHome(e, AddRaw(e, s, k, zero))
    ensures ListsOf(e, AddRaw(e, s, k, zero), q) == RawStep(e, s, ListsOf(e, s, q), q, k, zero)
  {
    var t := StepIfRehashing(e, s);
    StepKeepsShape(e, s);
    StepLists(e, s, q);
    AddToLists(e, t, k, zero, q);
    GrowLists(e, AddTo(e, t, k, zero), q);
  }

  lemma AddLists<K, V>(e: Env<K, V>, s: State<K, V>, k: K, v: V, zero: V, q: K)
    requires AtHome(e, s)
    ensures AtHome(e, Add(e, s, k, v, zero))
    ensures ListsOf(e, Add(e, s, k, v, zero), q) == KeyStep(e, s, ListsOf(e, s, q), q, AddOp(k, v, zero))
  {
    AddRawLists(e, s, k, zero, q);
    TwiceIff(e, s, k);
    SetLaid(e, AddRaw(e, s, k, zero), k, v, q);
  }

  /** SetVal on an entry of the old table, the new one, or both. */
  lemma SetLaid<K, V>(e: Env<K, V>, u: State<K, V>, k: K, v: V, q: K)
    requires AtHome(e, u)
    ensures AtHome(e, SetOld(e, u, k, v)) && (u.rtable != [] ==> AtHome(e, SetNew(e, u, k, v)) && AtHome(e, SetBoth(e, u, k, v)))
    ensures var ls := ListsOf(e, u, q);
      && ListsOf(e, SetOld(e, u, k, v), q) == (if q == k then ls.(inOld := Headed(ls.inOld, v)) else ls)
      && (u.idx >= 0 ==>
            && ListsOf(e, SetNew(e, u, k, v), q) == (if q == k then ls.(inNew := Headed(ls.inNew, v)) else ls)
            && ListsOf(e, SetBoth(e, u, k, v), q) == if q == k then Lists(Headed(ls.inOld, v), Headed(ls.inNew, v)) else ls)
  {
    PutAtHeld(e, u.table, k, v, q);
    PutAtHomes(e, u.table, k, v);
    if u.rtable != [] {
      PutAtHeld(e, u.rtable, k, v, q);
      PutAtHomes(e, u.rtable, k, v);
    }
  }

  /** Whether AddRaw links twice, by the lists. */
  lemma TwiceIff<K, V>(e: Env<K, V>, s: State<K, V>, k: K)
    requires AtHome(e, s)
    ensures var ls := Stepped(ListsOf(e, s, k), s.idx, |s.table|, Bucket(e, k, |s.table|));
      && (LinksTwice(e, s, k) <==> GoesOn(s) && !ReturnsNew(e, s, k) && ls.inOld == [])
      && (GoesOn(s) && ls.inNew != [] ==> ReturnsNew(e, s, k))
      && (ReturnsNew(e, s, k) ==> GoesOn(s))
  {
    var t := StepIfRehashing(e, s);
    StepKeepsShape(e, s);
    StepLists(e, s, k);
    FoundIffHeld(e, t.table, k);
  }

  lemma StepOnLists<K, V>(e: Env<K, V>, s: State<K, V>, op: Op<K, V>, k: K)
    requires AtHome(e, s)
    ensures AtHome(e, Step(e, s, op)) && ListsOf(e, Step(e, s, op), k) == KeyStep(e, s, ListsOf(e, s, k), k, op)
  {
    match op
    case SetOp(q, v) => SetLists(e, s, q, v, k);
    case AddOp(q, v, zero) => AddLists(e, s, q, v, zero, k);
    case SetValOp(q, v) => SetFoundLists(e, s, q, v, k);
    case DeleteOp(q) => DeleteLists(e, s, q, k);
  }

  // ---------------------------------------------------------------- whole runs

  function KeyRun<K(==), V>(e: Env<K, V>, s: State<K, V>, ls: Lists<V>, k: K, ops: seq<Op<K, V>>): Lists<V>
    requires Shape(s)
    decreases |ops|
  {
    if ops == [] then ls else KeyRun(e, Step(e, s, ops[0]), KeyStep(e, s, ls, k, ops[0]), k, ops[1..])
  }

  /** Over any run, stale calls and calls of the same key after them included, the entries of every key
      are those that the calls leave one by one, and a lookup answers with the first of them. */
  lemma {:induction false} RunLists<K, V>(e: Env<K, V>, s: State<K, V>, ops: seq<Op<K, V>>, k: K)
    requires AtHome(e, s)
    ensures AtHome(e, Run(e, s, ops)) && ListsOf(e, Run(e, s, ops), k) == KeyRun(e, s, ListsOf(e, s, k), k, ops)
    ensures var ls := KeyRun(e, s, ListsOf(e, s, k), k, ops); Lookup(e, Run(e, s, ops), k) == First(ls.inNew + ls.inOld)
    decreases |ops|
  {
    if ops == [] {
      LookupIsFirst(e, s, k);
    } else {
      StepOnLists(e, s, ops[0], k);
      RunLists(e, Step(e, s, ops[0]), ops[1..], k);
    }
  }

  // ---------------------------------------------------------------- the counters, on any table

  /** How many entries are counted, and how much memory is charged. */
  datatype Charge = Charge(entries: int, memory: int)

  function Plus(c: Charge, d: Charge): Charge { Charge(c.entries + d.entries, c.memory + d.memory) }

  function Paid<K, V>(s: State<K, V>, r: State<K, V>): Charge { Charge(r.count - s.count, r.mem - s.mem) }

  function Mem<K, V>(e: Env<K, V>, k: K, vs: seq<V>): int { if vs == [] then 0 else e.keyMem(k) + e.valMem(vs[0]) }

  function SetCharge<V>(t: Lists<V>, on: bool, w: int): Charge {
    if on then (if t.inNew == [] then Charge(1, w) else Charge(0, 0)) else Charge(if t.inOld == [] then 1 else 0, w)
  }

  function AddCharge<V>(t: Lists<V>, on: bool, inUse: bool, w: int): Charge {
    if !on then (if t.inOld == [] then Charge(1, w) else Charge(0, 0))
    else if t.inNew != [] then Charge(0, 0)
    else if inUse || t.inOld != [] then Charge(1, w)
    else Charge(2, w + w)
  }

  /** By the lists of its own key, as they are after its step. */
  function Charges<K(==), V>(e: Env<K, V>, s: State<K, V>, op: Op<K, V>): Charge
    requires Shape(s)
  {
    var k, ls := op.key, ListsOf(e, s, op.key);
    var t := Stepped(ls, s.idx, |s.table|, Bucket(e, k, |s.table|));
    match op
    case DeleteOp(_) => Charge(0, -Mem(e, k, ls.inOld) - Mem(e, k, ls.inNew))
    case SetValOp(_, v) => Charge(0, if ls.inNew == [] == ls.inOld then 0 else e.valMem(v))
    case SetOp(_, v) => SetCharge(t, GoesOn(s), e.keyMem(k) + e.valMem(v))
    case AddOp(_, v, _) => Plus(AddCharge(t, GoesOn(s), ReturnsNew(e, s, k), e.keyMem(k)), Charge(0, e.valMem(v)))
  }

  lemma PaidPlus<K, V>(s: State<K, V>, t: State<K, V>, r: State<K, V>)
    ensures Paid(s, r) == Plus(Paid(s, t), Paid(t, r))
  {
  }

  /** Neither the step before nor the check after charges anything. */
  lemma PaidByOne<K, V>(s: State<K, V>, t: State<K, V>, u: State<K, V>, c: Charge)
    requires Paid(s, t) == Charge(0, 0) && Paid(t, u) == c
    ensures Paid(s, GrowIfLoaded(u)) == c
  {
  }

  lemma StoreCharges<K, V>(e: Env<K, V>, t: State<K, V>, k: K, v: V)
    requires Shape(t)
    ensures Paid(t, Store(e, t, k, v)) == SetCharge(ListsOf(e, t, k), t.idx >= 0, e.keyMem(k) + e.valMem(v))
  {
    FoundIffHeld(e, if t.idx >= 0 then t.rtable else t.table, k);
  }

  lemma AddToCharges<K, V>(e: Env<K, V>, t: State<K, V>, k: K, zero: V)
    requires Shape(t)
    ensures Paid(t, AddTo(e, t, k, zero)) ==
            AddCharge(ListsOf(e, t, k), t.idx >= 0, t.idx >= 0 && t.rtable[Bucket(e, k, |t.rtable|)] != [], e.keyMem(k))
  {
    FoundIffHeld(e, t.table, k);
    if t.idx >= 0 {
      FoundIffHeld(e, t.rtable, k);
    }
  }

  lemma StepPaysNothing<K, V>(e: Env<K, V>, s: State<K, V>, k: K)
    requires AtHome(e, s)
    ensures var t := StepIfRehashing(e, s);
      && AtHome(e, t) && Paid(s, t) == Charge(0, 0) && (t.idx >= 0 <==> GoesOn(s))
      && ListsOf(e, t, k) == Stepped(ListsOf(e, s, k), s.idx, |s.table|, Bucket(e, k, |s.table|))
  {
    StepKeepsShape(e, s);
    StepLists(e, s, k);
  }

  lemma StoredCharges<K, V>(e: Env<K, V>, s: State<K, V>, t: State<K, V>, k: K, v: V)
    requires Shape(t) && Paid(s, t) == Charge(0, 0)
    ensures Paid(s, GrowIfLoaded(Store(e, t, k, v))) == SetCharge(ListsOf(e, t, k), t.idx >= 0, e.keyMem(k) + e.valMem(v))
  {
    var u := Store(e, t, k, v);
    StoreCharges(e, t, k, v);
    PaidByOne(s, t, u, SetCharge(ListsOf(e, t, k), t.idx >= 0, e.keyMem(k) + e.valMem(v)));
  }

  lemma SetCharges<K, V>(e: Env<K, V>, s: State<K, V>, k: K, v: V)
    requires AtHome(e, s)
    ensures Shape(Set(e, s, k, v)) && Paid(s, Set(e, s, k, v)) == Charges(e, s, SetOp(k, v))
  {
    SetKeepsShape(e, s, k, v);
    StepPaysNothing(e, s, k);
    StoredCharges(e, s, StepIfRehashing(e, s), k, v);
  }

  lemma AddedCharges<K, V>(e: Env<K, V>, s: State<K, V>, t: State<K, V>, k: K, zero: V)
    requires Shape(t) && Paid(s, t) == Charge(0, 0)
    ensures Paid(s, GrowIfLoaded(AddTo(e, t, k, zero))) ==
            AddCharge(ListsOf(e, t, k), t.idx >= 0, t.idx >= 0 && t.rtable[Bucket(e, k, |t.rtable|)] != [], e.keyMem(k))
  {
    var u := AddTo(e, t, k, zero);
    AddToCharges(e, t, k, zero);
    PaidByOne(s, t, u, AddCharge(ListsOf(e, t, k), t.idx >= 0, t.idx >= 0 && t.rtable[Bucket(e, k, |t.rtable|)] != [], e.keyMem(k)));
  }

  lemma AddRawCharges<K, V>(e: Env<K, V>, s: State<K, V>, k: K, zero: V)
    requires AtHome(e, s)
    ensures Paid(s, AddRaw(e, s, k, zero)) ==
            AddCharge(Stepped(ListsOf(e, s, k), s.idx, |s.table|, Bucket(e, k, |s.table|)), GoesOn(s), ReturnsNew(e, s, k), e.keyMem(k))
  {
    StepPaysNothing(e, s, k);
    AddedCharges(e, s, StepIfRehashing(e, s), k, zero);
  }

  lemma SetValCharges<K, V>(e: Env<K, V>, s: State<K, V>, k: K, v: V, zero: V)
    requires Shape(s)
    ensures Paid(AddRaw(e, s, k, zero), Add(e, s, k, v, zero)) == Charge(0, e.valMem(v))
  {
  }

  lemma AddCharges<K, V>(e: Env<K, V>, s: State<K, V>, k: K, v: V, zero: V)
    requires AtHome(e, s)
    ensures Paid(s, Add(e, s, k, v, zero)) == Charges(e, s, AddOp(k, v, zero))
  {
    AddRawCharges(e, s, k, zero);
    SetValCharges(e, s, k, v, zero);
    PaidPlus(s, AddRaw(e, s, k, zero), Add(e, s, k, v, zero));
  }

  lemma DeleteCharges<K, V>(e: Env<K, V>, s: State<K, V>, k: K)
    requires AtHome(e, s)
    ensures Paid(s, Delete(e, s, k).0) == Charges(e, s, DeleteOp(k))
  {
    FoundIffHeld(e, s.table, k);
    if s.idx >= 0 {
      FoundIffHeld(e, s.rtable, k);
    }
  }

  lemma SetFoundCharges<K, V>(e: Env<K, V>, s: State<K, V>, k: K, v: V)
    requires AtHome(e, s)
    ensures Paid(s, SetFound(e, s, k, v)) == Charges(e, s, SetValOp(k, v))
  {
    FoundIffHeld(e, s.table, k);
    if s.idx >= 0 {
      FoundIffHeld(e, s.rtable, k);
    }
  }

  lemma StepCharges<K, V>(e: Env<K, V>, s: State<K, V>, op: Op<K, V>)
    requires AtHome(e, s)
    ensures Paid(s, Step(e, s, op)) == Charges(e, s, op)
  {
    match op
    case SetOp(k, v) => SetCharges(e, s, k, v);
    case AddOp(k, v, zero) => AddCharges(e, s, k, v, zero);
    case SetValOp(k, v) => SetFoundCharges(e, s, k, v);
    case DeleteOp(k) => DeleteCharges(e, s, k);
  }

  function Charged<K(==), V>(e: Env<K, V>, s: State<K, V>, ops: seq<Op<K, V>>): Charge
    requires Shape(s)
    decreases |ops|
  {
    if ops == [] then Charge(0, 0) else Plus(Charges(e, s, ops[0]), Charged(e, Step(e, s, ops[0]), ops[1..]))
  }

  /** So over any run both counters move by the sum of such charges, one for each call. */
  lemma {:induction false} RunCharges<K, V>(e: Env<K, V>, s: State<K, V>, ops: seq<Op<K, V>>)
    requires AtHome(e, s)
    ensures Paid(s, Run(e, s, ops)) == Charged(e, s, ops)
    decreases |ops|
  {
    if ops != [] {
      var s1 := Step(e, s, ops[0]);
      StepCharges(e, s, ops[0]);
      StepOnLists(e, s, ops[0], ops[0].key);
      RunCharges(e, s1, ops[1..]);
      PaidPlus(s, s1, Run(e, s, ops));
    }
  }

  // ---------------------------------------------------------------- what follows for lookups

  /** The value of the entry that AddRaw returns: the first of the list it looks in, or zero. */
  lemma ReturnedIsFirst<K, V>(e: Env<K, V>, s: State<K, V>, k: K, zero: V)
    requires AtHome(e, s)
    ensures var ls := Stepped(ListsOf(e, s, k), s.idx, |s.table|, Bucket(e, k, |s.table|));
      var looked := if ReturnsNew(e, s, k) then ls.inNew else ls.inOld;
      Returned(e, s, k, zero) == if looked == [] then zero else looked[0]
  {
    AddRawLists(e, s, k, zero, k);
    AddRawIdx(e, s, k, zero);
    TwiceIff(e, s, k);
    FoundIffHeld(e, AddRaw(e, s, k, zero).table, k);
    if ReturnsNew(e, s, k) {
      FoundIffHeld(e, AddRaw(e, s, k, zero).rtable, k);
    }
  }

  lemma AddRawIdx<K, V>(e: Env<K, V>, s: State<K, V>, k: K, zero: V)
    requires Shape(s)
    ensures ReturnsNew(e, s, k) ==> AddRaw(e, s, k, zero).idx >= 0
  {
    StepKeepsShape(e, s);
  }

  /** On any table at all a Set answers for its key at once, and for other keys as its migration step does. */
  lemma SetAnswers<K, V>(e: Env<K, V>, s: State<K, V>, k: K, v: V, q: K)
    requires Shape(s)
    ensures Shape(Set(e, s, k, v)) && Shape(StepIfRehashing(e, s))
    ensures Lookup(e, Set(e, s, k, v), q) == if q == k then Some(v) else Lookup(e, StepIfRehashing(e, s), q)
  {
    var t := StepIfRehashing(e, s);
    StepKeepsShape(e, s);
    SetKeepsShape(e, s, k, v);
    StoreLists(e, t, k, v, q);
    GrowLists(e, Store(e, t, k, v), q);
    LookupIsFirst(e, t, q);
    LookupIsFirst(e, Set(e, s, k, v), q);
  }

  /** So does a SetVal, without a step, if there is something to set. */
  lemma SetFoundAnswers<K, V>(e: Env<K, V>, s: State<K, V>, k: K, v: V, q: K)
    requires Shape(s)
    ensures Lookup(e, SetFound(e, s, k, v), q) == if q == k && Lookup(e, s, k).Some? then Some(v) else Lookup(e, s, q)
  {
    PutSpec(s.table[Bucket(e, k, |s.table|)], k, v, q);
    if s.idx >= 0 {
      PutSpec(s.rtable[Bucket(e, k, |s.rtable|)], k, v, q);
    }
  }

  /** AddRaw shows the zero value where the step leaves nothing to be found, and where it makes an entry in the
      new table before one in the old. */
  lemma AddRawAnswers<K, V>(e: Env<K, V>, s: State<K, V>, k: K, zero: V, q: K)
    requires Shape(s)
    ensures Shape(StepIfRehashing(e, s))
    ensures var t := StepIfRehashing(e, s);
      Lookup(e, AddRaw(e, s, k, zero), q) ==
      if q == k && (if t.idx >= 0 then FindAt(e, t.rtable, k) else FindAt(e, t.table, k)) == None then Some(zero)
      else Lookup(e, t, q)
  {
    var t := StepIfRehashing(e, s);
    StepKeepsShape(e, s);
    AddToLists(e, t, k, zero, q);
    GrowLists(e, AddTo(e, t, k, zero), q);
    LookupIsFirst(e, t, q);
    LookupIsFirst(e, AddRaw(e, s, k, zero), q);
    FoundIffHeld(e, t.table, k);
    if t.idx >= 0 {
      FoundIffHeld(e, t.rtable, k);
    }
  }

  /** The value of the last Set of k. */
  function LastSet<K(==), V>(ops: seq<Op<K, V>>, k: K): Option<V> {
    if ops == [] then None
    else if LastSet(ops[1..], k).Some? then LastSet(ops[1..], k)
    else if ops[0].SetOp? && ops[0].key == k then Some(ops[0].val)
    else None
  }

  /** However often a key is set again after a stale Set: as long as the migration does not come to its old
      bucket, it is the last one that answers. */
  lemma {:induction false} LastSetAnswers<K, V>(e: Env<K, V>, s: State<K, V>, ops: seq<Op<K, V>>, k: K)
    requires AtHome(e, s) && 0 <= s.idx && s.idx + 10 * |ops| <= Bucket(e, k, |s.table|)
    requires forall i :: 0 <= i < |ops| ==> ops[i].SetOp?
    ensures Lookup(e, Run(e, s, ops), k) == if LastSet(ops, k).Some? then LastSet(ops, k) else Lookup(e, s, k)
    decreases |ops|
  {
    if ops != [] {
      var s1 := Step(e, s, ops[0]);
      SetLists(e, s, ops[0].key, ops[0].val, k);
      SetAnswers(e, s, ops[0].key, ops[0].val, k);
      StepKeepsShape(e, s);
      StepLists(e, s, k);
      LookupIsFirst(e, s, k);
      LookupIsFirst(e, StepIfRehashing(e, s), k);
      LastSetAnswers(e, s1, ops[1..], k);
    }
  }

  /** A new table is at home, and so is a good one. */
  lemma GoodIsAtHome<K(!new), V>(e: Env<K, V>, s: State<K, V>)
    requires Good(e, s)
    ensures AtHome(e, s)
  {
  }
}
