/** The incrementally rehashed hash table of db/dict.go, as a state that the operations transform.

    A bucket is the sequence of (key, value) pairs read along its `Next` links. `DictHeap` ties the
    pointer-level methods to these functions; this module proves what the functions guarantee. */
module Dict {
  import opened Util

  type Chain<K, V> = seq<(K, V)>

  /** What the table uses of a key or a value: FNV-1a and `estimateMemoryUsage` are left abstract. */
  datatype Env<!K, !V> = Env(hash: K -> nat, keyMem: K -> int, valMem: V -> int)

  /** RehashingIdx is -1 when no migration is running; Size and RehashingSize are the table lengths. */
  datatype State<K, V> = State(table: seq<Chain<K, V>>, idx: int, rtable: seq<Chain<K, V>>, count: int, mem: int)

  const REHASHING_BUCKETS := 10

  // ---------------------------------------------------------------- one chain

  function Find<K(==), V>(c: Chain<K, V>, k: K): (r: Option<V>)
    ensures r.Some? ==> c != []
  {
    if c == [] then None else if c[0].0 == k then Some(c[0].1) else Find(c[1..], k)
  }

  /** Overwrite the first entry for k, or link a new one at the tail. */
  function Put<K(==), V>(c: Chain<K, V>, k: K, v: V): Chain<K, V> {
    if c == [] then [(k, v)] else if c[0].0 == k then [(k, v)] + c[1..] else [c[0]] + Put(c[1..], k, v)
  }

  /** Unlink the first entry for k. */
  function Remove<K(==), V>(c: Chain<K, V>, k: K): Chain<K, V> {
    if c == [] then [] else if c[0].0 == k then c[1..] else [c[0]] + Remove(c[1..], k)
  }

  predicate Uniq<K(==), V>(c: Chain<K, V>) {
    c == [] || (Find(c[1..], c[0].0) == None && Uniq(c[1..]))
  }

  function Sum<K, V>(f: ((K, V)) -> int, c: Chain<K, V>): int {
    if c == [] then 0 else f(c[0]) + Sum(f, c[1..])
  }

  lemma {:induction false} PutSpec<K, V>(c: Chain<K, V>, k: K, v: V, q: K)
    ensures Find(Put(c, k, v), q) == if q == k then Some(v) else Find(c, q)
    ensures Uniq(c) ==> Uniq(Put(c, k, v))
  {
    if c != [] && c[0].0 != k {
      PutSpec(c[1..], k, v, q);
      PutSpec(c[1..], k, v, c[0].0);
    }
  }

  lemma {:induction false} RemoveSpec<K, V>(c: Chain<K, V>, k: K, q: K)
    requires Uniq(c)
    ensures Find(Remove(c, k), q) == if q == k then None else Find(c, q)
    ensures Uniq(Remove(c, k))
  {
    if c != [] && c[0].0 != k {
      RemoveSpec(c[1..], k, q);
      RemoveSpec(c[1..], k, c[0].0);
    }
  }

  lemma {:induction false} PutSum<K, V>(f: ((K, V)) -> int, c: Chain<K, V>, k: K, v: V)
    ensures Sum(f, Put(c, k, v)) == Sum(f, c) + f((k, v)) - match Find(c, k) case None => 0 case Some(o) => f((k, o))
  {
    if c != [] && c[0].0 != k {
      PutSum(f, c[1..], k, v);
    }
  }

  lemma {:induction false} RemoveSum<K, V>(f: ((K, V)) -> int, c: Chain<K, V>, k: K)
    ensures Sum(f, Remove(c, k)) == Sum(f, c) - match Find(c, k) case None => 0 case Some(o) => f((k, o))
  {
    if c != [] && c[0].0 != k {
      RemoveSum(f, c[1..], k);
    }
  }

  // ---------------------------------------------------------------- one table

  function Bucket<K, V>(e: Env<K, V>, k: K, n: nat): (b: nat)
    requires n > 0
    ensures b < n
  {
    e.hash(k) % n
  }

  function FindAt<K(==), V>(e: Env<K, V>, t: seq<Chain<K, V>>, k: K): Option<V>
    requires t != []
  {
    Find(t[Bucket(e, k, |t|)], k)
  }

  ghost predicate InBucket<K, V>(e: Env<K, V>, c: Chain<K, V>, n: nat, i: nat) {
    n > 0 && forall j :: 0 <= j < |c| ==> Bucket(e, c[j].0, n) == i
  }

  ghost predicate Placed<K, V>(e: Env<K, V>, t: seq<Chain<K, V>>) {
    forall i :: 0 <= i < |t| ==> InBucket(e, t[i], |t|, i) && Uniq(t[i])
  }

  function Total<K, V>(f: ((K, V)) -> int, t: seq<Chain<K, V>>): int {
    if t == [] then 0 else Sum(f, t[0]) + Total(f, t[1..])
  }

  lemma {:induction false} TotalUpdate<K, V>(f: ((K, V)) -> int, t: seq<Chain<K, V>>, i: nat, c: Chain<K, V>)
    requires i < |t|
    ensures Total(f, t[i := c]) == Total(f, t) - Sum(f, t[i]) + Sum(f, c)
  {
    if i == 0 {
      assert t[i := c][1..] == t[1..];
    } else {
      assert t[i := c][1..] == t[1..][i - 1 := c];
      TotalUpdate(f, t[1..], i - 1, c);
    }
  }

  lemma {:induction false} TotalEmpty<K, V>(f: ((K, V)) -> int, t: seq<Chain<K, V>>)
    requires forall i :: 0 <= i < |t| ==> t[i] == []
    ensures Total(f, t) == 0
  {
    if t != [] {
      TotalEmpty(f, t[1..]);
    }
  }

  /** A key found in a chain sits in that chain's bucket. */
  lemma {:induction false} FoundInBucket<K, V>(e: Env<K, V>, c: Chain<K, V>, n: nat, i: nat, k: K)
    requires InBucket(e, c, n, i)
    requires Find(c, k).Some?
    ensures Bucket(e, k, n) == i
  {
    if c[0].0 != k {
      FoundInBucket(e, c[1..], n, i, k);
    }
  }

  lemma {:induction false} PutStaysInBucket<K, V>(e: Env<K, V>, c: Chain<K, V>, n: nat, i: nat, k: K, v: V)
    requires InBucket(e, c, n, i) && Bucket(e, k, n) == i
    ensures InBucket(e, Put(c, k, v), n, i)
  {
    if c != [] && c[0].0 != k {
      PutStaysInBucket(e, c[1..], n, i, k, v);
      assert InBucket(e, [c[0]], n, i);
    }
  }

  lemma {:induction false} RemoveStaysInBucket<K, V>(e: Env<K, V>, c: Chain<K, V>, n: nat, i: nat, k: K)
    requires InBucket(e, c, n, i)
    ensures InBucket(e, Remove(c, k), n, i)
  {
    if c != [] && c[0].0 != k {
      RemoveStaysInBucket(e, c[1..], n, i, k);
      assert InBucket(e, [c[0]], n, i);
    }
  }

  // ---------------------------------------------------------------- the operations

  /** The inner loop of rehashStep: each entry in turn becomes the head of its new bucket. */
  function MoveChain<K, V>(e: Env<K, V>, c: Chain<K, V>, rt: seq<Chain<K, V>>): (r: seq<Chain<K, V>>)
    requires rt != []
    ensures |r| == |rt|
  {
    if c == [] then rt
    else
      var i := Bucket(e, c[0].0, |rt|);
      MoveChain(e, c[1..], rt[i := [c[0]] + rt[i]])
  }

  /** Sizes and indices that every operation keeps, whatever the chains hold. */
  ghost predicate Shape<K, V>(s: State<K, V>) {
    && 0 < |s.table|
    && (s.idx == -1 ==> s.rtable == [])
    && (s.idx != -1 ==> 0 <= s.idx < |s.table| && s.idx % REHASHING_BUCKETS == 0 && |s.rtable| == 2 * |s.table|)
  }

  function MigrateBucket<K, V>(e: Env<K, V>, s: State<K, V>): State<K, V>
    requires 0 <= s.idx < |s.table| && s.rtable != []
  {
    s.(table := s.table[s.idx := []], rtable := MoveChain(e, s.table[s.idx], s.rtable), idx := s.idx + 1)
  }

  function Migrate<K, V>(e: Env<K, V>, s: State<K, V>, n: nat): (r: State<K, V>)
    requires 0 <= s.idx && s.rtable != []
    ensures |r.table| == |s.table| && |r.rtable| == |s.rtable| && r.count == s.count && r.mem == s.mem
    ensures s.idx <= |s.table| ==> r.idx == if s.idx + n <= |s.table| then s.idx + n else |s.table|
    decreases n
  {
    if n == 0 || s.idx >= |s.table| then s else Migrate(e, MigrateBucket(e, s), n - 1)
  }

  /** The swap at the end of rehashStep, once every bucket has moved. */
  function Finish<K, V>(m: State<K, V>): State<K, V> {
    if m.idx == |m.table| then m.(table := m.rtable, rtable := [], idx := -1) else m
  }

  /** rehashStep: up to ten buckets, then the swap. */
  function RehashStep<K, V>(e: Env<K, V>, s: State<K, V>): State<K, V>
    requires 0 <= s.idx && s.rtable != []
  {
    Finish(Migrate(e, s, REHASHING_BUCKETS))
  }

  function StepIfRehashing<K, V>(e: Env<K, V>, s: State<K, V>): State<K, V>
    requires Shape(s)
  {
    if s.idx >= 0 then RehashStep(e, s) else s
  }

  function StartRehashing<K, V>(s: State<K, V>): State<K, V> {
    if s.idx < 0 then s.(rtable := seq(2 * |s.table|, _ => []), idx := 0) else s
  }

  /** The deferred check of Set: the float comparison Count/Size > 0.7 is 10*Count > 7*Size. */
  function GrowIfLoaded<K, V>(s: State<K, V>): State<K, V> {
    if 10 * s.count > 7 * |s.table| then StartRehashing(s) else s
  }

  /** Set before its deferred check. While a migration is running only the new table is searched; an
      overwrite there leaves the memory counter alone, an overwrite in the idle table counts again. */
  function Store<K(==), V>(e: Env<K, V>, s: State<K, V>, k: K, v: V): (r: State<K, V>)
    requires Shape(s)
    ensures Shape(r) && r.idx == s.idx
  {
    var w := e.keyMem(k) + e.valMem(v);
    if s.idx >= 0 then
      var b := Bucket(e, k, |s.rtable|);
      var t := s.rtable[b := Put(s.rtable[b], k, v)];
      if Find(s.rtable[b], k).Some? then s.(rtable := t) else s.(rtable := t, count := s.count + 1, mem := s.mem + w)
    else
      var b := Bucket(e, k, |s.table|);
      var t := s.table[b := Put(s.table[b], k, v)];
      if Find(s.table[b], k).Some? then s.(table := t, mem := s.mem + w)
      else s.(table := t, count := s.count + 1, mem := s.mem + w)
  }

  function Set<K(==), V>(e: Env<K, V>, s: State<K, V>, k: K, v: V): State<K, V>
    requires Shape(s)
  {
    StepKeepsShape(e, s);
    GrowIfLoaded(Store(e, StepIfRehashing(e, s), k, v))
  }

  function Released<K(==), V>(e: Env<K, V>, c: Chain<K, V>, k: K): int {
    match Find(c, k) case None => 0 case Some(v) => e.keyMem(k) + e.valMem(v)
  }

  /** Delete tries the old table and then, while rehashing, the new one. Count is never decremented. */
  function Delete<K(==), V>(e: Env<K, V>, s: State<K, V>, k: K): (r: (State<K, V>, bool))
    requires Shape(s)
    ensures Shape(r.0)
  {
    var b := Bucket(e, k, |s.table|);
    var t := s.table[b := Remove(s.table[b], k)];
    var m := s.mem - Released(e, s.table[b], k);
    if s.idx >= 0 then
      var rb := Bucket(e, k, |s.rtable|);
      (s.(table := t, rtable := s.rtable[rb := Remove(s.rtable[rb], k)], mem := m - Released(e, s.rtable[rb], k)),
       Find(s.table[b], k).Some? || Find(s.rtable[rb], k).Some?)
    else
      (s.(table := t, mem := m), Find(s.table[b], k).Some?)
  }

  /** GetEntry: the new table first, then the old one. */
  function Lookup<K(==), V>(e: Env<K, V>, s: State<K, V>, k: K): Option<V>
    requires Shape(s)
  {
    var fromOld := FindAt(e, s.table, k);
    if s.idx >= 0 then
      var fromNew := FindAt(e, s.rtable, k);
      if fromNew.Some? then fromNew else fromOld
    else fromOld
  }

  lemma StepKeepsShape<K, V>(e: Env<K, V>, s: State<K, V>)
    requires Shape(s)
    ensures Shape(StepIfRehashing(e, s))
    ensures s.idx >= 0 && s.idx + 10 < |s.table| ==>
      StepIfRehashing(e, s).idx == s.idx + 10 && |StepIfRehashing(e, s).table| == |s.table|
    ensures s.idx >= 0 && s.idx + 10 >= |s.table| ==>
      StepIfRehashing(e, s).idx == -1 && |StepIfRehashing(e, s).table| == 2 * |s.table|
    ensures StepIfRehashing(e, s).count == s.count && StepIfRehashing(e, s).mem == s.mem
  {
    if s.idx >= 0 {
      MigratedShape(e, s, REHASHING_BUCKETS);
    }
  }

  lemma MigratedShape<K, V>(e: Env<K, V>, s: State<K, V>, n: nat)
    requires Shape(s) && s.idx >= 0 && n == REHASHING_BUCKETS
    ensures Shape(Finish(Migrate(e, s, n)))
    ensures Finish(Migrate(e, s, n)).count == s.count && Finish(Migrate(e, s, n)).mem == s.mem
    ensures var f := Finish(Migrate(e, s, n));
      if s.idx + n < |s.table| then f.idx == s.idx + n && |f.table| == |s.table|
      else f.idx == -1 && |f.table| == 2 * |s.table|
  {
    var m := Migrate(e, s, n);
    assert (s.idx + 10) % 10 == 0;
  }

  // ---------------------------------------------------------------- AddRaw and SetVal

  function PutAt<K(==), V>(e: Env<K, V>, t: seq<Chain<K, V>>, k: K, v: V): (r: seq<Chain<K, V>>)
    requires t != []
    ensures |r| == |t|
  {
    var b := Bucket(e, k, |t|);
    t[b := Put(t[b], k, v)]
  }

  function RemoveAt<K(==), V>(e: Env<K, V>, t: seq<Chain<K, V>>, k: K): (r: seq<Chain<K, V>>)
    requires t != []
    ensures |r| == |t|
  {
    var b := Bucket(e, k, |t|);
    t[b := Remove(t[b], k)]
  }

  /** A new entry would go into both tables: the key's new bucket is empty, so it is linked there, and the
      search of the old table that follows does not find the key. */
  predicate Doubles<K(==), V>(e: Env<K, V>, t: State<K, V>, k: K)
    requires Shape(t)
  {
    t.idx >= 0 && t.rtable[Bucket(e, k, |t.rtable|)] == [] && FindAt(e, t.table, k) == None
  }

  predicate LinksTwice<K(==), V>(e: Env<K, V>, s: State<K, V>, k: K)
    requires Shape(s)
  {
    StepKeepsShape(e, s);
    Doubles(e, StepIfRehashing(e, s), k)
  }

  /** The step of the next call does not reach the key's old bucket. */
  predicate Unmigrated<K, V>(e: Env<K, V>, s: State<K, V>, k: K)
    requires Shape(s)
  {
    StepKeepsShape(e, s);
    var t := StepIfRehashing(e, s);
    t.idx <= Bucket(e, k, |t.table|)
  }

  /** AddRaw after its step: an absent key is stored with the zero value, and charged for itself alone. Only
      the new table is searched, unless the key's bucket there is empty. */
  function AddTo<K(==), V>(e: Env<K, V>, t: State<K, V>, k: K, zero: V): (r: State<K, V>)
    requires Shape(t)
    ensures Shape(r) && r.idx == t.idx
  {
    var target := if t.idx >= 0 then t.rtable else t.table;
    if Doubles(e, t, k) then
      t.(table := PutAt(e, t.table, k, zero), rtable := PutAt(e, t.rtable, k, zero),
         count := t.count + 2, mem := t.mem + 2 * e.keyMem(k))
    else if FindAt(e, target, k) == None then Store(e, t, k, zero).(mem := t.mem + e.keyMem(k))
    else t
  }

  function AddRaw<K(==), V>(e: Env<K, V>, s: State<K, V>, k: K, zero: V): (r: State<K, V>)
    requires Shape(s)
    ensures Shape(r)
  {
    StepKeepsShape(e, s);
    GrowIfLoaded(AddTo(e, StepIfRehashing(e, s), k, zero))
  }

  /** SetVal on the entry for k of the old table, or of the only one. */
  function SetOld<K(==), V>(e: Env<K, V>, s: State<K, V>, k: K, v: V): (r: State<K, V>)
    requires Shape(s)
    ensures Shape(r)
  {
    s.(table := PutAt(e, s.table, k, v), mem := s.mem + e.valMem(v))
  }

  /** The same on the new table. */
  function SetNew<K(==), V>(e: Env<K, V>, s: State<K, V>, k: K, v: V): (r: State<K, V>)
    requires Shape(s) && s.rtable != []
    ensures Shape(r)
  {
    s.(rtable := PutAt(e, s.rtable, k, v), mem := s.mem + e.valMem(v))
  }

  /** SetVal on an entry that both tables share. */
  function SetBoth<K(==), V>(e: Env<K, V>, s: State<K, V>, k: K, v: V): (r: State<K, V>)
    requires Shape(s) && s.rtable != []
    ensures Shape(r)
  {
    s.(table := PutAt(e, s.table, k, v), rtable := PutAt(e, s.rtable, k, v), mem := s.mem + e.valMem(v))
  }

  /** SetVal on the entry that GetEntry finds; without one it does nothing. */
  function SetFound<K(==), V>(e: Env<K, V>, s: State<K, V>, k: K, v: V): (r: State<K, V>)
    requires Shape(s)
    ensures Shape(r)
  {
    if s.idx >= 0 && FindAt(e, s.rtable, k).Some? then SetNew(e, s, k, v)
    else if FindAt(e, s.table, k).Some? then SetOld(e, s, k, v)
    else s
  }

  /** The entry AddRaw returns is the new table's: a migration is under way and the key's new bucket in use. */
  predicate ReturnsNew<K(==), V>(e: Env<K, V>, s: State<K, V>, k: K)
    requires Shape(s)
  {
    StepKeepsShape(e, s);
    var t := StepIfRehashing(e, s);
    t.idx >= 0 && t.rtable[Bucket(e, k, |t.rtable|)] != []
  }

  /** It is the old table's, although AddRaw has just linked one into the empty new bucket. */
  predicate ReturnsOld<K(==), V>(e: Env<K, V>, s: State<K, V>, k: K)
    requires Shape(s)
  {
    StepKeepsShape(e, s);
    var t := StepIfRehashing(e, s);
    t.idx >= 0 && t.rtable[Bucket(e, k, |t.rtable|)] == [] && FindAt(e, t.table, k).Some?
  }

  /** AddRaw's second result: the walk came past some entry, if only its own new one. */
  predicate Reported<K(==), V>(e: Env<K, V>, s: State<K, V>, k: K)
    requires Shape(s)
  {
    StepKeepsShape(e, s);
    var t := StepIfRehashing(e, s);
    (t.idx >= 0 && !Doubles(e, t, k)) || t.table[Bucket(e, k, |t.table|)] != []
  }

  /** The value of the entry AddRaw returns: that of an old entry, or the zero value of its new one. */
  function Returned<K(==), V>(e: Env<K, V>, s: State<K, V>, k: K, zero: V): V
    requires Shape(s)
  {
    var u := AddRaw(e, s, k, zero);
    match FindAt(e, if ReturnsNew(e, s, k) then u.rtable else u.table, k)
    case None => zero
    case Some(v) => v
  }

  /** AddRaw and SetVal on the entry it returns, as addInternal calls them; an entry linked twice is seen
      through both tables. */
  function Add<K(==), V>(e: Env<K, V>, s: State<K, V>, k: K, v: V, zero: V): (r: State<K, V>)
    requires Shape(s)
    ensures Shape(r)
  {
    var u := AddRaw(e, s, k, zero);
    StepKeepsShape(e, s);
    if LinksTwice(e, s, k) then SetBoth(e, u, k, v)
    else if ReturnsNew(e, s, k) then SetNew(e, u, k, v)
    else SetOld(e, u, k, v)
  }
}
