/** What a stale Set loses and what it leaves behind, and small tables that reach the calls that break them. */
module DictStale {
  import opened Util
  import opened Dict
  import opened DictRefinement
  import opened DictCalls
  import opened DictRuns
  import opened DictLoad

  // ---------------------------------------------------------------- what a stale Set loses

  lemma {:induction false} MigrateFind<K(!new), V>(e: Env<K, V>, s: State<K, V>, n: nat, k: K)
    requires 0 <= s.idx <= |s.table| && s.table != [] && s.rtable != [] && Placed(e, s.table)
    ensures FindAt(e, Migrate(e, s, n).rtable, k) ==
            if s.idx <= Bucket(e, k, |s.table|) < s.idx + n && FindAt(e, s.table, k).Some?
            then FindAt(e, s.table, k) else FindAt(e, s.rtable, k)
    decreases n
  {
    if n != 0 && s.idx < |s.table| {
      var c := s.table[s.idx];
      assert InBucket(e, c, |s.table|, s.idx);
      MoveFind(e, c, s.rtable, k);
      if Find(c, k).Some? {
        FoundInBucket(e, c, |s.table|, s.idx, k);
      }
      MigrateFind(e, MigrateBucket(e, s), n - 1, k);
    }
  }

  /** k's old entry is waiting in an unmigrated bucket of the old table. */
  ghost predicate Waiting<K, V>(e: Env<K, V>, s: State<K, V>, k: K, v: V) {
    && Shape(s) && 0 <= s.idx <= Bucket(e, k, |s.table|)
    && Placed(e, s.table) && FindAt(e, s.table, k) == Some(v)
  }

  /** While the migration has not reached its bucket, the entry waits on. */
  lemma WaitsOn<K(!new), V>(e: Env<K, V>, s: State<K, V>, k: K, prior: V, q: K, v: V)
    requires Waiting(e, s, k, prior) && s.idx + 10 <= Bucket(e, k, |s.table|)
    ensures Shape(Set(e, s, q, v)) && Waiting(e, Set(e, s, q, v), k, prior)
    ensures Set(e, s, q, v).idx == s.idx + 10 && |Set(e, s, q, v).table| == |s.table|
  {
    StepKeepsShape(e, s);
    SetKeepsShape(e, s, q, v);
    var s1 := StepIfRehashing(e, s);
    forall i | 0 <= i < |s.table|
      ensures InBucket(e, s1.table[i], |s1.table|, i) && Uniq(s1.table[i])
    {
      StepLeavesBucket(e, s, i);
    }
    StepLeavesBucket(e, s, Bucket(e, k, |s.table|));
  }

  /** The Set that carries the migration past the bucket brings the entry to the head of its new chain. */
  lemma Arrives<K(!new), V>(e: Env<K, V>, s: State<K, V>, k: K, prior: V, q: K, v: V)
    requires Waiting(e, s, k, prior) && Bucket(e, k, |s.table|) < s.idx + 10 && q != k
    ensures Shape(Set(e, s, q, v)) && Lookup(e, Set(e, s, q, v), k) == Some(prior)
  {
    StepKeepsShape(e, s);
    SetKeepsShape(e, s, q, v);
    var s1 := StepIfRehashing(e, s);
    MigrateFind(e, s, REHASHING_BUCKETS, k);
    var t := if s1.idx >= 0 then s1.rtable else s1.table;
    assert FindAt(e, t, k) == Some(prior);
    PutSpec(t[Bucket(e, q, |t|)], q, v, k);
    assert FindAt(e, PutAt(e, t, q, v), k) == Some(prior);
    var s2 := Store(e, s1, q, v);
    assert Lookup(e, s2, k) == Some(prior);
  }

  lemma {:induction false} WaitingComesBack<K(!new), V>(e: Env<K, V>, s: State<K, V>, k: K, prior: V, kvs: seq<(K, V)>)
    requires Waiting(e, s, k, prior)
    requires forall i :: 0 <= i < |kvs| ==> kvs[i].0 != k
    requires |kvs| == (Bucket(e, k, |s.table|) - s.idx) / 10 + 1
    ensures Lookup(e, SetAll(e, s, kvs), k) == Some(prior)
    decreases |kvs|
  {
    var s1 := Set(e, s, kvs[0].0, kvs[0].1);
    if s.idx + 10 <= Bucket(e, k, |s.table|) {
      WaitsOn(e, s, k, prior, kvs[0].0, kvs[0].1);
      WaitingComesBack(e, s1, k, prior, kvs[1..]);
    } else {
      Arrives(e, s, k, prior, kvs[0].0, kvs[0].1);
      assert kvs[1..] == [];
      assert SetAll(e, s1, kvs[1..]) == s1;
    }
  }

  /** The lost update: after any stale Set(k, v), just enough further Sets of any other keys to carry the
      migration past k's old bucket bring the value k had before the call back, so v is gone. */
  lemma StaleSetIsLost<K(!new), V>(e: Env<K, V>, s: State<K, V>, k: K, v: V, kvs: seq<(K, V)>)
    requires Good(e, s) && Stale(e, s, k)
    requires forall i :: 0 <= i < |kvs| ==> kvs[i].0 != k
    requires |kvs| == (Bucket(e, k, |s.table|) - s.idx) / 10
    ensures Shape(Set(e, s, k, v)) && Lookup(e, Set(e, s, k, v), k) == Some(v)
    ensures Lookup(e, SetAll(e, Set(e, s, k, v), kvs), k) == Lookup(e, s, k)
  {
    var b := Bucket(e, k, |s.table|);
    var prior := FindAt(e, s.table, k).value;
    SetExact(e, s, k, v);
    WaitsOn(e, s, k, prior, k, v);
    WaitingComesBack(e, Set(e, s, k, v), k, prior, kvs);
    assert FindAt(e, s.table, k) == None || FindAt(e, s.rtable, k) == None;
  }

  // ---------------------------------------------------------------- and what it keeps

  /** What a search finds once the first entry for k is gone. */
  function Second<K(==), V>(c: Chain<K, V>, k: K): Option<V> { Find(Remove(c, k), k) }

  function SecondAt<K(==), V>(e: Env<K, V>, t: seq<Chain<K, V>>, k: K): Option<V>
    requires t != []
  {
    Second(t[Bucket(e, k, |t|)], k)
  }

  lemma {:induction false} SecondAfterMove<K, V>(e: Env<K, V>, c: Chain<K, V>, rt: seq<Chain<K, V>>, k: K)
    requires rt != [] && Uniq(c)
    ensures SecondAt(e, MoveChain(e, c, rt), k) == if Find(c, k).Some? then FindAt(e, rt, k) else SecondAt(e, rt, k)
  {
    if c != [] {
      var i := Bucket(e, c[0].0, |rt|);
      var moved := rt[i := [c[0]] + rt[i]];
      assert moved[i][0] == c[0] && moved[i][1..] == rt[i];
      SecondAfterMove(e, c[1..], moved, k);
    }
  }

  lemma {:induction false} SecondAfterMigrate<K(!new), V>(e: Env<K, V>, s: State<K, V>, n: nat, k: K)
    requires 0 <= s.idx <= |s.table| && s.table != [] && s.rtable != [] && Placed(e, s.table)
    ensures SecondAt(e, Migrate(e, s, n).rtable, k) ==
            if s.idx <= Bucket(e, k, |s.table|) < s.idx + n && FindAt(e, s.table, k).Some?
            then FindAt(e, s.rtable, k) else SecondAt(e, s.rtable, k)
    decreases n
  {
    if n != 0 && s.idx < |s.table| {
      var c := s.table[s.idx];
      assert InBucket(e, c, |s.table|, s.idx);
      SecondAfterMove(e, c, s.rtable, k);
      MoveFind(e, c, s.rtable, k);
      if Find(c, k).Some? {
        FoundInBucket(e, c, |s.table|, s.idx, k);
      }
      SecondAfterMigrate(e, MigrateBucket(e, s), n - 1, k);
    }
  }

  lemma {:induction false} SecondAfterPut<K, V>(c: Chain<K, V>, q: K, v: V, k: K)
    requires q != k
    ensures Second(Put(c, q, v), k) == Second(c, k)
  {
    PutSpec(c, q, v, k);
    if c != [] {
      PutSpec(c[1..], q, v, k);
      if c[0].0 != q && c[0].0 != k {
        SecondAfterPut(c[1..], q, v, k);
        assert Put(c, q, v)[1..] == Put(c[1..], q, v);
      }
    }
  }

  /** k has one entry waiting in the old table and a second, newer one in the new table. */
  ghost predicate WaitingTwice<K, V>(e: Env<K, V>, s: State<K, V>, k: K, prior: V, v: V) {
    Waiting(e, s, k, prior) && FindAt(e, s.rtable, k) == Some(v)
  }

  lemma WaitsOnTwice<K(!new), V>(e: Env<K, V>, s: State<K, V>, k: K, prior: V, v: V, q: K, w: V)
    requires WaitingTwice(e, s, k, prior, v) && s.idx + 10 <= Bucket(e, k, |s.table|) && q != k
    ensures Shape(Set(e, s, q, w)) && WaitingTwice(e, Set(e, s, q, w), k, prior, v)
    ensures Set(e, s, q, w).idx == s.idx + 10 && |Set(e, s, q, w).table| == |s.table|
  {
    WaitsOn(e, s, k, prior, q, w);
    MigrateFind(e, s, REHASHING_BUCKETS, k);
    StepKeepsShape(e, s);
    var t := StepIfRehashing(e, s).rtable;
    PutSpec(t[Bucket(e, q, |t|)], q, w, k);
  }

  /** Once both entries are in one chain, Delete unlinks the older one and the newer one answers. */
  lemma SecondAnswers<K(!new), V>(e: Env<K, V>, s: State<K, V>, k: K, v: V)
    requires Shape(s) && var t := if s.idx >= 0 && FindAt(e, s.rtable, k).Some? then s.rtable else s.table;
      FindAt(e, t, k).Some? && SecondAt(e, t, k) == Some(v)
    requires s.idx >= 0 ==> FindAt(e, s.table, k) == None || FindAt(e, s.rtable, k) == None
    requires s.idx >= 0 && FindAt(e, s.rtable, k) == None ==> s.rtable[Bucket(e, k, |s.rtable|)] == []
    ensures Delete(e, s, k).1 && Lookup(e, Delete(e, s, k).0, k) == Some(v)
  {
    if s.idx >= 0 && FindAt(e, s.rtable, k).Some? {
      RemoveAbsent(s.table[Bucket(e, k, |s.table|)], k);
    }
  }

  lemma {:induction false} RemoveAbsent<K, V>(c: Chain<K, V>, k: K)
    requires Find(c, k) == None
    ensures Remove(c, k) == c
  {
    if c != [] {
      RemoveAbsent(c[1..], k);
    }
  }

  lemma ArrivesTwice<K(!new), V>(e: Env<K, V>, s: State<K, V>, k: K, prior: V, v: V, q: K, w: V)
    requires WaitingTwice(e, s, k, prior, v) && Bucket(e, k, |s.table|) < s.idx + 10 && q != k
    ensures var u := Set(e, s, q, w); Shape(u) && Delete(e, u, k).1 && Lookup(e, Delete(e, u, k).0, k) == Some(v)
  {
    StepKeepsShape(e, s);
    SetKeepsShape(e, s, q, w);
    var b, s1 := Bucket(e, k, |s.table|), StepIfRehashing(e, s);
    MigrateFind(e, s, REHASHING_BUCKETS, k);
    SecondAfterMigrate(e, s, REHASHING_BUCKETS, k);
    MigrateEmptiesBuckets(e, s, REHASHING_BUCKETS, b);
    var t := if s1.idx >= 0 then s1.rtable else s1.table;
    assert FindAt(e, t, k) == Some(prior) && SecondAt(e, t, k) == Some(v);
    var i := Bucket(e, q, |t|);
    PutSpec(t[i], q, w, k);
    SecondAfterPut(t[i], q, w, k);
    var t' := PutAt(e, t, q, w);
    assert FindAt(e, t', k) == Some(prior) && SecondAt(e, t', k) == Some(v);
    SecondAnswers(e, Set(e, s, q, w), k, v);
  }

  lemma {:induction false} SecondStays<K(!new), V>(e: Env<K, V>, s: State<K, V>, k: K, prior: V, v: V, kvs: seq<(K, V)>)
    requires WaitingTwice(e, s, k, prior, v)
    requires forall i :: 0 <= i < |kvs| ==> kvs[i].0 != k
    requires |kvs| == (Bucket(e, k, |s.table|) - s.idx) / 10 + 1
    ensures Delete(e, SetAll(e, s, kvs), k).1 && Lookup(e, Delete(e, SetAll(e, s, kvs), k).0, k) == Some(v)
    decreases |kvs|
  {
    var s1 := Set(e, s, kvs[0].0, kvs[0].1);
    if s.idx + 10 <= Bucket(e, k, |s.table|) {
      WaitsOnTwice(e, s, k, prior, v, kvs[0].0, kvs[0].1);
      SecondStays(e, s1, k, prior, v, kvs[1..]);
    } else {
      ArrivesTwice(e, s, k, prior, v, kvs[0].0, kvs[0].1);
      assert kvs[1..] == [];
      assert SetAll(e, s1, kvs[1..]) == s1;
    }
  }

  /** The undead entry: after the same Sets a Delete of k reports that k was there, and k still answers, with
      the value of the stale Set. */
  lemma StaleSetSurvivesDelete<K(!new), V>(e: Env<K, V>, s: State<K, V>, k: K, v: V, kvs: seq<(K, V)>)
    requires Good(e, s) && Stale(e, s, k)
    requires forall i :: 0 <= i < |kvs| ==> kvs[i].0 != k
    requires |kvs| == (Bucket(e, k, |s.table|) - s.idx) / 10
    ensures Shape(Set(e, s, k, v))
    ensures var u := SetAll(e, Set(e, s, k, v), kvs);
      Delete(e, u, k).1 && Lookup(e, Delete(e, u, k).0, k) == Some(v)
  {
    var prior := FindAt(e, s.table, k).value;
    SetExact(e, s, k, v);
    WaitsOn(e, s, k, prior, k, v);
    StepKeepsShape(e, s);
    var t := StepIfRehashing(e, s).rtable;
    PutSpec(t[Bucket(e, k, |t|)], k, v, k);
    SecondStays(e, Set(e, s, k, v), k, prior, v, kvs);
  }

  // ---------------------------------------------------------------- a reachable stale Set

  /** A hash that sends every key to bucket b of a table that has one. */
  function Crowded(b: nat): Env<nat, int> { Env((k: nat) => b, (k: nat) => 0, (v: int) => 0) }

  function Keys(n: nat): Chain<nat, int> {
    if n == 0 then [] else Keys(n - 1) + [(n - 1, 0)]
  }

  function Filled(size: nat, b: nat, n: nat): State<nat, int>
    requires b < size
  {
    State(New<nat, int>(size).table[b := Keys(n)], -1, [], n, 0)
  }

  lemma {:induction false} KeysEnd(n: nat, k: nat, c: Chain<nat, int>)
    requires n <= k && forall i :: 0 <= i < |c| ==> c[i].0 < n
    ensures Find(c, k) == None && Put(c, k, 0) == c + [(k, 0)]
  {
    if c != [] {
      KeysEnd(n, k, c[1..]);
      assert c + [(k, 0)] == [c[0]] + (c[1..] + [(k, 0)]);
    }
  }

  lemma {:induction false} KeysBelow(n: nat)
    ensures |Keys(n)| == n && forall i :: 0 <= i < n ==> Keys(n)[i] == (i, 0)
  {
    if n > 0 {
      KeysBelow(n - 1);
    }
  }

  lemma SetFilled(size: nat, b: nat, n: nat)
    requires b < size
    ensures Set(Crowded(b), Filled(size, b, n), n, 0) == GrowIfLoaded(Filled(size, b, n + 1))
  {
    KeysBelow(n);
    KeysEnd(n, n, Keys(n));
    assert Bucket(Crowded(b), n, size) == b;
    assert Filled(size, b, n).table[b := Keys(n + 1)] == Filled(size, b, n + 1).table;
  }

  function FillFrom(i: nat, n: nat): (ops: seq<Op<nat, int>>)
    requires i <= n
    ensures OnlySets(ops) && |ops| == n + 1 - i
    decreases n - i
  {
    if i == n then [SetOp(0, 1)] else [SetOp(i, 0)] + FillFrom(i + 1, n)
  }

  lemma {:induction false} FillEndsStale(size: nat, b: nat, i: nat, n: nat)
    requires 10 <= b < size && JustOver(size, n) && i < n
    ensures !NeverBreaks(Crowded(b), Filled(size, b, i), FillFrom(i, n))
    decreases n - i
  {
    SetFilled(size, b, i);
    assert FillFrom(i, n)[1..] == FillFrom(i + 1, n);
    var s := GrowIfLoaded(Filled(size, b, i + 1));
    assert Step(Crowded(b), Filled(size, b, i), FillFrom(i, n)[0]) == s;
    if i + 1 < n {
      assert s == Filled(size, b, i + 1);
      FillEndsStale(size, b, i + 1, n);
    } else {
      FirstIsStale(size, b, n);
    }
  }

  lemma FirstIsStale(size: nat, b: nat, n: nat)
    requires 10 <= b < size && JustOver(size, n)
    ensures Stale(Crowded(b), GrowIfLoaded(Filled(size, b, n)), 0)
  {
    var s := GrowIfLoaded(Filled(size, b, n));
    KeysBelow(n);
    CrowdedBucket(b, 0, size);
    CrowdedBucket(b, 0, 2 * size);
    assert s.idx == 0 && s.table[b] == Keys(n) && Find(Keys(n), 0) == Some(0);
  }

  /** n entries are the first to be too many for a table of this size. */
  predicate JustOver(size: nat, n: nat) { 7 * size < 10 * n <= 7 * size + 10 }

  predicate OnlySets(ops: seq<Op<nat, int>>) {
    forall op :: op in ops ==> op.SetOp?
  }

  /** Nine Sets on a new table of eleven buckets can already be one too many. */
  lemma StaleIsReachable()
    ensures exists e: Env<nat, int>, ops: seq<Op<nat, int>> ::
      |ops| == 9 && OnlySets(ops) && !NeverBreaks(e, New(11), ops)
  {
    FillEndsStale(11, 10, 0, 8);
    assert Filled(11, 10, 0) == New<nat, int>(11);
    assert OnlySets(FillFrom(0, 8)) && |FillFrom(0, 8)| == 9;
  }

  // ---------------------------------------------------------------- a reachable twice-linking AddRaw

  /** The table of n Sets that has just begun to migrate, and what the step of the next call makes of it. */
  lemma JustGrown(size: nat, b: nat, n: nat) returns (s: State<nat, int>, t: State<nat, int>)
    requires 10 <= b < size && JustOver(size, n)
    ensures s == GrowIfLoaded(Filled(size, b, n)) && Shape(s) && s.idx == 0 && |s.table| == size && s.count == n
    ensures t == StepIfRehashing(Crowded(b), s) && Shape(t) && t.idx == 10 && |t.table| == size && |t.rtable| == 2 * size
    ensures t.rtable[b] == [] && t.table[b] == Keys(n)
  {
    s := GrowIfLoaded(Filled(size, b, n));
    StepKeepsShape(Crowded(b), s);
    t := StepIfRehashing(Crowded(b), s);
    StepLeavesBucket(Crowded(b), s, b);
    assert forall i :: 0 <= i < 10 ==> s.table[i] == [];
    MigrateNothing(Crowded(b), s, REHASHING_BUCKETS);
  }

  lemma {:induction false} MigrateNothing<K, V>(e: Env<K, V>, s: State<K, V>, n: nat)
    requires 0 <= s.idx && s.rtable != [] && s.idx + n <= |s.table|
    requires forall i :: s.idx <= i < s.idx + n ==> s.table[i] == []
    ensures Migrate(e, s, n).rtable == s.rtable
    decreases n
  {
    if n > 0 {
      MigrateNothing(e, MigrateBucket(e, s), n - 1);
    }
  }

  /** On it, AddRaw of a new key links twice, on a bucket still to be migrated. */
  lemma NextLinksTwice(size: nat, b: nat, n: nat) returns (s: State<nat, int>)
    requires 10 <= b < size && JustOver(size, n)
    ensures s == GrowIfLoaded(Filled(size, b, n)) && Shape(s) && |s.table| == size && s.idx == 0 && s.count == n
    ensures LinksTwice(Crowded(b), s, n) && Unmigrated(Crowded(b), s, n) && StepIfRehashing(Crowded(b), s).idx == 10
    ensures Lookup(Crowded(b), s, n + 1) == None
  {
    var t;
    s, t := JustGrown(size, b, n);
    KeysBelow(n);
    KeysEnd(n, n, t.table[b]);
    CrowdedBucket(b, n, size);
    CrowdedBucket(b, n, 2 * size);
    DoublesAt(Crowded(b), t, n);
    NotThere(size, b, n, s);
  }

  lemma CrowdedBucket(b: nat, k: nat, n: nat)
    requires b < n
    ensures Bucket(Crowded(b), k, n) == b
  {
    DivisionIsUnique(b / n, b % n, 0, b, n);
  }

  lemma NotThere(size: nat, b: nat, n: nat, s: State<nat, int>)
    requires b < size && JustOver(size, n) && s == GrowIfLoaded(Filled(size, b, n)) && Shape(s)
    ensures Lookup(Crowded(b), s, n + 1) == None
  {
    KeysBelow(n);
    KeysEnd(n, n + 1, Keys(n));
    CrowdedBucket(b, n + 1, size);
    assert s.table[b] == Keys(n) && FindAt(Crowded(b), s.rtable, n + 1) == None;
  }

  lemma DoublesAt<K, V>(e: Env<K, V>, t: State<K, V>, k: K)
    requires Shape(t) && t.idx >= 0 && t.rtable[Bucket(e, k, |t.rtable|)] == [] && Find(t.table[Bucket(e, k, |t.table|)], k) == None
    ensures Doubles(e, t, k)
  {
  }

  lemma OverTheBound<K, V>(e: Env<K, V>, s: State<K, V>, k: K, zero: V)
    requires Shape(s) && LinksTwice(e, s, k) && 7 * |s.table| + s.idx < 10 * s.count <= 7 * |s.table| + s.idx + 10
    ensures LoadBounded(s) && !LoadBounded(AddRaw(e, s, k, zero))
  {
    StepKeepsShape(e, s);
    AddRawKeepsLoadBounded(e, s, k, zero);
  }

  lemma {:induction false} SetAllKeys(size: nat, b: nat, i: nat, n: nat, kvs: seq<(nat, int)>)
    requires b < size && i < n && 10 * (n - 1) <= 7 * size
    requires |kvs| == n - i && forall j :: 0 <= j < |kvs| ==> kvs[j] == (i + j, 0)
    ensures SetAll(Crowded(b), Filled(size, b, i), kvs) == GrowIfLoaded(Filled(size, b, n))
    decreases n - i
  {
    SetFilled(size, b, i);
    if i + 1 < n {
      SetAllKeys(size, b, i + 1, n, kvs[1..]);
    }
  }

  lemma FromNew(size: nat, b: nat, n: nat, kvs: seq<(nat, int)>)
    requires b < size && 0 < n && 10 * (n - 1) <= 7 * size && kvs == Keys(n)
    ensures SetAll(Crowded(b), New(size), kvs) == GrowIfLoaded(Filled(size, b, n)) && |kvs| == n
  {
    KeysBelow(n);
    SetAllKeys(size, b, 0, n, kvs);
    assert Filled(size, b, 0) == New<nat, int>(size);
  }

  /** Eight Sets on a new table of eleven buckets, and AddRaw of a ninth key can link twice, on a bucket that
      is not migrated yet, and take the table over the bound. */
  lemma LinksTwiceIsReachable()
    ensures exists e: Env<nat, int>, kvs: seq<(nat, int)>, k: nat ::
      var s := SetAll(e, New(11), kvs);
      && |kvs| == 8 && LoadBounded(s) && LinksTwice(e, s, k) && Unmigrated(e, s, k)
      && !LoadBounded(AddRaw(e, s, k, 0))
  {
    var s := LinksTwiceAfter(11, 10, 8, Keys(8));
    OverTheBound(Crowded(10), s, 8, 0);
  }

  lemma LinksTwiceAfter(size: nat, b: nat, n: nat, kvs: seq<(nat, int)>) returns (s: State<nat, int>)
    requires 10 <= b < size && JustOver(size, n) && kvs == Keys(n)
    ensures s == SetAll(Crowded(b), New(size), kvs) && |kvs| == n && Shape(s) && |s.table| == size && s.idx == 0 && s.count == n
    ensures LinksTwice(Crowded(b), s, n) && Unmigrated(Crowded(b), s, n) && Lookup(Crowded(b), s, n + 1) == None
  {
    FromNew(size, b, n, kvs);
    s := NextLinksTwice(size, b, n);
  }
}
