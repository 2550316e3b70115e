/** The two tables together are one finite map at every point of a migration, and exactly when not. */
module DictRefinement {
  import opened Util
  import opened Dict

  /** What both tables answer for k during a migration: the new table wins. */
  function Seek<K(==), V>(e: Env<K, V>, t: seq<Chain<K, V>>, rt: seq<Chain<K, V>>, k: K): Option<V>
    requires t != [] && rt != []
  {
    var r := FindAt(e, rt, k);
    if r.Some? then r else FindAt(e, t, k)
  }

  ghost predicate Disjoint<K(!new), V>(e: Env<K, V>, t: seq<Chain<K, V>>, rt: seq<Chain<K, V>>)
    requires t != [] && rt != []
  {
    forall k :: FindAt(e, t, k) == None || FindAt(e, rt, k) == None
  }

  /** A migration under way: migrated buckets are empty and each key lives in one chain of one table. */
  ghost predicate Migrating<K(!new), V>(e: Env<K, V>, s: State<K, V>) {
    && 0 <= s.idx <= |s.table| && 0 < |s.table| && |s.rtable| == 2 * |s.table|
    && Placed(e, s.table) && Placed(e, s.rtable)
    && (forall i :: 0 <= i < s.idx ==> s.table[i] == [])
    && Disjoint(e, s.table, s.rtable)
  }

  ghost predicate Good<K(!new), V>(e: Env<K, V>, s: State<K, V>) {
    Shape(s) && Placed(e, s.table) && (s.idx >= 0 ==> Migrating(e, s))
  }

  /** All entries of both tables, weighed by f; f == 1 counts them and an indicator gives a multiplicity. */
  function Weight<K, V>(f: ((K, V)) -> int, s: State<K, V>): int {
    Total(f, s.table) + Total(f, s.rtable)
  }

  // ---------------------------------------------------------------- rehashStep

  lemma {:induction false} MoveFind<K(!new), V>(e: Env<K, V>, c: Chain<K, V>, rt: seq<Chain<K, V>>, k: K)
    requires rt != [] && Uniq(c)
    ensures FindAt(e, MoveChain(e, c, rt), k) ==
            if Find(c, k).Some? then Find(c, k) else FindAt(e, rt, k)
  {
    if c != [] {
      var i := Bucket(e, c[0].0, |rt|);
      var moved := rt[i := [c[0]] + rt[i]];
      MoveFind(e, c[1..], moved, k);
      assert moved[i][0] == c[0] && moved[i][1..] == rt[i];
    }
  }

  lemma {:induction false} MovePlaced<K(!new), V>(e: Env<K, V>, c: Chain<K, V>, rt: seq<Chain<K, V>>)
    requires rt != [] && Uniq(c) && Placed(e, rt)
    requires forall k :: Find(c, k).Some? ==> FindAt(e, rt, k) == None
    ensures Placed(e, MoveChain(e, c, rt))
  {
    if c != [] {
      var i := Bucket(e, c[0].0, |rt|);
      var moved := rt[i := [c[0]] + rt[i]];
      assert Find(c, c[0].0).Some?;
      assert moved[i][1..] == rt[i];
      forall k | Find(c[1..], k).Some?
        ensures FindAt(e, moved, k) == None
      {
        assert k != c[0].0;
        assert Find(c, k).Some?;
      }
      assert Placed(e, moved) by {
        assert InBucket(e, rt[i], |rt|, i);
      }
      MovePlaced(e, c[1..], moved);
    }
  }

  lemma {:induction false} MoveTotal<K, V>(f: ((K, V)) -> int, e: Env<K, V>, c: Chain<K, V>, rt: seq<Chain<K, V>>)
    requires rt != []
    ensures Total(f, MoveChain(e, c, rt)) == Total(f, rt) + Sum(f, c)
  {
    if c != [] {
      var i := Bucket(e, c[0].0, |rt|);
      var head := [c[0]] + rt[i];
      assert head[1..] == rt[i];
      MoveTotal(f, e, c[1..], rt[i := head]);
      TotalUpdate(f, rt, i, head);
    }
  }

  lemma MigrateBucketSpec<K(!new), V>(e: Env<K, V>, s: State<K, V>)
    requires Migrating(e, s) && s.idx < |s.table|
    ensures Migrating(e, MigrateBucket(e, s))
    ensures forall k :: Seek(e, MigrateBucket(e, s).table, MigrateBucket(e, s).rtable, k) == Seek(e, s.table, s.rtable, k)
    ensures forall f :: Weight(f, MigrateBucket(e, s)) == Weight(f, s)
  {
    var c := s.table[s.idx];
    var n := |s.table|;
    var m := MigrateBucket(e, s);
    assert InBucket(e, c, n, s.idx) && Uniq(c);
    forall k
      ensures Find(c, k).Some? ==> Bucket(e, k, n) == s.idx && FindAt(e, s.rtable, k) == None
      ensures Seek(e, m.table, m.rtable, k) == Seek(e, s.table, s.rtable, k)
      ensures FindAt(e, m.table, k) == None || FindAt(e, m.rtable, k) == None
    {
      MoveFind(e, c, s.rtable, k);
      if Find(c, k).Some? {
        FoundInBucket(e, c, n, s.idx, k);
      }
    }
    MovePlaced(e, c, s.rtable);
    forall f
      ensures Weight(f, m) == Weight(f, s)
    {
      MoveTotal(f, e, c, s.rtable);
      TotalUpdate(f, s.table, s.idx, []);
    }
  }

  lemma {:induction false} MigrateSpec<K(!new), V>(e: Env<K, V>, s: State<K, V>, n: nat)
    requires Migrating(e, s)
    ensures Migrating(e, Migrate(e, s, n))
    ensures forall k :: Seek(e, Migrate(e, s, n).table, Migrate(e, s, n).rtable, k) == Seek(e, s.table, s.rtable, k)
    ensures forall f :: Weight(f, Migrate(e, s, n)) == Weight(f, s)
    decreases n
  {
    if n != 0 && s.idx < |s.table| {
      MigrateBucketSpec(e, s);
      MigrateSpec(e, MigrateBucket(e, s), n - 1);
    }
  }

  /** One incremental step moves entries without losing, adding or changing any, and without changing
      any lookup, also when it completes the migration and swaps the tables. */
  lemma RehashStepConserves<K(!new), V>(e: Env<K, V>, s: State<K, V>)
    requires Good(e, s)
    ensures Good(e, StepIfRehashing(e, s))
    ensures forall k :: Lookup(e, StepIfRehashing(e, s), k) == Lookup(e, s, k)
    ensures forall f :: Weight(f, StepIfRehashing(e, s)) == Weight(f, s)
  {
    if s.idx >= 0 {
      var m := Migrate(e, s, REHASHING_BUCKETS);
      var r := StepIfRehashing(e, s);
      MigrateSpec(e, s, REHASHING_BUCKETS);
      StepKeepsShape(e, s);
      forall k
        ensures Lookup(e, r, k) == Lookup(e, s, k)
      {
        assert Seek(e, m.table, m.rtable, k) == Seek(e, s.table, s.rtable, k);
      }
      forall f
        ensures Weight(f, r) == Weight(f, s)
      {
        if m.idx == |m.table| {
          TotalEmpty(f, m.table);
        }
      }
    }
  }

  /** A migrated entry of new bucket j came from old bucket j mod Size. */
  lemma NewBucketComesFromOld<K, V>(e: Env<K, V>, k: K, size: nat)
    requires size > 0
    ensures var j := Bucket(e, k, 2 * size); Bucket(e, k, size) == if j < size then j else j - size
  {
    var x := e.hash(k);
    var q, j := x / (2 * size), x % (2 * size);
    Doubling(q, size);
    if j < size {
      DivisionIsUnique(x / size, x % size, 2 * q, j, size);
    } else {
      DivisionIsUnique(x / size, x % size, 2 * q + 1, j - size, size);
    }
  }

  lemma Doubling(q: int, n: int)
    ensures q * (2 * n) == (2 * q) * n
    ensures (2 * q + 1) * n == (2 * q) * n + n
  {
  }

  lemma DivisionIsUnique(q: int, r: nat, q': int, r': nat, n: nat)
    requires r < n && r' < n
    requires q * n + r == q' * n + r'
    ensures q == q' && r == r'
  {
    LargerQuotient(q, q', n);
    LargerQuotient(q', q, n);
  }

  lemma LargerQuotient(q: int, q': int, n: nat)
    ensures q > q' ==> q * n >= q' * n + n
  {
    assert q * n == q' * n + (q - q') * n;
    if q > q' {
      assert (q - q') * n == (q - q' - 1) * n + n;
    }
  }
}
