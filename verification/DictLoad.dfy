/** How long a migration takes and how full the table gets. */
module DictLoad {
  import opened Util
  import opened Dict
  import opened DictRefinement
  import opened DictCalls
  import opened DictRuns

  /** NewHashTable: initSize empty buckets. */
  function New<K, V>(size: nat): State<K, V> {
    State(seq(size, _ => []), -1, [], 0, 0)
  }

  function SetAll<K(==), V>(e: Env<K, V>, s: State<K, V>, kvs: seq<(K, V)>): (r: State<K, V>)
    requires Shape(s)
    ensures Shape(r)
    decreases |kvs|
  {
    if kvs == [] then s
    else
      SetKeepsShape(e, s, kvs[0].0, kvs[0].1);
      SetAll(e, Set(e, s, kvs[0].0, kvs[0].1), kvs[1..])
  }

  // ---------------------------------------------------------------- load and length of a migration

  /** Idle, the table is at or under the load limit; during a migration it is over by no more than the
      entries that came in since, one per ten buckets moved. */
  ghost predicate LoadBounded<K, V>(s: State<K, V>) {
    && Shape(s)
    && (s.idx == -1 ==> 10 * s.count <= 7 * |s.table|)
    && (s.idx != -1 ==> 10 * s.count <= 7 * |s.table| + 10 + s.idx)
  }

  /** On any table: calls that insert move the migration on by ten buckets or end it with a table of twice the size,
      and then a new one begins iff none is under way and Count exceeds seven tenths of the size; other calls
      change neither. */
  lemma RehashesIff<K, V>(e: Env<K, V>, s: State<K, V>, op: Op<K, V>)
    requires Shape(s)
    ensures var r := Step(e, s, op);
      if op.SetValOp? || op.DeleteOp? then r.idx == s.idx && |r.table| == |s.table|
      else if 0 <= s.idx && s.idx + 10 < |s.table| then r.idx == s.idx + 10 && |r.table| == |s.table|
      else
        && |r.table| == (if s.idx >= 0 then 2 * |s.table| else |s.table|)
        && r.idx == (if 10 * r.count > 7 * |r.table| then 0 else -1)
  {
    StepKeepsShape(e, s);
    match op
    case SetOp(k, v) => ChecksLoad(s, StepIfRehashing(e, s), Store(e, StepIfRehashing(e, s), k, v));
    case AddOp(k, v, zero) =>
      ChecksLoad(s, StepIfRehashing(e, s), AddTo(e, StepIfRehashing(e, s), k, zero));
      SetValStays(e, AddRaw(e, s, k, zero), s, k, v, zero);
    case _ =>
  }

  /** t after the migration step, u after the entry is stored. */
  lemma ChecksLoad<K, V>(s: State<K, V>, t: State<K, V>, u: State<K, V>)
    requires Shape(s) && Shape(t) && Shape(u) && u.idx == t.idx && |u.table| == |t.table|
    requires if s.idx >= 0 && s.idx + 10 < |s.table| then t.idx == s.idx + 10 && |t.table| == |s.table|
             else t.idx == -1 && |t.table| == if s.idx >= 0 then 2 * |s.table| else |s.table|
    ensures var r := GrowIfLoaded(u);
      if 0 <= s.idx && s.idx + 10 < |s.table| then r.idx == s.idx + 10 && |r.table| == |s.table|
      else
        && |r.table| == (if s.idx >= 0 then 2 * |s.table| else |s.table|)
        && r.idx == (if 10 * r.count > 7 * |r.table| then 0 else -1)
  {
  }

  lemma SetValStays<K, V>(e: Env<K, V>, u: State<K, V>, s: State<K, V>, k: K, v: V, zero: V)
    requires Shape(s) && u == AddRaw(e, s, k, zero)
    ensures var r := Add(e, s, k, v, zero);
      r.idx == u.idx && |r.table| == |u.table| && r.count == u.count
  {
  }

  /** Every Set, stale or not, keeps the load bounded; and from three buckets on, the Set that completes
      a migration leaves the doubled table idle. */
  lemma SetKeepsLoadBounded<K, V>(e: Env<K, V>, s: State<K, V>, k: K, v: V)
    requires LoadBounded(s)
    ensures LoadBounded(Set(e, s, k, v))
    ensures s.idx >= 0 && s.idx + 10 < |s.table| ==>
      Set(e, s, k, v).idx == s.idx + 10 && |Set(e, s, k, v).table| == |s.table|
    ensures s.idx >= 0 && s.idx + 10 >= |s.table| ==> |Set(e, s, k, v).table| == 2 * |s.table|
    ensures s.idx >= 0 && s.idx + 10 >= |s.table| >= 3 ==> Set(e, s, k, v).idx == -1
  {
    StepKeepsShape(e, s);
    SetKeepsShape(e, s, k, v);
    var s1 := StepIfRehashing(e, s);
    var s2 := Store(e, s1, k, v);
    assert s2.count <= s1.count + 1 && s2.idx == s1.idx && |s2.table| == |s1.table|;
    assert s.idx >= 0 && s.idx % 10 == 0 && s.idx + 10 >= |s.table| >= 3 ==> 10 * s2.count <= 7 * (2 * |s.table|);
  }

  lemma DeleteKeepsLoadBounded<K, V>(e: Env<K, V>, s: State<K, V>, k: K)
    requires LoadBounded(s)
    ensures LoadBounded(Delete(e, s, k).0)
  {
  }

  /** AddRaw keeps it exactly unless it counts one entry twice when the table is less than ten deletions of
      the bound away from it. */
  lemma AddRawKeepsLoadBounded<K, V>(e: Env<K, V>, s: State<K, V>, k: K, zero: V)
    requires LoadBounded(s)
    ensures LoadBounded(AddRaw(e, s, k, zero)) <==> !LinksTwice(e, s, k) || 10 * s.count <= 7 * |s.table| + s.idx
  {
    StepKeepsShape(e, s);
    var s1 := StepIfRehashing(e, s);
    var s2 := AddTo(e, s1, k, zero);
    assert s2.count <= s1.count + (if LinksTwice(e, s, k) then 2 else 1) && s2.idx == s1.idx && |s2.table| == |s1.table|;
    assert s.idx >= 0 && s.idx % 10 == 0 && s.idx + 10 >= |s.table| >= 3 && !LinksTwice(e, s, k) ==>
      10 * s2.count <= 7 * (2 * |s.table|);
  }

  /** Idle, the table is at or under the load limit; during a migration it is over by no more than two
      entries for every ten buckets moved. */
  ghost predicate LoadBelow<K, V>(s: State<K, V>) {
    && Shape(s)
    && (s.idx == -1 ==> 10 * s.count <= 7 * |s.table|)
    && (s.idx != -1 ==> 10 * s.count <= 7 * |s.table| + 10 + 2 * s.idx)
  }

  predicate Inserting<K, V>(op: Op<K, V>) { op.SetOp? || op.AddOp? }

  /** What an inserting call does to sizes, index and Count. */
  predicate Moved<K, V>(s: State<K, V>, r: State<K, V>) {
    var n := |s.table|;
    && (0 <= s.idx < n - 10 ==> r.idx == s.idx + 10 && |r.table| == n && r.count <= s.count + 2)
    && (s.idx >= 0 && s.idx >= n - 10 ==> |r.table| == 2 * n && r.count <= s.count + 1)
    && (s.idx == -1 ==> |r.table| == n && r.count <= s.count + 1)
    && (s.idx == -1 || s.idx >= n - 10 ==> r.idx == if 10 * r.count > 7 * |r.table| then 0 else -1)
  }

  lemma SetMoves<K, V>(e: Env<K, V>, s: State<K, V>, k: K, v: V)
    requires Shape(s)
    ensures Moved(s, Set(e, s, k, v))
  {
    StepKeepsShape(e, s);
    var t := StepIfRehashing(e, s);
    var u := Store(e, t, k, v);
    assert u.idx == t.idx && |u.table| == |t.table| && u.count <= t.count + 1;
  }

  lemma AddMoves<K, V>(e: Env<K, V>, s: State<K, V>, k: K, v: V, zero: V)
    requires Shape(s)
    ensures Moved(s, Add(e, s, k, v, zero))
  {
    StepKeepsShape(e, s);
    var t := StepIfRehashing(e, s);
    var u := AddTo(e, t, k, zero);
    assert u.idx == t.idx && |u.table| == |t.table| && u.count <= t.count + if t.idx >= 0 then 2 else 1;
    var r, a := AddRaw(e, s, k, zero), Add(e, s, k, v, zero);
    assert a.idx == r.idx && |a.table| == |r.table| && a.count == r.count;
  }

  lemma StepMoves<K, V>(e: Env<K, V>, s: State<K, V>, op: Op<K, V>)
    requires Shape(s)
    ensures Inserting(op) ==> Moved(s, Step(e, s, op))
    ensures !Inserting(op) ==>
      var r := Step(e, s, op); r.idx == s.idx && |r.table| == |s.table| && r.count == s.count
  {
    match op
    case SetOp(k, v) => SetMoves(e, s, k, v);
    case AddOp(k, v, zero) => AddMoves(e, s, k, v, zero);
    case SetValOp(k, v) =>
    case DeleteOp(k) =>
  }

  /** Every call keeps the load below this bound, one that links twice among them; the state before it is one
      whose tables share no entry. */
  lemma StepKeepsLoadBelow<K, V>(e: Env<K, V>, s: State<K, V>, op: Op<K, V>)
    requires LoadBelow(s)
    ensures LoadBelow(Step(e, s, op))
  {
    StepMoves(e, s, op);
  }

  function Inserts<K, V>(ops: seq<Op<K, V>>): nat {
    if ops == [] then 0 else (if Inserting(ops[0]) then 1 else 0) + Inserts(ops[1..])
  }

  /** The call links its entry twice and leaves its old bucket still to be migrated. What the code holds from
      there on is not these values: the two tables share the entry, and the migration ties it into a ring that a
      later call may never leave (DictHang). */
  predicate Ties<K(==), V>(e: Env<K, V>, s: State<K, V>, op: Op<K, V>)
    requires Shape(s)
  {
    op.AddOp? && LinksTwice(e, s, op.key) && Unmigrated(e, s, op.key)
  }

  predicate NeverTies<K(==), V>(e: Env<K, V>, s: State<K, V>, ops: seq<Op<K, V>>)
    requires Shape(s)
    decreases |ops|
  {
    ops == [] || (!Ties(e, s, ops[0]) && NeverTies(e, Step(e, s, ops[0]), ops[1..]))
  }

  /** Over a run from bucket idx of a migration that ties no entry, inserting calls move ten buckets each and
      other calls none. With the ceil((Size - idx) / 10)-th of them the table is the doubled one, idle unless it
      is over its load limit already. */
  lemma {:induction false} MigrationTakes<K, V>(e: Env<K, V>, s: State<K, V>, ops: seq<Op<K, V>>)
    requires Shape(s) && 0 <= s.idx && NeverTies(e, s, ops)
    requires 10 * (Inserts(ops) - 1) < |s.table| - s.idx
    ensures var r, n := Run(e, s, ops), |s.table|;
      && (10 * Inserts(ops) < n - s.idx ==> r.idx == s.idx + 10 * Inserts(ops) && |r.table| == n)
      && (10 * Inserts(ops) >= n - s.idx ==>
            |r.table| == 2 * n && r.idx == if 10 * r.count > 7 * (2 * n) then 0 else -1)
    decreases |ops|
  {
    if ops != [] {
      StepMoves(e, s, ops[0]);
      var s1 := Step(e, s, ops[0]);
      if Inserting(ops[0]) && s.idx >= |s.table| - 10 {
        NoMoreInserts(e, s1, ops[1..]);
      } else {
        MigrationTakes(e, s1, ops[1..]);
      }
    }
  }

  lemma {:induction false} NoMoreInserts<K, V>(e: Env<K, V>, s: State<K, V>, ops: seq<Op<K, V>>)
    requires Shape(s) && Inserts(ops) == 0
    ensures var r := Run(e, s, ops); r.idx == s.idx && |r.table| == |s.table| && r.count == s.count
    decreases |ops|
  {
    if ops != [] {
      StepMoves(e, s, ops[0]);
      NoMoreInserts(e, Step(e, s, ops[0]), ops[1..]);
    }
  }

  /** So does a run that ties no entry, to the end of a migration. */
  lemma {:induction false} RunKeepsLoadBelow<K, V>(e: Env<K, V>, s: State<K, V>, ops: seq<Op<K, V>>)
    requires LoadBelow(s) && 0 <= s.idx && NeverTies(e, s, ops)
    requires 10 * (Inserts(ops) - 1) < |s.table| - s.idx
    ensures LoadBelow(Run(e, s, ops))
    decreases |ops|
  {
    if ops != [] {
      StepMoves(e, s, ops[0]);
      StepKeepsLoadBelow(e, s, ops[0]);
      var s1 := Step(e, s, ops[0]);
      if Inserting(ops[0]) && s.idx >= |s.table| - 10 {
        StillBelow(e, s1, ops[1..]);
      } else {
        RunKeepsLoadBelow(e, s1, ops[1..]);
      }
    }
  }

  lemma {:induction false} StillBelow<K, V>(e: Env<K, V>, s: State<K, V>, ops: seq<Op<K, V>>)
    requires LoadBelow(s) && Inserts(ops) == 0
    ensures LoadBelow(Run(e, s, ops))
    decreases |ops|
  {
    if ops != [] {
      StepKeepsLoadBelow(e, s, ops[0]);
      StillBelow(e, Step(e, s, ops[0]), ops[1..]);
    }
  }

  /** From four buckets on, that inserting call leaves the doubled table idle and within its limit, so the
      migration ends before another is needed. */
  lemma MigrationEndsIdle<K, V>(e: Env<K, V>, s: State<K, V>, ops: seq<Op<K, V>>)
    requires LoadBelow(s) && 0 <= s.idx && 4 <= |s.table| && NeverTies(e, s, ops)
    requires 10 * (Inserts(ops) - 1) < |s.table| - s.idx <= 10 * Inserts(ops)
    ensures Run(e, s, ops).idx == -1 && |Run(e, s, ops).table| == 2 * |s.table| && LoadBelow(Run(e, s, ops))
  {
    MigrationTakes(e, s, ops);
    RunKeepsLoadBelow(e, s, ops);
    CountAtEnd(e, s, ops);
  }

  lemma {:induction false} CountAtEnd<K, V>(e: Env<K, V>, s: State<K, V>, ops: seq<Op<K, V>>)
    requires LoadBelow(s) && 0 <= s.idx
    requires 10 * (Inserts(ops) - 1) < |s.table| - s.idx <= 10 * Inserts(ops)
    ensures 10 * Run(e, s, ops).count <= 7 * |s.table| + 20 + 2 * (|s.table| - 1)
    decreases |ops|
  {
    StepMoves(e, s, ops[0]);
    StepKeepsLoadBelow(e, s, ops[0]);
    var s1 := Step(e, s, ops[0]);
    if Inserting(ops[0]) && s.idx >= |s.table| - 10 {
      NoMoreInserts(e, s1, ops[1..]);
    } else {
      CountAtEnd(e, s1, ops[1..]);
    }
  }

  // ---------------------------------------------------------------- whole runs

  predicate NeverLinksTwice<K(==), V>(e: Env<K, V>, s: State<K, V>, ops: seq<Op<K, V>>)
    requires Shape(s)
    decreases |ops|
  {
    ops == [] || (!(ops[0].AddOp? && LinksTwice(e, s, ops[0].key)) && NeverLinksTwice(e, Step(e, s, ops[0]), ops[1..]))
  }

  /** Over any run, through any number of migrations, stale calls included, the load stays bounded as long as
      no call links an entry twice. */
  lemma {:induction false} RunKeepsLoadBounded<K, V>(e: Env<K, V>, s: State<K, V>, ops: seq<Op<K, V>>)
    requires LoadBounded(s) && NeverLinksTwice(e, s, ops)
    ensures LoadBounded(Run(e, s, ops))
    decreases |ops|
  {
    if ops != [] {
      match ops[0] {
        case SetOp(k, v) => SetKeepsLoadBounded(e, s, k, v);
        case AddOp(k, v, zero) => AddRawKeepsLoadBounded(e, s, k, zero);
        case SetValOp(k, v) =>
        case DeleteOp(k) => DeleteKeepsLoadBounded(e, s, k);
      }
      RunKeepsLoadBounded(e, Step(e, s, ops[0]), ops[1..]);
    }
  }

  // ---------------------------------------------------------------- runs from an empty table

  lemma NewIsGood<K(!new), V>(e: Env<K, V>, size: nat)
    requires size > 0
    ensures Good(e, New(size)) && Represents(e, New(size), map[])
    ensures LoadBounded(New<K, V>(size)) && LoadBelow(New<K, V>(size))
    ensures Weight(One(), New<K, V>(size)) == 0
  {
    TotalEmpty(One(), New<K, V>(size).table);
    var s: State<K, V> := New(size);
    forall k
      ensures FindAt(e, s.table, k) == None
    {
    }
  }

  /** From an empty table, a run that never breaks the table is the map run, and Count is the size of that map
      exactly when nothing was deleted. */
  lemma RunFromNew<K(!new), V>(e: Env<K, V>, size: nat, ops: seq<Op<K, V>>)
    requires size > 0
    requires NeverBreaks(e, New(size), ops)
    ensures Represents(e, Run(e, New(size), ops), MapRun(map[], ops))
    ensures Run(e, New(size), ops).count == |MapRun(map[], ops)| <==> Deletions(map[], ops) == 0
  {
    NewIsGood(e, size);
    RunRefinesMap(e, New(size), map[], ops);
  }
}
