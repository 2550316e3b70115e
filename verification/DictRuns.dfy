/** Whole runs of Set, Delete, AddRaw and SetVal against the finite map they should be. */
module DictRuns {
  import opened Util
  import opened MapFill
  import opened Dict
  import opened DictRefinement
  import opened DictCalls
  import opened DictAdd

  // ---------------------------------------------------------------- whole runs

  /** Add is AddRaw with SetVal on the entry it returns, SetVal the same on the entry GetEntry returns. */
  datatype Op<K, V> =
    | SetOp(key: K, val: V)
    | AddOp(key: K, val: V, zero: V)
    | SetValOp(key: K, val: V)
    | DeleteOp(key: K)

  function Step<K(==), V>(e: Env<K, V>, s: State<K, V>, op: Op<K, V>): (r: State<K, V>)
    requires Shape(s)
    ensures Shape(r)
  {
    match op
    case SetOp(k, v) => SetKeepsShape(e, s, k, v); Set(e, s, k, v)
    case AddOp(k, v, zero) => Add(e, s, k, v, zero)
    case SetValOp(k, v) => SetFound(e, s, k, v)
    case DeleteOp(k) => Delete(e, s, k).0
  }

  function Run<K(==), V>(e: Env<K, V>, s: State<K, V>, ops: seq<Op<K, V>>): (r: State<K, V>)
    requires Shape(s)
    ensures Shape(r)
    decreases |ops|
  {
    if ops == [] then s else Run(e, Step(e, s, ops[0]), ops[1..])
  }

  function MapStep<K(==), V>(m: map<K, V>, op: Op<K, V>): map<K, V> {
    match op
    case SetOp(k, v) => m[k := v]
    case AddOp(k, v, _) => m[k := v]
    case SetValOp(k, v) => if k in m then m[k := v] else m
    case DeleteOp(k) => m - {k}
  }

  function MapRun<K(==), V>(m: map<K, V>, ops: seq<Op<K, V>>): map<K, V>
    decreases |ops|
  {
    if ops == [] then m else MapRun(MapStep(m, ops[0]), ops[1..])
  }

  /** Deletes along the run that find their key. */
  function Deletions<K(==), V>(m: map<K, V>, ops: seq<Op<K, V>>): nat
    decreases |ops|
  {
    if ops == [] then 0
    else (if ops[0].DeleteOp? && ops[0].key in m then 1 else 0) + Deletions(MapStep(m, ops[0]), ops[1..])
  }

  /** The calls that break the table: a stale Set, and an Add that is stale or links its entry twice. */
  predicate Breaks<K(==), V>(e: Env<K, V>, s: State<K, V>, op: Op<K, V>)
    requires Shape(s)
  {
    match op
    case SetOp(k, _) => Stale(e, s, k)
    case AddOp(k, _, _) => Stale(e, s, k) || LinksTwice(e, s, k)
    case _ => false
  }

  /** No call of the run breaks the table when its turn comes. */
  predicate NeverBreaks<K(==), V>(e: Env<K, V>, s: State<K, V>, ops: seq<Op<K, V>>)
    requires Shape(s)
    decreases |ops|
  {
    ops == [] || (!Breaks(e, s, ops[0]) && NeverBreaks(e, Step(e, s, ops[0]), ops[1..]))
  }

  lemma StepStaysGood<K(!new), V>(e: Env<K, V>, s: State<K, V>, op: Op<K, V>)
    requires Good(e, s)
    ensures Good(e, Step(e, s, op)) <==> !Breaks(e, s, op)
  {
    match op
    case SetOp(k, v) => SetExact(e, s, k, v);
    case AddOp(k, v, zero) => AddExact(e, s, k, v, zero);
    case SetValOp(k, v) => SetFoundExact(e, s, k, v);
    case DeleteOp(k) => DeleteExact(e, s, k);
  }

  ghost predicate GoodAlong<K(!new), V>(e: Env<K, V>, s: State<K, V>, ops: seq<Op<K, V>>)
    decreases |ops|
  {
    Good(e, s) && (ops != [] ==> GoodAlong(e, Step(e, s, ops[0]), ops[1..]))
  }

  /** The whole run keeps one map over two tables exactly when none of its calls breaks the table. */
  lemma {:induction false} RunStaysGood<K(!new), V>(e: Env<K, V>, s: State<K, V>, ops: seq<Op<K, V>>)
    requires Good(e, s)
    ensures GoodAlong(e, s, ops) <==> NeverBreaks(e, s, ops)
    decreases |ops|
  {
    if ops != [] {
      StepStaysGood(e, s, ops[0]);
      if !Breaks(e, s, ops[0]) {
        RunStaysGood(e, Step(e, s, ops[0]), ops[1..]);
      }
    }
  }

  /** Stopped anywhere, such a run represents exactly the map the same operations build, holds one entry
      for each of its keys, and its Count is off by the deletions that happened. */
  lemma {:induction false} RunRefinesMap<K(!new), V>(e: Env<K, V>, s: State<K, V>, m: map<K, V>, ops: seq<Op<K, V>>)
    requires Good(e, s) && Represents(e, s, m) && Weight(One(), s) == |m|
    requires NeverBreaks(e, s, ops)
    ensures Good(e, Run(e, s, ops))
    ensures Represents(e, Run(e, s, ops), MapRun(m, ops))
    ensures Weight(One(), Run(e, s, ops)) == |MapRun(m, ops)|
    ensures Run(e, s, ops).count - |MapRun(m, ops)| == s.count - |m| + Deletions(m, ops)
    decreases |ops|
  {
    if ops != [] {
      var s1, m1 := Step(e, s, ops[0]), MapStep(m, ops[0]);
      StepRefinesMap(e, s, m, ops[0]);
      RunRefinesMap(e, s1, m1, ops[1..]);
    }
  }

  /** How far one call moves the memory counter away from the memory of the entries: deletions give back
      what they should, overwrites do not. */
  function StepDrift<K(==), V>(e: Env<K, V>, s: State<K, V>, op: Op<K, V>): int
    requires Shape(s)
  {
    match op
    case SetOp(k, v) => SetDrift(e, s, k, v)
    case DeleteOp(_) => 0
    case _ => match Lookup(e, s, op.key) case None => 0 case Some(o) => e.valMem(o)
  }

  function Drift<K(==), V>(e: Env<K, V>, s: State<K, V>, ops: seq<Op<K, V>>): int
    requires Shape(s)
    decreases |ops|
  {
    if ops == [] then 0 else StepDrift(e, s, ops[0]) + Drift(e, Step(e, s, ops[0]), ops[1..])
  }

  lemma StepDrifts<K(!new), V>(e: Env<K, V>, s: State<K, V>, op: Op<K, V>)
    requires Good(e, s) && !Breaks(e, s, op)
    ensures Step(e, s, op).mem - Weight(EntryMem(e), Step(e, s, op)) == s.mem - Weight(EntryMem(e), s) + StepDrift(e, s, op)
  {
    match op
    case SetOp(k, v) => SetCounters(e, s, k, v);
    case AddOp(k, v, zero) => AddCounters(e, s, k, v, zero);
    case SetValOp(k, v) =>
      SetFoundExact(e, s, k, v);
      if Lookup(e, s, k).Some? {
        var f: ((K, V)) -> int := EntryMem(e);
        assert Weight(f, SetFound(e, s, k, v)) == Weight(f, s) + f((k, v)) - Before(e, s, k, f);
      }
    case DeleteOp(k) => DeleteCounters(e, s, k);
  }

  /** So the memory counter is the memory of the live entries plus the drift of the overwrites so far. */
  lemma {:induction false} RunDrifts<K(!new), V>(e: Env<K, V>, s: State<K, V>, ops: seq<Op<K, V>>)
    requires Good(e, s) && NeverBreaks(e, s, ops)
    ensures Run(e, s, ops).mem - Weight(EntryMem(e), Run(e, s, ops)) == s.mem - Weight(EntryMem(e), s) + Drift(e, s, ops)
    decreases |ops|
  {
    if ops != [] {
      StepStaysGood(e, s, ops[0]);
      StepDrifts(e, s, ops[0]);
      RunDrifts(e, Step(e, s, ops[0]), ops[1..]);
    }
  }

  lemma StepRefinesMap<K(!new), V>(e: Env<K, V>, s: State<K, V>, m: map<K, V>, op: Op<K, V>)
    requires Good(e, s) && Represents(e, s, m) && Weight(One(), s) == |m|
    requires !Breaks(e, s, op)
    ensures Good(e, Step(e, s, op)) && Represents(e, Step(e, s, op), MapStep(m, op))
    ensures Weight(One(), Step(e, s, op)) == |MapStep(m, op)|
    ensures Step(e, s, op).count - |MapStep(m, op)| == s.count - |m| + if op.DeleteOp? && op.key in m then 1 else 0
  {
    match op
    case SetOp(k, v) => SetRefinesMap(e, s, m, k, v);
    case AddOp(k, v, zero) => AddRefinesMap(e, s, m, k, v, zero);
    case SetValOp(k, v) => SetFoundRefinesMap(e, s, m, k, v);
    case DeleteOp(k) => DeleteRefinesMap(e, s, m, k);
  }

  lemma AddRefinesMap<K(!new), V>(e: Env<K, V>, s: State<K, V>, m: map<K, V>, k: K, v: V, zero: V)
    requires Good(e, s) && Represents(e, s, m) && Weight(One(), s) == |m| && !Stale(e, s, k) && !LinksTwice(e, s, k)
    ensures var r := Add(e, s, k, v, zero);
      && Good(e, r) && Represents(e, r, m[k := v]) && Weight(One(), r) == |m[k := v]|
      && r.count - |m[k := v]| == s.count - |m|
  {
    assert Lookup(e, s, k) == if k in m then Some(m[k]) else None;
    OneMore(m, k, v);
    AddCounters(e, s, k, v, zero);
    AddExact(e, s, k, v, zero);
    var f: ((K, V)) -> int := One();
    assert Weight(f, Add(e, s, k, v, zero)) == Weight(f, s) + f((k, v)) - Before(e, s, k, f);
  }

  lemma SetFoundRefinesMap<K(!new), V>(e: Env<K, V>, s: State<K, V>, m: map<K, V>, k: K, v: V)
    requires Good(e, s) && Represents(e, s, m) && Weight(One(), s) == |m|
    ensures var r, m' := SetFound(e, s, k, v), if k in m then m[k := v] else m;
      Good(e, r) && Represents(e, r, m') && Weight(One(), r) == |m'| && r.count - |m'| == s.count - |m|
  {
    assert Lookup(e, s, k) == if k in m then Some(m[k]) else None;
    SetFoundExact(e, s, k, v);
    if k in m {
      OneMore(m, k, v);
      var f: ((K, V)) -> int := One();
      assert Weight(f, SetFound(e, s, k, v)) == Weight(f, s) + f((k, v)) - Before(e, s, k, f);
    }
  }

  lemma SetRefinesMap<K(!new), V>(e: Env<K, V>, s: State<K, V>, m: map<K, V>, k: K, v: V)
    requires Good(e, s) && Represents(e, s, m) && Weight(One(), s) == |m| && !Stale(e, s, k)
    ensures Good(e, Set(e, s, k, v)) && Represents(e, Set(e, s, k, v), m[k := v])
    ensures Weight(One(), Set(e, s, k, v)) == |m[k := v]|
    ensures Set(e, s, k, v).count - |m[k := v]| == s.count - |m|
  {
    assert Lookup(e, s, k) == if k in m then Some(m[k]) else None;
    OneMore(m, k, v);
    SetAddsOne(e, s, k, v);
    SetCounters(e, s, k, v);
    SetExact(e, s, k, v);
  }

  lemma DeleteRefinesMap<K(!new), V>(e: Env<K, V>, s: State<K, V>, m: map<K, V>, k: K)
    requires Good(e, s) && Represents(e, s, m) && Weight(One(), s) == |m|
    ensures Good(e, Delete(e, s, k).0) && Represents(e, Delete(e, s, k).0, m - {k})
    ensures Weight(One(), Delete(e, s, k).0) == |m - {k}|
    ensures Delete(e, s, k).0.count - |m - {k}| == s.count - |m| + if k in m then 1 else 0
  {
    assert Lookup(e, s, k) == if k in m then Some(m[k]) else None;
    OneLess(m, k);
    DeleteWeight(e, s, k, One());
    DeleteCounters(e, s, k);
    DeleteExact(e, s, k);
  }

  lemma SetAddsOne<K(!new), V>(e: Env<K, V>, s: State<K, V>, k: K, v: V)
    requires Good(e, s) && !Stale(e, s, k)
    ensures Weight(One(), Set(e, s, k, v)) == Weight(One(), s) + if Lookup(e, s, k) == None then 1 else 0
  {
    SetExact(e, s, k, v);
    var f: ((K, V)) -> int := One();
    assert Weight(f, Set(e, s, k, v)) == Weight(f, s) + f((k, v)) - Replaced(e, s, k, f, false);
  }
}
