/** Maps grown and shrunk key by key; a list of pairs fills one so that a repeated key keeps its last value. */
module MapFill {
  function Fill<K, V>(m: map<K, V>, ps: seq<(K, V)>): map<K, V>
    decreases |ps|
  {
    if ps == [] then m else Fill(m[ps[0].0 := ps[0].1], ps[1..])
  }

  predicate HasKey<K(==), V>(ps: seq<(K, V)>, k: K) {
    ps != [] && (ps[0].0 == k || HasKey(ps[1..], k))
  }

  predicate DistinctKeys<K(==), V>(ps: seq<(K, V)>) {
    ps == [] || (!HasKey(ps[1..], ps[0].0) && DistinctKeys(ps[1..]))
  }

  lemma {:induction false} HasAt<K, V>(ps: seq<(K, V)>, t: nat)
    requires t < |ps|
    ensures HasKey(ps, ps[t].0)
  {
    if t > 0 {
      HasAt(ps[1..], t - 1);
    }
  }

  lemma {:induction false} HasNot<K, V>(ps: seq<(K, V)>, k: K)
    requires forall t :: 0 <= t < |ps| ==> ps[t].0 != k
    ensures !HasKey(ps, k)
  {
    if ps != [] {
      HasNot(ps[1..], k);
    }
  }

  lemma {:induction false} FillKey<K, V>(m: map<K, V>, ps: seq<(K, V)>, k: K)
    ensures k in Fill(m, ps) <==> k in m || HasKey(ps, k)
    decreases |ps|
  {
    if ps != [] {
      FillKey(m[ps[0].0 := ps[0].1], ps[1..], k);
    }
  }

  lemma OneMore<K, V>(m: map<K, V>, k: K, v: V)
    ensures |m[k := v]| == if k in m then |m| else |m| + 1
  {
    assert m[k := v].Keys == m.Keys + {k};
    assert |m.Keys| == |m| && |m[k := v].Keys| == |m[k := v]|;
  }

  lemma OneLess<K, V>(m: map<K, V>, k: K)
    ensures |m - {k}| == if k in m then |m| - 1 else |m|
  {
    assert (m - {k}).Keys == m.Keys - {k};
    assert |m.Keys| == |m| && |(m - {k}).Keys| == |m - {k}|;
  }

  lemma {:induction false} FillSize<K, V>(m: map<K, V>, ps: seq<(K, V)>)
    ensures |Fill(m, ps)| <= |m| + |ps|
    ensures DistinctKeys(ps) && (forall t :: 0 <= t < |ps| ==> ps[t].0 !in m) ==> |Fill(m, ps)| == |m| + |ps|
    decreases |ps|
  {
    if ps != [] {
      OneMore(m, ps[0].0, ps[0].1);
      FillSize(m[ps[0].0 := ps[0].1], ps[1..]);
      forall t | 0 <= t < |ps[1..]|
        ensures DistinctKeys(ps) ==> ps[1..][t].0 != ps[0].0
      {
        HasAt(ps[1..], t);
      }
    }
  }

  /** A map that gained one entry a pair lost none of them. */
  lemma {:induction false} FullFill<K, V>(m: map<K, V>, ps: seq<(K, V)>, t: nat)
    requires |Fill(m, ps)| == |m| + |ps|
    ensures forall k :: k in m ==> k in Fill(m, ps) && Fill(m, ps)[k] == m[k]
    ensures t < |ps| ==> ps[t].0 in Fill(m, ps) && Fill(m, ps)[ps[t].0] == ps[t].1
    decreases |ps|
  {
    if ps != [] {
      var m' := m[ps[0].0 := ps[0].1];
      OneMore(m, ps[0].0, ps[0].1);
      FillSize(m', ps[1..]);
      FullFill(m', ps[1..], if t > 0 then t - 1 else 0);
      assert ps[0].0 in m' && m'[ps[0].0] == ps[0].1;
    }
  }

  /** Two lists of as many pairs fill different maps when one of them, free of repeated keys, lacks a key
      of the other or has the key of some place with another value than the other has there. */
  lemma FillsDiffer<K, V>(ns: seq<(K, V)>, ds: seq<(K, V)>, t: nat)
    requires |ns| == |ds| && t < |ds| && DistinctKeys(ds)
    requires !HasKey(ds, ns[t].0) || (ns[t].0 == ds[t].0 && ns[t].1 != ds[t].1)
    ensures Fill(map[], ns) != Fill(map[], ds)
  {
    var none: map<K, V> := map[];
    FillSize(none, ds);
    HasAt(ns, t);
    FillKey(none, ns, ns[t].0);
    FillKey(none, ds, ns[t].0);
    FullFill(none, ds, t);
    if |Fill(none, ns)| == |ns| {
      FullFill(none, ns, t);
    }
  }
}
