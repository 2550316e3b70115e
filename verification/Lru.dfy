/** The approximated LRU of db/lru.go: the idle estimate, the pool of eviction candidates, the eviction loop. */
module Lru {
  const LRU_CLOCK_RESOLUTION := 1000
  const LRU_CLOCK_MAX := 0xFF_FFFF
  const LRU_TICKS := LRU_CLOCK_MAX + 1
  const EVPOOL_SIZE: nat := 4

  // ---------------------------------------------------------------- the idle estimate

  /** Go's integer division, toward zero. */
  function Quotient(a: int, b: int): int
    requires b != 0
  {
    if (a >= 0) == (b > 0) then (if a >= 0 then a else -a) / (if b > 0 then b else -b)
    else -((if a >= 0 then a else -a) / (if b > 0 then b else -b))
  }

  /** lruClock: the precomputed clock unless it is refreshed too rarely; hz 0 is a division by zero. */
  function LruClock(hz: int, srvClock: int, systemClock: int): int
    requires hz != 0
  {
    if Quotient(1000, hz) <= LRU_CLOCK_RESOLUTION then srvClock else systemClock
  }

  /** No frequency makes lruClock turn to the system clock. */
  lemma ClockIsAlwaysPrecomputed(hz: int, srvClock: int, systemClock: int)
    requires hz != 0
    ensures LruClock(hz, srvClock, systemClock) == srvClock
  {
    if hz > 0 {
      assert 1000 / hz <= 1000;
    } else {
      assert 0 <= 1000 / -hz;
    }
  }

  /** estimateObjectIdleTime, with the clock at hand. */
  function Idle(clock: int, lru: int): int {
    if clock >= lru then (clock - lru) * LRU_CLOCK_RESOLUTION
    else (clock + (LRU_CLOCK_MAX - lru)) * LRU_CLOCK_RESOLUTION
  }

  /** Ticks since the access on a clock that wraps around after LRU_CLOCK_MAX. */
  function Age(clock: int, lru: int): int {
    if clock >= lru then clock - lru else clock - lru + LRU_TICKS
  }

  /** The estimate is in range, is the age except that it misses one tick after a wrap-around, and never
      ranks a younger object before an older one by more than that tick. */
  lemma IdleTracksAge(clock: int, lru: int, lru': int)
    requires 0 <= clock <= 16777215 && 0 <= lru <= 16777215 && 0 <= lru' <= 16777215
    ensures 0 <= Idle(clock, lru) <= 16777215000
    ensures Age(clock, lru) == (clock - lru) % 16777216
    ensures Idle(clock, lru) == 1000 * if clock < lru then Age(clock, lru) - 1 else Age(clock, lru)
    ensures Age(clock, lru) <= Age(clock, lru') ==> Idle(clock, lru) <= Idle(clock, lru')
    ensures Idle(clock, lru) <= Idle(clock, lru') ==> Age(clock, lru) <= Age(clock, lru') + 1
  {
  }

  // ---------------------------------------------------------------- the pool

  datatype Slot = Slot(key: string, idle: int)

  type Pool = seq<Slot>

  /** The slots in use. */
  function Used(p: Pool): (n: nat)
    ensures n <= |p|
  {
    if p == [] || p[0].key == "" then 0 else 1 + Used(p[1..])
  }

  /** Filled contiguously from the left, idle times ascending. */
  ghost predicate PoolOk(p: Pool) {
    && |p| == EVPOOL_SIZE
    && (forall i :: Used(p) <= i < |p| ==> p[i].key == "")
    && (forall i, j :: 0 <= i < j < Used(p) ==> p[i].idle <= p[j].idle)
  }

  /** The first slot that is empty or at least as idle. */
  function Place(p: Pool, idle: int): (k: nat)
    ensures k <= |p|
    ensures k < |p| ==> p[k].key == "" || p[k].idle >= idle
    ensures forall i :: 0 <= i < k ==> p[i].key != "" && p[i].idle < idle
  {
    if p == [] || p[0].key == "" || p[0].idle >= idle then 0 else 1 + Place(p[1..], idle)
  }

  predicate Full(p: Pool) {
    p != [] && p[|p| - 1].key != ""
  }

  /** One candidate against the pool. */
  function Offer(p: Pool, s: Slot): (r: Pool)
    requires |p| == EVPOOL_SIZE
    ensures |r| == EVPOOL_SIZE
  {
    var k := Place(p, s.idle);
    if k == 0 && Full(p) then p
    else if k < |p| && p[k].key == "" then p[k := s]
    else if !Full(p) then p[..k] + [s] + p[k..|p| - 1]
    else p[1..k] + [s] + p[k..]
  }

  function OfferAll(p: Pool, ss: seq<Slot>): (r: Pool)
    requires |p| == EVPOOL_SIZE
    ensures |r| == EVPOOL_SIZE
    decreases |ss|
  {
    if ss == [] then p else OfferAll(Offer(p, ss[0]), ss[1..])
  }

  /** How many of the slots are idle for longer than t. */
  function Above(ss: seq<Slot>, t: int): nat {
    if ss == [] then 0 else (if ss[0].idle > t then 1 else 0) + Above(ss[1..], t)
  }

  function Min(a: nat, b: nat): nat { if a < b then a else b }

  lemma {:induction false} UsedIs(p: Pool, n: nat)
    requires n <= |p| && (forall i :: 0 <= i < n ==> p[i].key != "") && (n < |p| ==> p[n].key == "")
    ensures Used(p) == n
  {
    if n > 0 {
      UsedIs(p[1..], n - 1);
    }
  }

  lemma {:induction false} UsedSlots(p: Pool)
    ensures forall i :: 0 <= i < Used(p) ==> p[i].key != ""
    ensures Used(p) < |p| ==> p[Used(p)].key == ""
  {
    if p != [] && p[0].key != "" {
      UsedSlots(p[1..]);
    }
  }

  lemma {:induction false} AboveConcat(a: seq<Slot>, b: seq<Slot>, t: int)
    ensures Above(a + b, t) == Above(a, t) + Above(b, t)
  {
    if a == [] {
      assert a + b == b;
    } else {
      AboveConcat(a[1..], b, t);
      assert (a + b)[1..] == a[1..] + b;
    }
  }

  lemma {:induction false} AboveAll(ss: seq<Slot>, t: int)
    ensures Above(ss, t) <= |ss|
    ensures (forall i :: 0 <= i < |ss| ==> ss[i].idle > t) ==> Above(ss, t) == |ss|
    ensures (exists i :: 0 <= i < |ss| && ss[i].idle <= t) ==> Above(ss, t) < |ss|
  {
    if ss != [] {
      AboveAll(ss[1..], t);
      if i :| 0 <= i < |ss| && ss[i].idle <= t {
        assert i > 0 ==> ss[1..][i - 1] == ss[i];
      }
    }
  }

  function Contents(p: Pool): Pool { p[..Used(p)] }

  lemma OfferWithRoom(p: Pool, s: Slot)
    requires PoolOk(p) && s.key != "" && Used(p) < EVPOOL_SIZE
    ensures var k, c := Place(p, s.idle), Contents(p);
      k <= Used(p) && PoolOk(Offer(p, s)) && Contents(Offer(p, s)) == c[..k] + [s] + c[k..]
  {
    var k, n, r := Place(p, s.idle), Used(p), Offer(p, s);
    UsedSlots(p);
    assert !Full(p) && k <= n;
    if k == n {
      assert r == p[k := s];
    } else {
      assert r == p[..k] + [s] + p[k..EVPOOL_SIZE - 1];
    }
    InsertedInOrder(p, s, k, n, r);
  }

  /** What an offer with a key does to the slots in use: nothing, an insertion in order, or an insertion
      for which the least idle one makes room. */
  lemma OfferContents(p: Pool, s: Slot)
    requires PoolOk(p) && s.key != ""
    ensures var k, n, c := Place(p, s.idle), Used(p), Contents(p);
      && k <= n
      && Contents(Offer(p, s)) == (if k == 0 && n == EVPOOL_SIZE then c
                                   else if n < EVPOOL_SIZE then c[..k] + [s] + c[k..]
                                   else c[1..k] + [s] + c[k..])
    ensures PoolOk(Offer(p, s))
  {
    var k := Place(p, s.idle);
    if Used(p) < EVPOOL_SIZE {
      OfferWithRoom(p, s);
    } else {
      UsedSlots(p);
      assert Full(p);
      if k > 0 {
        LeastReplaced(p, s, k, Offer(p, s));
      }
    }
  }

  lemma InsertedInOrder(p: Pool, s: Slot, k: nat, n: nat, r: Pool)
    requires PoolOk(p) && s.key != "" && |r| == EVPOOL_SIZE && k <= n == Used(p) < EVPOOL_SIZE
    requires forall i :: 0 <= i < k ==> r[i] == p[i] && p[i].key != "" && p[i].idle < s.idle
    requires r[k] == s && (k < n ==> s.idle <= p[k].idle)
    requires forall i :: k < i <= n ==> r[i] == p[i - 1] && p[i - 1].key != ""
    requires forall i :: n < i < EVPOOL_SIZE ==> r[i].key == ""
    ensures PoolOk(r) && Contents(r) == Contents(p)[..k] + [s] + Contents(p)[k..]
  {
    UsedIs(r, n + 1);
    forall i, j | 0 <= i < j <= n
      ensures r[i].idle <= r[j].idle
    {
      assert j > k ==> p[k].idle <= p[j - 1].idle;
      assert i > k ==> p[i - 1].idle <= p[j - 1].idle;
    }
    SpreadOut(p, s, k, n, r);
  }

  lemma SpreadOut(p: Pool, s: Slot, k: nat, n: nat, r: Pool)
    requires k <= n < |r| && n <= |p| && r[..k] == p[..k] && r[k] == s
    requires forall i :: k < i <= n ==> r[i] == p[i - 1]
    ensures r[..n + 1] == p[..n][..k] + [s] + p[..n][k..]
  {
  }

  lemma MadeRoom(p: Pool, s: Slot, k: nat, r: Pool)
    requires 0 < k <= |p| && r == p[1..k] + [s] + p[k..]
    ensures |r| == |p| && r[k - 1] == s
    ensures forall i :: 0 <= i < k - 1 ==> r[i] == p[i + 1]
    ensures forall i :: k <= i < |p| ==> r[i] == p[i]
  {
  }

  lemma LeastReplaced(p: Pool, s: Slot, k: nat, r: Pool)
    requires PoolOk(p) && s.key != "" && Used(p) == EVPOOL_SIZE && 0 < k <= EVPOOL_SIZE && r == p[1..k] + [s] + p[k..]
    requires forall i :: 0 <= i < EVPOOL_SIZE ==> p[i].key != ""
    requires (forall i :: 0 <= i < k ==> p[i].idle < s.idle) && (k < EVPOOL_SIZE ==> s.idle <= p[k].idle)
    ensures PoolOk(r) && Contents(r) == r && Contents(p) == p
  {
    MadeRoom(p, s, k, r);
    UsedIs(r, EVPOOL_SIZE);
    assert p[..EVPOOL_SIZE] == p && r[..EVPOOL_SIZE] == r;
    forall i, j | 0 <= i < j < EVPOOL_SIZE
      ensures r[i].idle <= r[j].idle
    {
      assert j >= k ==> p[k].idle <= p[j].idle;
      assert i < k - 1 && j < k - 1 ==> p[i + 1].idle <= p[j + 1].idle;
    }
  }

  function One(s: Slot, t: int): nat { if s.idle > t then 1 else 0 }

  lemma AboveInsert(c: seq<Slot>, k: nat, s: Slot, t: int)
    requires k <= |c|
    ensures Above(c[..k] + [s] + c[k..], t) == Above(c, t) + One(s, t)
  {
    AboveConcat(c[..k] + [s], c[k..], t);
    AboveConcat(c[..k], [s], t);
    AboveConcat(c[..k], c[k..], t);
    assert c == c[..k] + c[k..];
  }

  lemma AboveReplace(c: seq<Slot>, k: nat, s: Slot, t: int)
    requires 0 < k <= |c|
    ensures Above(c[1..k] + [s] + c[k..], t) == Above(c, t) - One(c[0], t) + One(s, t)
  {
    AboveInsert(c[1..], k - 1, s, t);
    assert c[1..][..k - 1] == c[1..k] && c[1..][k - 1..] == c[k..];
  }

  /** The pool holds the EVPOOL_SIZE most idle of the candidates: for every t, as many of its slots are idle
      for longer than t as candidates are, up to its size. */
  ghost predicate HoldsTop(p: Pool, offered: seq<Slot>) {
    && PoolOk(p)
    && Used(p) == Min(EVPOOL_SIZE, |offered|)
    && (forall t :: Above(Contents(p), t) == Min(EVPOOL_SIZE, Above(offered, t)))
    && forall i :: 0 <= i < Used(p) ==> p[i] in offered
  }

  lemma AboveAfterOffer(p: Pool, offered: seq<Slot>, s: Slot, t: int)
    requires HoldsTop(p, offered) && s.key != ""
    ensures Above(Contents(Offer(p, s)), t) == Min(EVPOOL_SIZE, Above(offered + [s], t))
  {
    var k, n, c := Place(p, s.idle), Used(p), Contents(p);
    OfferContents(p, s);
    AboveConcat(offered, [s], t);
    AboveAll(offered, t);
    AboveAll(c, t);
    UsedSlots(p);
    if n < EVPOOL_SIZE {
      AboveInsert(c, k, s, t);
    } else {
      LeastIsFirst(p);
      if k > 0 {
        AboveReplace(c, k, s, t);
      }
    }
  }

  lemma LeastIsFirst(p: Pool)
    requires PoolOk(p) && Used(p) == EVPOOL_SIZE
    ensures Contents(p) == p && forall i :: 0 <= i < EVPOOL_SIZE ==> p[0].idle <= p[i].idle
  {
  }

  lemma OfferKeepsTop(p: Pool, offered: seq<Slot>, s: Slot)
    requires HoldsTop(p, offered) && s.key != ""
    ensures HoldsTop(Offer(p, s), offered + [s])
  {
    OfferContents(p, s);
    var r := Offer(p, s);
    forall t
      ensures Above(Contents(r), t) == Min(EVPOOL_SIZE, Above(offered + [s], t))
    {
      AboveAfterOffer(p, offered, s, t);
    }
    assert |Contents(r)| == Used(r);
    forall i | 0 <= i < Used(r)
      ensures r[i] in offered + [s]
    {
      assert r[i] == Contents(r)[i];
      assert forall j :: 0 <= j < Used(p) ==> Contents(p)[j] == p[j];
    }
  }

  /** After any candidates with keys, however many and in whatever order, the pool holds the top ones. */
  lemma {:induction false} PoolHoldsTop(p: Pool, before: seq<Slot>, ss: seq<Slot>)
    requires HoldsTop(p, before) && forall i :: 0 <= i < |ss| ==> ss[i].key != ""
    ensures HoldsTop(OfferAll(p, ss), before + ss)
    decreases |ss|
  {
    if ss == [] {
      assert before + ss == before;
    } else {
      var sofar := before + [ss[0]];
      assert sofar + ss[1..] == before + ss;
      OfferKeepsTop(p, before, ss[0]);
      PoolHoldsTop(Offer(p, ss[0]), sofar, ss[1..]);
    }
  }

  lemma EmptyPoolHoldsTop(p: Pool)
    requires |p| == EVPOOL_SIZE && forall i :: 0 <= i < |p| ==> p[i].key == ""
    ensures HoldsTop(p, [])
  {
    UsedIs(p, 0);
  }

  /** The empty key, which marks a free slot, breaks the pool exactly when it lands on or before a slot in
      use without being dropped; else it goes to a free slot, or takes the last place from the least idle. */
  lemma EmptyKeyBreaksPool(p: Pool, idle: int)
    requires PoolOk(p)
    ensures PoolOk(Offer(p, Slot("", idle))) <==>
            (Place(p, idle) == 0 && Used(p) == EVPOOL_SIZE) || Place(p, idle) == Used(p)
  {
    var k, n, r := Place(p, idle), Used(p), Offer(p, Slot("", idle));
    UsedSlots(p);
    assert k <= n && (Full(p) <==> n == EVPOOL_SIZE);
    if k == n < EVPOOL_SIZE {
      UsedIs(r, n);
    } else if k == n {
      assert r == p[1..] + [Slot("", idle)];
      UsedIs(r, n - 1);
    } else if !(k == 0 && n == EVPOOL_SIZE) {
      var hole := if n < EVPOOL_SIZE then k else k - 1;
      assert r[hole].key == "" && r[hole + 1] == p[k];
      UsedSlots(r);
      assert Used(r) <= hole;
    }
  }

  // ---------------------------------------------------------------- the best entry

  lemma {:induction false} NoneAbove(ss: seq<Slot>, t: int)
    ensures Above(ss, t) == 0 <==> forall i :: 0 <= i < |ss| ==> ss[i].idle <= t
  {
    if ss != [] {
      NoneAbove(ss[1..], t);
      assert forall i :: 0 < i < |ss| ==> ss[i] == ss[1..][i - 1];
      assert forall i :: 0 <= i < |ss[1..]| ==> ss[1..][i] == ss[i + 1];
    }
  }

  /** The most idle slot of a pool that holds the top ones is as idle as any candidate. */
  lemma BestIsMostIdle(p: Pool, offered: seq<Slot>)
    requires HoldsTop(p, offered) && offered != []
    ensures Used(p) > 0 && p[Used(p) - 1] in offered
    ensures forall i :: 0 <= i < |offered| ==> offered[i].idle <= p[Used(p) - 1].idle
  {
    var best := p[Used(p) - 1];
    NoneAbove(Contents(p), best.idle);
    NoneAbove(offered, best.idle);
    assert Above(Contents(p), best.idle) == Min(EVPOOL_SIZE, Above(offered, best.idle));
  }

  lemma TopOfOffers(p: Pool, cs: seq<Slot>)
    requires |p| == EVPOOL_SIZE && forall i :: 0 <= i < |p| ==> p[i].key == ""
    requires cs != [] && forall i :: 0 <= i < |cs| ==> cs[i].key != ""
    ensures Used(OfferAll(p, cs)) > 0
    ensures OfferAll(p, cs)[Used(OfferAll(p, cs)) - 1] in cs
    ensures forall i :: 0 <= i < |cs| ==> cs[i].idle <= OfferAll(p, cs)[Used(OfferAll(p, cs)) - 1].idle
  {
    EmptyPoolHoldsTop(p);
    PoolHoldsTop(p, [], cs);
    assert [] + cs == cs;
    BestIsMostIdle(OfferAll(p, cs), cs);
  }

  lemma {:induction false} OfferAllOneMore(p: Pool, ss: seq<Slot>, s: Slot)
    requires |p| == EVPOOL_SIZE
    ensures OfferAll(p, ss + [s]) == Offer(OfferAll(p, ss), s)
    decreases |ss|
  {
    if ss == [] {
      assert ss + [s] == [s] && [s][1..] == [];
    } else {
      assert (ss + [s])[1..] == ss[1..] + [s];
      OfferAllOneMore(Offer(p, ss[0]), ss[1..], s);
    }
  }

  // ---------------------------------------------------------------- the array

  lemma {:induction false} PlaceIs(p: Pool, idle: int, k: nat)
    requires k <= |p| && forall i :: 0 <= i < k ==> p[i].key != "" && p[i].idle < idle
    requires k < |p| ==> p[k].key == "" || p[k].idle >= idle
    ensures Place(p, idle) == k
  {
    if k > 0 {
      PlaceIs(p[1..], idle, k - 1);
    }
  }

  /** n slots copied from `from` on to `to` on. */
  function Copied(p: Pool, to: nat, from: nat, n: nat): (r: Pool)
    requires to + n <= |p| && from + n <= |p|
    ensures |r| == |p|
    ensures forall i {:trigger r[i]} :: 0 <= i < |p| ==> r[i] == if to <= i < to + n then p[i - to + from] else p[i]
  {
    p[..to] + p[from..from + n] + p[to + n..]
  }

  /** Go's copy within one array. */
  method Copy(ep: array<Slot>, to: nat, from: nat, n: nat)
    requires to + n <= ep.Length && from + n <= ep.Length
    modifies ep
    ensures ep[..] == Copied(old(ep[..]), to, from, n)
  {
    forall i | to <= i < to + n { ep[i] := ep[i - to + from]; }
  }

  lemma ShiftedUp(p: Pool, k: nat, s: Slot)
    requires k < |p|
    ensures Copied(p, k + 1, k, |p| - 1 - k)[k := s] == p[..k] + [s] + p[k..|p| - 1]
  {
  }

  lemma ShiftedDown(p: Pool, k: nat, s: Slot)
    requires 0 < k <= |p|
    ensures Copied(p, 0, 1, k - 1)[k - 1 := s] == p[1..k] + [s] + p[k..]
  {
  }

  /** The search for the first empty slot, or the first one at least as idle. */
  method FindSlot(ep: array<Slot>, idle: int) returns (k: nat)
    requires ep.Length == EVPOOL_SIZE
    ensures k == Place(ep[..], idle)
  {
    k := 0;
    while k < EVPOOL_SIZE && ep[k].key != "" && ep[k].idle < idle
      invariant 0 <= k <= EVPOOL_SIZE
      invariant forall i :: 0 <= i < k ==> ep[..][i].key != "" && ep[..][i].idle < idle
    {
      k := k + 1;
    }
    PlaceIs(ep[..], idle, k);
  }

  /** One turn of the populating loop. */
  method OfferKey(ep: array<Slot>, key: string, idle: int)
    requires ep.Length == EVPOOL_SIZE
    modifies ep
    ensures ep[..] == Offer(old(ep[..]), Slot(key, idle))
  {
    ghost var p, s := ep[..], Slot(key, idle);
    var k := FindSlot(ep, idle);
    if k == 0 && ep[EVPOOL_SIZE - 1].key != "" {
      return;
    } else if k < EVPOOL_SIZE && ep[k].key == "" {
    } else if ep[EVPOOL_SIZE - 1].key == "" {
      ShiftedUp(p, k, s);
      Copy(ep, k + 1, k, EVPOOL_SIZE - 1 - k);
    } else {
      ShiftedDown(p, k, s);
      k := k - 1;
      Copy(ep, 0, 1, k);
    }
    assert ep[..][k := s] == Offer(p, s);
    ep[k] := Slot(key, idle);
  }
}
