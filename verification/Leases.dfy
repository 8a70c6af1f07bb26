/**
 What both lease tables stand for: one finite map from addresses to leases, a round-robin
 cursor, and the rules deciding which addresses a client may be given.
 */
module Leases {
  import opened Wrappers
  import opened RoundRobin

  type Time = nat

  /** `expiry == None` is an infinite (file-reserved) lease. */
  datatype Lease<C, X> = Lease(client: C, expiry: Option<Time>, info: X)

  /**
   The managed range. `usable` is false when `start + count` leaves the address space;
   `stealsInfinite` says whether infinite leases count as available to other clients.
   */
  datatype Policy = Policy(start: nat, count: nat, usable: bool, stealsInfinite: bool)

  datatype Table<C, X> = Table(leases: map<nat, Lease<C, X>>, last: nat)

  predicate InPool(p: Policy, a: nat) {
    p.usable && p.start <= a < p.start + p.count
  }

  predicate Lapsed<C, X>(p: Policy, l: Lease<C, X>, now: Time) {
    match l.expiry
    case None => p.stealsInfinite
    case Some(e) => now > e
  }

  predicate Available<C(==), X>(p: Policy, m: map<nat, Lease<C, X>>, c: C, now: Time, a: nat) {
    && InPool(p, a)
    && (a in m ==> m[a].client == c || Lapsed(p, m[a], now))
  }

  /** No other client can be given `a` at `now`: it lies outside the range, or its lease has not lapsed. */
  predicate Firm<C, X>(p: Policy, l: Lease<C, X>, a: nat, now: Time) {
    !InPool(p, a) || !Lapsed(p, l, now)
  }

  ghost predicate Holds<C, X>(m: map<nat, Lease<C, X>>, c: C, a: nat) {
    a in m && m[a].client == c
  }

  /** `c` holds `a` and nothing else. */
  ghost predicate HoldsOnly<C, X>(m: map<nat, Lease<C, X>>, c: C, a: nat) {
    Holds(m, c, a) && forall b :: b in m && m[b].client == c ==> b == a
  }

  /** The answers a lookup of the current lease of `c` may give. */
  ghost predicate IsCurrent<C, X>(m: map<nat, Lease<C, X>>, c: C, r: Option<nat>) {
    match r
    case Some(a) => Holds(m, c, a)
    case None => forall a :: a in m ==> m[a].client != c
  }

  /** No client holds two addresses. */
  ghost predicate OneEach<C, X>(m: map<nat, Lease<C, X>>) {
    forall a, b :: a in m && b in m && m[a].client == m[b].client ==> a == b
  }

  lemma CurrentIsUnique<C, X>(m: map<nat, Lease<C, X>>, c: C, r: Option<nat>, s: Option<nat>)
    requires OneEach(m) && IsCurrent(m, c, r) && IsCurrent(m, c, s)
    ensures r == s
  {
  }

  /** The pool address at offset `o` may be given at `now` to a client without a lease. */
  predicate FreeAt<C, X>(p: Policy, m: map<nat, Lease<C, X>>, now: Time, o: nat) {
    o < p.count && p.usable && (p.start + o in m ==> Lapsed(p, m[p.start + o], now))
  }

  /** Offsets of the pool addresses a client without a lease may be given at `now`. */
  ghost function FreeOffsets<C, X>(p: Policy, m: map<nat, Lease<C, X>>, now: Time): set<nat> {
    set o: nat | o < p.count && FreeAt(p, m, now, o)
  }

  /** The address offered and the table after the offer, for a client whose current lease is `cur`. */
  ghost function DiscoverSpec<C, X>(p: Policy, t: Table<C, X>, cur: Option<nat>, now: Time)
    : (Table<C, X>, Option<nat>)
  {
    if cur.Some? then (t, cur)
    else
      var free := FreeOffsets(p, t.leases, now);
      if free == {} then (t, None)
      else
        var n := Next(free, t.last);
        (t.(last := n), Some(p.start + n))
  }

  // ----- A scan that probes the cursor positions after `t.last` one by one -----

  /** The first `n` probes found nothing free. */
  ghost predicate Missed<C, X>(p: Policy, t: Table<C, X>, now: Time, n: nat) {
    forall y: nat :: y < p.count && Visited(p.count, t.last, n, y) ==> !FreeAt(p, t.leases, now, y)
  }

  lemma ScanStarts<C, X>(p: Policy, t: Table<C, X>, now: Time)
    requires t.last < p.count
    ensures Missed(p, t, now, 0) && After(p.count, t.last, 0) == t.last
  {
  }

  lemma ScanMisses<C, X>(p: Policy, t: Table<C, X>, now: Time, n: nat)
    requires t.last < p.count && n < p.count && Missed(p, t, now, n)
    requires !FreeAt(p, t.leases, now, After(p.count, t.last, n + 1))
    ensures Missed(p, t, now, n + 1)
  {
    forall y: nat | y < p.count && Visited(p.count, t.last, n + 1, y)
      ensures !FreeAt(p, t.leases, now, y)
    {
      assert Visited(p.count, t.last, n, y) || y == After(p.count, t.last, n + 1);
    }
  }

  lemma ScanHits<C, X>(p: Policy, t: Table<C, X>, now: Time, n: nat)
    requires t.last < p.count && n < p.count && Missed(p, t, now, n)
    requires FreeAt(p, t.leases, now, After(p.count, t.last, n + 1))
    ensures var o := After(p.count, t.last, n + 1);
            DiscoverSpec(p, t, None, now) == (t.(last := o), Some(p.start + o))
  {
    var free := FreeOffsets(p, t.leases, now);
    assert After(p.count, t.last, n + 1) in free;
    ScanHit(free, p.count, t.last, n);
  }

  lemma ScanExhausted<C, X>(p: Policy, t: Table<C, X>, now: Time)
    requires t.last < p.count && Missed(p, t, now, p.count)
    ensures DiscoverSpec(p, t, None, now) == (t, None) && After(p.count, t.last, p.count) == t.last
  {
    var free := FreeOffsets(p, t.leases, now);
    assert forall y :: y in free ==> Visited(p.count, t.last, p.count, y) && FreeAt(p, t.leases, now, y);
    assert free == {};
  }

  /** An offer to a client without a lease is an address available to it; it is refused iff none is. */
  lemma DiscoverComplete<C, X>(p: Policy, t: Table<C, X>, c: C, now: Time)
    requires IsCurrent(t.leases, c, None)
    ensures var (t', r) := DiscoverSpec(p, t, None, now);
            && t'.leases == t.leases
            && (r.None? <==> forall a :: !Available(p, t.leases, c, now, a))
            && (r.None? ==> t' == t)
            && (r.Some? ==> Available(p, t.leases, c, now, r.value) && r.value == p.start + t'.last)
  {
    var free := FreeOffsets(p, t.leases, now);
    forall a: nat
      ensures Available(p, t.leases, c, now, a) <==> a >= p.start && a - p.start in free
    {
    }
    if free != {} {
      var n := Next(free, t.last);
      assert p.start + n - p.start in free;
      assert Available(p, t.leases, c, now, p.start + n);
    }
  }

  /** The offer is the cyclically first one: no available address lies between the cursor and it. */
  lemma DiscoverIsCyclicallyFirst<C, X>(p: Policy, t: Table<C, X>, c: C, now: Time, a: nat)
    requires IsCurrent(t.leases, c, None) && Available(p, t.leases, c, now, a)
    ensures var (t', r) := DiscoverSpec(p, t, None, now);
            && r.Some?
            && (if t.last < t'.last
                then a > p.start + t.last ==> r.value <= a
                else r.value <= a <= p.start + t.last)
  {
    var free := FreeOffsets(p, t.leases, now);
    assert a - p.start in free;
    var n := Next(free, t.last);
    assert IsNext(free, t.last, n);
  }

  /** A pool that holds fewer leases than it has addresses never refuses. */
  lemma DiscoverNeverRefusesWithRoom<C, X>(p: Policy, t: Table<C, X>, c: C, now: Time)
    requires p.usable && |t.leases| < p.count
    ensures DiscoverSpec(p, t, None, now).1.Some?
  {
    if FreeOffsets(p, t.leases, now) == {} {
      forall a | a in Interval(p.start, p.count)
        ensures a in t.leases.Keys
      {
        assert a - p.start !in FreeOffsets(p, t.leases, now);
        assert !FreeAt(p, t.leases, now, a - p.start);
      }
      IntervalSize(p.start, p.count);
      SubsetSize(Interval(p.start, p.count), t.leases.Keys);
    }
  }

  ghost function Interval(start: nat, count: nat): (s: set<nat>)
    ensures forall a: nat :: a in s <==> start <= a < start + count
  {
    if count == 0 then {} else Interval(start, count - 1) + {start + count - 1}
  }

  lemma {:induction false} IntervalSize(start: nat, count: nat)
    ensures |Interval(start, count)| == count
  {
    if count > 0 {
      IntervalSize(start, count - 1);
    }
  }

  // ----- Clients without a lease -----

  lemma SizeBelow<C, X>(m: map<nat, Lease<C, X>>, bound: nat)
    requires forall a :: a in m ==> a < bound
    ensures |m| <= bound
  {
    IntervalSize(0, bound);
    SubsetSize(m.Keys, Interval(0, bound));
  }

  lemma OneLess<C, X>(m: map<nat, Lease<C, X>>, a: nat)
    requires a in m
    ensures |m - {a}| == |m| - 1
  {
    assert (m - {a}).Keys == m.Keys - {a};
  }

  ghost predicate NoRepeats<C>(names: seq<C>) {
    forall i, j :: 0 <= i < j < |names| ==> names[i] != names[j]
  }

  lemma NoRepeatsFront<C>(names: seq<C>, c: C)
    requires NoRepeats(names + [c])
    ensures NoRepeats(names) && c !in names
  {
    assert forall i :: 0 <= i < |names| ==> (names + [c])[i] == names[i];
    assert (names + [c])[|names|] == c;
  }

  /** Among more distinct clients than there are leases and clients to avoid, one holds nothing and is not avoided. */
  lemma {:induction false} SomeoneHoldsNone<C, X>(m: map<nat, Lease<C, X>>, avoid: set<C>, names: seq<C>) returns (c: C)
    requires NoRepeats(names) && |m| + |avoid| < |names|
    ensures c in names && c !in avoid && IsCurrent(m, c, None)
  {
    hide NoRepeats, IsCurrent;
    c := names[|names| - 1];
    var front, last := names[..|names| - 1], c;
    assert names == front + [last];
    NoRepeatsFront(front, last);
    if last in avoid {
      c := SomeoneHoldsNone(m, avoid - {last}, front);
    } else if a :| Holds(m, last, a) {
      OneLess(m, a);
      c := SomeoneHoldsNone(m - {a}, avoid, front);
      StillNone(m, a, c);
    } else {
      NoneHeld(m, last);
    }
  }

  lemma StillNone<C, X>(m: map<nat, Lease<C, X>>, a: nat, c: C)
    requires a in m && m[a].client != c && IsCurrent(m - {a}, c, None)
    ensures IsCurrent(m, c, None)
  {
    forall b | b in m
      ensures m[b].client != c
    {
      assert b != a ==> b in m - {a};
    }
  }

  lemma NoneHeld<C, X>(m: map<nat, Lease<C, X>>, c: C)
    requires forall a :: !Holds(m, c, a)
    ensures IsCurrent(m, c, None)
  {
    forall a | a in m
      ensures m[a].client != c
    {
      assert !Holds(m, c, a);
    }
  }
}
