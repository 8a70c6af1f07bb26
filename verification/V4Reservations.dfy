/**
 What a client with a permanent address receives from the DHCPv4 service, over every run.

 The documented promise is that a client named in the leases file always receives the same address.
 It is kept exactly for addresses outside the pool, provided the client holds no other address;
 `TwoAddresses` is a file that breaks it for a client whose second address lies in the pool.
 */
module Dhcpv4Reservations {
  import opened Wrappers
  import opened Leases
  import opened Dhcpv4Options
  import opened Dhcpv4Packet
  import opened Dhcpv4Server
  import opened Dhcpv4Runs
  import opened Dhcpv4Lifetimes

  /** An Offer or Ack of `a`. */
  predicate Grants(reply: Option<Packet>, a: nat) {
    && reply.Some? && reply.value.yiaddr == a
    && (TypeOf(reply.value.options) == Some(Offer) || TypeOf(reply.value.options) == Some(Ack))
  }

  /** Every Discover and Request of `c` is answered with `a`. */
  ghost predicate AllGrant(evs: seq<Event>, replies: seq<Option<Packet>>, c: Mac, a: nat)
    requires |replies| == |evs|
  {
    forall i :: 0 <= i < |evs| && Speaks(evs[i].pkt, c) ==> Grants(replies[i], a)
  }

  ghost predicate NeverReleases(cfg: Config, evs: seq<Event>, c: Mac) {
    forall i :: 0 <= i < |evs| ==> !ReleasedBy(cfg, evs[i].pkt, c)
  }

  /**
   In every run from `s` over received datagrams in which `c` does not release, every Discover and
   Request of `c` is answered with an Offer or Ack of `a`.
   */
  ghost predicate AlwaysReceives(cfg: Config, s: State, c: Mac, a: nat) {
    forall ss: seq<State>, dgs: seq<Datagram>, replies: seq<Option<Packet>> ::
      var evs := Understood(dgs);
      IsRun(cfg, ss, evs, replies) && ss[0] == s && ClockRuns(evs) && NeverReleases(cfg, evs, c) ==>
        AllGrant(evs, replies, c, a)
  }

  // ----- Outside the pool -----

  /** A client that holds an address gets no other, as long as it keeps that one. */
  lemma StepKeepsOnly(cfg: Config, s: State, pkt: Packet, now: Time, s': State, reply: Option<Packet>, c: Mac, a: nat)
    requires ServerStep(cfg, s, pkt, now, s', reply) && HoldsOnly(s.leases, c, a) && Holds(s'.leases, c, a)
    ensures HoldsOnly(s'.leases, c, a)
  {
    hide ServerStep;
    forall b | b in s'.leases && s'.leases[b].client == c
      ensures b == a
    {
      if !(b in s.leases && s.leases[b].client == c) {
        NewLeaseIsTimed(cfg, s, pkt, now, s', reply, b);
      }
    }
  }

  lemma {:induction false} RunKeepsOnly(
      cfg: Config, ss: seq<State>, evs: seq<Event>, replies: seq<Option<Packet>>, c: Mac, a: nat, k: nat)
    requires IsRun(cfg, ss, evs, replies) && NeverReleases(cfg, evs, c) && k <= |evs|
    requires HoldsOnly(ss[0].leases, c, a) && !InPool(PolicyOf(cfg), a)
    ensures HoldsOnly(ss[k].leases, c, a)
  {
    hide ServerStep, ReleasedBy;
    if k > 0 {
      RunKeepsOnly(cfg, ss, evs, replies, c, a, k - 1);
      LeaseSafety(cfg, ss, evs, replies, 0, k, a);
      var e := evs[k - 1];
      assert ServerStep(cfg, ss[k - 1], e.pkt, e.now, ss[k - 1 + 1], replies[k - 1]);
      StepKeepsOnly(cfg, ss[k - 1], e.pkt, e.now, ss[k], replies[k - 1], c, a);
    }
  }

  /** A client that holds one address is answered with it. */
  lemma HolderIsGranted(cfg: Config, s: State, pkt: Packet, now: Time, s': State, reply: Option<Packet>, a: nat)
    requires ServerStep(cfg, s, pkt, now, s', reply) && Validated(cfg) && InSpace(s)
    requires HoldsOnly(s.leases, pkt.chaddr, a) && Speaks(pkt, pkt.chaddr)
    ensures Grants(reply, a)
  {
    hide ServerStep, TypeOf, IsRapid, Echoes, InSpace, Advertised;
    assert !IsCurrent(s.leases, pkt.chaddr, None);
    if TypeOf(pkt.options) == Some(Discover) {
      SilentIffExhausted(cfg, s, pkt, now, s', reply);
    } else {
      AsksForIff(pkt, RequestedIp(pkt));
    NakIffUnavailable(cfg, s, pkt, now, s', reply, RequestedIp(pkt));
    }
    RepliesAgreeWithTable(cfg, s, pkt, now, s', reply);
    WhatIsGiven(cfg, s, pkt, now, s', reply);
  }

  lemma OutsideIsKept(cfg: Config, s: State, c: Mac, a: nat)
    requires Validated(cfg) && InSpace(s) && HoldsOnly(s.leases, c, a) && !InPool(PolicyOf(cfg), a)
    ensures AlwaysReceives(cfg, s, c, a)
  {
    hide ServerStep, ReleasedBy, Understood, InSpace, Speaks, Grants;
    forall ss: seq<State>, dgs: seq<Datagram>, replies: seq<Option<Packet>> |
      var evs := Understood(dgs);
      IsRun(cfg, ss, evs, replies) && ss[0] == s && ClockRuns(evs) && NeverReleases(cfg, evs, c)
      ensures AllGrant(Understood(dgs), replies, c, a)
    {
      var evs := Understood(dgs);
      forall i | 0 <= i < |evs| && Speaks(evs[i].pkt, c)
        ensures Grants(replies[i], a)
      {
        RunKeepsOnly(cfg, ss, evs, replies, c, a, i);
        RunInSpace(cfg, ss, evs, replies, i);
        SpeaksForItself(evs[i].pkt, c);
        assert ServerStep(cfg, ss[i], evs[i].pkt, evs[i].now, ss[i + 1], replies[i]);
        HolderIsGranted(cfg, ss[i], evs[i].pkt, evs[i].now, ss[i + 1], replies[i], a);
      }
    }
  }

  lemma SpeaksForItself(pkt: Packet, c: Mac)
    requires Speaks(pkt, c)
    ensures pkt.chaddr == c && Speaks(pkt, pkt.chaddr)
  {
  }

  // ----- Inside the pool -----

  /** Once a stranger holds `a`, the Request of its former holder is refused. */
  lemma FormerHolderIsRefused(cfg: Config, s: State, c: Mac, a: Ip4, now: Time, s': State, reply: Option<Packet>)
    requires Validated(cfg) && InSpace(s) && IsCurrent(s.leases, c, None) && a in s.leases
    requires s.leases[a].expiry.Some? && now <= s.leases[a].expiry.value
    requires ServerStep(cfg, s, RequestFor(c, a), now, s', reply)
    ensures Speaks(RequestFor(c, a), c) && !Grants(reply, a)
  {
    hide ServerStep, TypeOf, InSpace, RequestFor, RequestedIp;
    RequestForIs(c, a);
    AsksForIff(RequestFor(c, a), a);
    NakIffUnavailable(cfg, s, RequestFor(c, a), now, s', reply, a);
  }

  /** A stranger takes an address of the pool, and its holder is then refused. */
  lemma InsideIsLost(cfg: Config, s: State, c: Mac, a: Ip4)
    requires Validated(cfg) && InSpace(s) && HoldsOnly(s.leases, c, a) && InPool(PolicyOf(cfg), a)
    ensures !AlwaysReceives(cfg, s, c, a)
  {
    hide ServerStep, ReleasedBy, Understood, InSpace, RequestFor, RequestAt, Grants, Speaks, TypeOf;
    var now := if s.leases[a].expiry.Some? then s.leases[a].expiry.value + 1 else 0;
    var d := StrangerExists(s, c);
    var s1, taken := Takeover(cfg, s, d, a, now);
    RequestForIs(d, a);
    RequestForIs(c, a);
    TakeoverOutcome(cfg, s, c, d, a, now, s1, taken);
    StepExists(cfg, s1, RequestFor(c, a), now);
    var s2, refused :| ServerStep(cfg, s1, RequestFor(c, a), now, s2, refused);
    FormerHolderIsRefused(cfg, s1, c, a, now, s2, refused);
    var ss, replies := [s, s1, s2], [taken, refused];
    var dgs := [RequestAt(d, a, now), RequestAt(c, a, now)];
    BothReceived(d, c, a, now);
    var evs := Understood(dgs);
    assert IsRun(cfg, ss, evs, replies);
    RequestIsNoRelease(cfg, d, a, c);
    RequestIsNoRelease(cfg, c, a, c);
    assert NeverReleases(cfg, evs, c) && ClockRuns(evs);
    assert Speaks(evs[1].pkt, c) && !Grants(replies[1], a);
  }

  lemma BothReceived(d: Mac, c: Mac, a: Ip4, now: Time)
    ensures Understood([RequestAt(d, a, now), RequestAt(c, a, now)]) ==
            [Event(RequestFor(d, a), now), Event(RequestFor(c, a), now)]
  {
    hide Decoded, RequestFor, Wire;
    RequestIsReceived(d, a, now);
    RequestIsReceived(c, a, now);
    var dgs := [RequestAt(d, a, now), RequestAt(c, a, now)];
    assert dgs[1..] == [RequestAt(c, a, now)];
  }

  lemma RequestIsNoRelease(cfg: Config, d: Mac, a: Ip4, c: Mac)
    ensures !ReleasedBy(cfg, RequestFor(d, a), c)
  {
    RequestForIs(d, a);
  }

  /** After the takeover the stranger's lease is timed, and the former holder holds nothing. */
  lemma TakeoverOutcome(cfg: Config, s: State, c: Mac, d: Mac, a: Ip4, now: Time, s': State, reply: Option<Packet>)
    requires ServerStep(cfg, s, RequestFor(d, a), now, s', reply) && Validated(cfg) && InSpace(s)
    requires HoldsOnly(s.leases, c, a) && d != c && IsCurrent(s.leases, d, None) && Holds(s'.leases, d, a)
    ensures InSpace(s') && IsCurrent(s'.leases, c, None)
    ensures s'.leases[a].expiry.Some? && now <= s'.leases[a].expiry.value
  {
    hide ServerStep, InSpace, TypeOf;
    RequestForIs(d, a);
    RepliesAgreeWithTable(cfg, s, RequestFor(d, a), now, s', reply);
    NewLeaseIsTimed(cfg, s, RequestFor(d, a), now, s', reply, a);
    forall b | b in s'.leases
      ensures s'.leases[b].client != c
    {
      if s'.leases[b].client == c && !(b in s.leases && s.leases[b].client == c) {
        NewLeaseIsTimed(cfg, s, RequestFor(d, a), now, s', reply, b);
      }
    }
  }

  // ----- The promise -----

  /**
   The exact condition: a client that holds one address always receives it, unless it releases it, iff
   the address lies outside the pool; permanent or not makes no difference.
   */
  lemma SameAddressIff(cfg: Config, s: State, c: Mac, a: Ip4)
    requires Validated(cfg) && InSpace(s) && HoldsOnly(s.leases, c, a)
    ensures AlwaysReceives(cfg, s, c, a) <==> !InPool(PolicyOf(cfg), a)
  {
    hide AlwaysReceives, InSpace, HoldsOnly;
    if InPool(PolicyOf(cfg), a) {
      InsideIsLost(cfg, s, c, a);
    } else {
      OutsideIsKept(cfg, s, c, a);
    }
  }

  /** So for every line of an unambiguous leases file that decides its address. */
  lemma ReservationIsKeptIff(cfg: Config, lines: seq<(Mac, Ip4)>, i: nat)
    requires Validated(cfg) && Unambiguous(lines) && LastAtAddress(lines, i)
    ensures AlwaysReceives(cfg, Reserved(lines), lines[i].0, lines[i].1) <==> !InPool(PolicyOf(cfg), lines[i].1)
  {
    hide AlwaysReceives, Unambiguous, Reserved, InSpace;
    ReservedIsExactIff(lines);
    LastLineHolds(lines, i);
    ReservedInSpace(lines);
    SameAddressIff(cfg, Reserved(lines), lines[i].0, lines[i].1);
  }

  // ----- Several addresses -----

  function TwoLines(m: Mac, x: Ip4, y: Ip4): seq<(Mac, Ip4)> {
    [(m, x), (m, y)]
  }

  lemma TwoLinesReserved(m: Mac, x: Ip4, y: Ip4)
    requires x != y
    ensures var l := Lease(m, None, None);
            Reserved(TwoLines(m, x, y)) == State(map[x := l, y := l], map[m := y], 0)
  {
    var lines := TwoLines(m, x, y);
    var first := lines[..1];
    assert first == [(m, x)] && first[..0] == [];
    assert Reserved(first) == InsertSpec(Reserved([]), x, m, None, None);
    assert Reserved(lines) == InsertSpec(Reserved(first), y, m, None, None);
  }

  /** A Request without a host name from a client whose lookup is decided is acknowledged with that address. */
  lemma RequestGrants(cfg: Config, s: State, c: Mac, a: Ip4, now: Time, s': State, reply: Option<Packet>, held: nat)
    requires ServerStep(cfg, s, RequestFor(c, a), now, s', reply) && held < ADDRESS_SPACE && Holds(s.leases, c, held)
    requires forall cur :: IsCurrent(s.leases, c, cur) && Hinted(s, c, cur) ==> cur == Some(held)
    ensures s' == s && Grants(reply, held)
  {
    hide Lend, IsCurrent, Hinted, Echoes;
    RequestForIs(c, a);
    var cur: Option<nat>, other: Option<nat> :| StepWith(cfg, s, RequestFor(c, a), now, cur, other, s', reply);
    assert RequestFor(c, a).options[1..] == [];
    LendKind(cfg, Ack, RequestFor(c, a), held);
  }

  /**
   A file that breaks the promise for a client, although its first address lies outside the pool and is
   never touched: of two addresses it receives the last one named, and once a stranger has taken that
   one, the other. Every run over these three Requests goes this way.
   */
  lemma TwoAddresses(
      cfg: Config, m: Mac, d: Mac, x: Ip4, y: Ip4, now: Time, ss: seq<State>, replies: seq<Option<Packet>>)
    requires Validated(cfg) && m != d && !InPool(PolicyOf(cfg), x) && InPool(PolicyOf(cfg), y)
    requires IsRun(cfg, ss, Understood(ThreeRequests(m, d, x, y, now)), replies)
    requires ss[0] == Reserved(TwoLines(m, x, y))
    ensures |replies| == 3 && Grants(replies[0], y) && Grants(replies[1], y) && Grants(replies[2], x)
  {
    hide ServerStep, RequestFor, Reserved, TwoLines, Understood, ThreeRequests;
    ThreeReceived(m, d, x, y, now);
    var evs := Understood(ThreeRequests(m, d, x, y, now));
    assert ServerStep(cfg, ss[0], evs[0].pkt, evs[0].now, ss[0 + 1], replies[0]);
    assert ServerStep(cfg, ss[1], evs[1].pkt, evs[1].now, ss[1 + 1], replies[1]);
    assert ServerStep(cfg, ss[2], evs[2].pkt, evs[2].now, ss[2 + 1], replies[2]);
    TwoLinesReserved(m, x, y);
    RequestGrants(cfg, ss[0], m, x, now, ss[1], replies[0], y);
    StrangerTakesSecond(cfg, m, d, x, y, now, ss[1], ss[2], replies[1]);
    RequestGrants(cfg, ss[2], m, x, now, ss[3], replies[2], x);
  }

  function ThreeRequests(m: Mac, d: Mac, x: Ip4, y: Ip4, now: Time): seq<Datagram> {
    [RequestAt(m, x, now), RequestAt(d, y, now), RequestAt(m, x, now)]
  }

  lemma ThreeReceived(m: Mac, d: Mac, x: Ip4, y: Ip4, now: Time)
    ensures Understood(ThreeRequests(m, d, x, y, now)) ==
            [Event(RequestFor(m, x), now), Event(RequestFor(d, y), now), Event(RequestFor(m, x), now)]
  {
    hide Decoded, RequestFor, Wire;
    RequestIsReceived(m, x, now);
    RequestIsReceived(d, y, now);
    var dgs := ThreeRequests(m, d, x, y, now);
    assert dgs[1..] == [RequestAt(d, y, now), RequestAt(m, x, now)];
    assert dgs[1..][1..] == [RequestAt(m, x, now)];
  }

  lemma StrangerTakesSecond(
      cfg: Config, m: Mac, d: Mac, x: Ip4, y: Ip4, now: Time, s: State, s': State, reply: Option<Packet>)
    requires m != d && x != y && InPool(PolicyOf(cfg), y)
    requires var l := Lease(m, None, None); s == State(map[x := l, y := l], map[m := y], 0)
    requires ServerStep(cfg, s, RequestFor(d, y), now, s', reply)
    ensures Grants(reply, y)
    ensures Holds(s'.leases, m, x) && forall cur :: IsCurrent(s'.leases, m, cur) ==> cur == Some(x)
  {
    hide Lend, Echoes;
    RequestForIs(d, y);
    var cur: Option<nat>, other: Option<nat> :| StepWith(cfg, s, RequestFor(d, y), now, cur, other, s', reply);
    LendKind(cfg, Ack, RequestFor(d, y), y);
    assert s'.leases.Keys == {x, y};
    assert Holds(s'.leases, m, x);
  }
}
