/**
 The lease time an Offer or Ack advertises, against what the DHCPv4 service records.

 A renewal is acknowledged with a full lease time while the recorded expiry stays as it was, so the
 promise that an address is not given to somebody else before its lease time is over is not always
 kept. `PromiseKeptIff` gives the exact condition, `RenewalIsNotRecorded` shows it failing.

 A lease time of n seconds given at `now` runs through the instant `now` + n seconds; with a
 lease time of zero it is the instant `now` itself, and the same condition applies.
 */
module Dhcpv4Lifetimes {
  import opened Wrappers
  import opened Bytes
  import opened Leases
  import opened SlotStore
  import opened Dhcpv4Options
  import opened Dhcpv4Packet
  import opened OptionFilter
  import opened Dhcpv4Reply
  import opened Dhcpv4Server
  import opened Dhcpv4Runs

  // ----- What a reply gives -----

  /** The lease time a reply advertises. */
  function Advertised(r: Packet): Option<u32> {
    match FirstWithCode(r.options, IP_ADDRESS_LEASE_TIME)
    case Some(IpAddressLeaseTime(secs)) => Some(secs)
    case _ => None
  }

  /** A reply that gives an address: an Offer or an Ack. */
  predicate Gives(reply: Option<Packet>) {
    reply.Some? && TypeOf(reply.value.options) != Some(Nak)
  }

  lemma LendAdvertises(cfg: Config, kind: MessageType, pkt: Packet, ip: nat)
    ensures Advertised(Lend(cfg, kind, pkt, ip)) == Some(cfg.offer.leaseSecs)
  {
    hide Filtered, Distinct, Mandatory;
    var full := FullOptions(cfg.offer.serverIp, kind, OfferOptions(cfg.offer));
    assert full[1..][1..][0] == full[2];
    assert FirstWithCode(full, IP_ADDRESS_LEASE_TIME) == FirstWithCode(full[1..], IP_ADDRESS_LEASE_TIME) ==
           FirstWithCode(full[1..][1..], IP_ADDRESS_LEASE_TIME) == Some(full[2]);
    match FirstWithCode(pkt.options, PARAMETER_REQUEST_LIST) {
      case Some(ParameterRequestList(prl)) =>
        FullOptionsDistinct(cfg.offer, kind);
        LeaseTimeIsMandatory(prl);
        FilterKeepsLookup(full, prl, IP_ADDRESS_LEASE_TIME);
      case _ =>
    }
  }

  lemma LeaseTimeIsMandatory(prl: seq<byte>)
    ensures IP_ADDRESS_LEASE_TIME in prl + Mandatory()
  {
    assert (prl + Mandatory())[|prl| + 3] == IP_ADDRESS_LEASE_TIME;
  }

  /**
   An Offer or Ack advertises the configured lease time. It gives a client an address it holds, and
   then changes no owner and no expiry; or, to a client that holds none, an address available to it.
   */
  lemma WhatIsGiven(cfg: Config, s: State, pkt: Packet, now: Time, s': State, reply: Option<Packet>)
    requires ServerStep(cfg, s, pkt, now, s', reply) && Validated(cfg) && InSpace(s) && Gives(reply)
    ensures Advertised(reply.value) == Some(cfg.offer.leaseSecs)
    ensures if IsCurrent(s.leases, pkt.chaddr, None)
            then Available(PolicyOf(cfg), s.leases, pkt.chaddr, now, reply.value.yiaddr)
            else Holds(s.leases, pkt.chaddr, reply.value.yiaddr) && SameOwners(s, s')
  {
    hide InsertSpec, RemoveSpec, RememberSpec, DiscoverSpec, Lend, Refuse, TypeOf, HostNameOf, IsRapid;
    hide Available, RequestedIp, ForThisServer, InSpace, SameOwners, Advertised, Echoes;
    var cur: Option<nat>, other: Option<nat> :| StepWith(cfg, s, pkt, now, cur, other, s', reply);
    RefuseKind(cfg, pkt);
    var kind := if TypeOf(pkt.options) == Some(Discover) && !IsRapid(cfg, pkt) then Offer else Ack;
    if cur.Some? {
      CurrentInSpace(s, pkt.chaddr, cur);
      LendKind(cfg, kind, pkt, cur.value);
      LendAdvertises(cfg, kind, pkt, cur.value);
      RememberOutcome(s, cur.value, HostNameOf(pkt));
    } else if TypeOf(pkt.options) == Some(Discover) {
      PickOutcome(cfg, s, pkt.chaddr, now);
      var pick := DiscoverSpec(PolicyOf(cfg), Table(s.leases, s.last), None, now).1;
      LendKind(cfg, kind, pkt, pick.value);
      LendAdvertises(cfg, kind, pkt, pick.value);
    } else {
      LendKind(cfg, kind, pkt, RequestedIp(pkt));
      LendAdvertises(cfg, kind, pkt, RequestedIp(pkt));
    }
  }

  lemma CurrentInSpace(s: State, mac: Mac, cur: Option<nat>)
    requires InSpace(s) && IsCurrent(s.leases, mac, cur)
    ensures cur.Some? ==> cur.value < ADDRESS_SPACE
  {
  }

  // ----- The promise -----

  /** Packets handled between the two instants, none of them a Release or Decline of `c` to this server. */
  ghost predicate Within(cfg: Config, evs: seq<Event>, c: Mac, from: Time, until: Time) {
    && ClockRuns(evs)
    && (forall i :: 0 <= i < |evs| ==> from <= evs[i].now <= until)
    && (forall i :: 0 <= i < |evs| ==> !ReleasedBy(cfg, evs[i].pkt, c))
  }

  predicate NotOthers(m: map<nat, Lease4>, c: Mac, a: nat) {
    a in m ==> m[a].client == c
  }

  /**
   In every run from `s` over datagrams received within that time, in which `c` does not release,
   nobody else comes to hold `a`.
   */
  ghost predicate Safe(cfg: Config, s: State, c: Mac, a: nat, from: Time, until: Time) {
    forall ss: seq<State>, dgs: seq<Datagram>, replies: seq<Option<Packet>> ::
      var evs := Understood(dgs);
      IsRun(cfg, ss, evs, replies) && ss[0] == s && Within(cfg, evs, c, from, until) ==>
        NotOthers(ss[|evs|].leases, c, a)
  }

  /** A lease that is firm to the end of that time is safe. */
  lemma FirmIsSafe(cfg: Config, s: State, c: Mac, a: nat, from: Time, until: Time)
    requires Holds(s.leases, c, a) && Firm(PolicyOf(cfg), s.leases[a], a, until)
    ensures Safe(cfg, s, c, a, from, until)
  {
    hide ServerStep, ReleasedBy, Understood;
    forall ss: seq<State>, dgs: seq<Datagram>, replies: seq<Option<Packet>> |
      IsRun(cfg, ss, Understood(dgs), replies) && ss[0] == s && Within(cfg, Understood(dgs), c, from, until)
      ensures NotOthers(ss[|Understood(dgs)|].leases, c, a)
    {
      LeaseSafety(cfg, ss, Understood(dgs), replies, 0, |Understood(dgs)|, a);
    }
  }

  /** Distinct client names, for counting. */
  function Macs(n: nat): (names: seq<Mac>)
    ensures |names| == n && forall i :: 0 <= i < n ==> names[i] == BigEndian(i, 6)
  {
    seq(n, i requires 0 <= i < n => BigEndian(i, 6))
  }

  lemma MacsDiffer(n: nat)
    requires n <= Power256(6)
    ensures NoRepeats(Macs(n))
  {
    hide BigEndian, Power256;
    forall i, j | 0 <= i < j < n
      ensures Macs(n)[i] != Macs(n)[j]
    {
      EncodingsDiffer(6, i, j);
    }
  }

  /** There is always a client other than `c` that holds nothing. */
  lemma StrangerExists(s: State, c: Mac) returns (d: Mac)
    requires InSpace(s)
    ensures d != c && IsCurrent(s.leases, d, None)
  {
    hide IsCurrent, NoRepeats, Macs;
    var n := ADDRESS_SPACE + 2;
    SizeBelow(s.leases, ADDRESS_SPACE);
    Widths();
    assert n < Power256(6) by {
      assert Power256(6) == 256 * (256 * Power256(4));
    }
    MacsDiffer(n);
    d := SomeoneHoldsNone(s.leases, {c}, Macs(n));
  }

  /** In the pool, and free or lapsed. */
  predicate Open(cfg: Config, s: State, a: nat, now: Time) {
    InPool(PolicyOf(cfg), a) && (a in s.leases ==> Lapsed(PolicyOf(cfg), s.leases[a], now))
  }

  /** Where a pool address is free or lapsed at some instant of that time, a stranger takes it then. */
  lemma LapsedIsUnsafe(cfg: Config, s: State, c: Mac, a: Ip4, from: Time, at: Time, until: Time)
    requires InSpace(s) && Open(cfg, s, a, at)
    requires from <= at <= until
    ensures !Safe(cfg, s, c, a, from, until)
  {
    hide ServerStep, ReleasedBy, RequestFor, RequestAt, Understood, Decoded;
    var d := StrangerExists(s, c);
    var s', reply := Takeover(cfg, s, d, a, at);
    var ss, dgs, replies := [s, s'], [RequestAt(d, a, at)], [reply];
    RequestIsReceived(d, a, at);
    RequestForIs(d, a);
    NotReleasedBy(cfg, RequestFor(d, a), c);
    var evs := Understood(dgs);
    assert IsRun(cfg, ss, evs, replies);
    assert Within(cfg, evs, c, from, until);
    assert !NotOthers(ss[|evs|].leases, c, a);
  }

  lemma NotReleasedBy(cfg: Config, pkt: Packet, c: Mac)
    requires pkt.chaddr != c
    ensures !ReleasedBy(cfg, pkt, c)
  {
  }

  /** The packet commits the address its reply gives: a Request, or a Discover with rapid commit. */
  predicate Commits(cfg: Config, pkt: Packet) {
    TypeOf(pkt.options) == Some(Request) || IsRapid(cfg, pkt)
  }

  /** The record of `a` outlives `until`, or needs not: addresses outside the pool are given to nobody else. */
  predicate Outlives(cfg: Config, s: State, a: nat, until: Time) {
    a in s.leases && (!InPool(PolicyOf(cfg), a) || (s.leases[a].expiry.Some? && until <= s.leases[a].expiry.value))
  }

  /**
   The exact condition: an address given with a lease time is safe from other clients for that time,
   unless its client releases it, iff the client held no lease and the packet committed this one, or
   the lease it held is recorded to last as long, or lies outside the pool.
   */
  lemma PromiseKeptIff(cfg: Config, s: State, pkt: Packet, now: Time, s': State, reply: Option<Packet>)
    requires ServerStep(cfg, s, pkt, now, s', reply) && Validated(cfg) && InSpace(s) && Gives(reply)
    ensures Advertised(reply.value) == Some(cfg.offer.leaseSecs)
    ensures Safe(cfg, s', pkt.chaddr, reply.value.yiaddr, now, now + DurationOf(cfg)) <==>
            if IsCurrent(s.leases, pkt.chaddr, None) then Commits(cfg, pkt)
            else Outlives(cfg, s, reply.value.yiaddr, now + DurationOf(cfg))
  {
    hide ServerStep, Safe, Advertised, TypeOf, IsRapid, Echoes, InSpace;
    var c, a, until := pkt.chaddr, reply.value.yiaddr, now + DurationOf(cfg);
    WhatIsGiven(cfg, s, pkt, now, s', reply);
    RepliesAgreeWithTable(cfg, s, pkt, now, s', reply);
    if !IsCurrent(s.leases, c, None) {
      HolderPromise(cfg, s', c, a, now);
    } else if Commits(cfg, pkt) {
      NewLeaseIsTimed(cfg, s, pkt, now, s', reply, a);
      FirmIsSafe(cfg, s', c, a, now, until);
    } else {
      LapsedIsUnsafe(cfg, s', c, a, now, now, until);
    }
  }

  lemma HolderPromise(cfg: Config, s: State, c: Mac, a: Ip4, now: Time)
    requires InSpace(s) && Holds(s.leases, c, a)
    ensures Safe(cfg, s, c, a, now, now + DurationOf(cfg)) <==> Outlives(cfg, s, a, now + DurationOf(cfg))
  {
    hide Safe, InSpace;
    var until := now + DurationOf(cfg);
    if Outlives(cfg, s, a, until) {
      FirmIsSafe(cfg, s, c, a, now, until);
    } else {
      var expiry := s.leases[a].expiry;
      var at := if expiry.Some? && expiry.value >= now then expiry.value + 1 else now;
      LapsedIsUnsafe(cfg, s, c, a, now, at, until);
    }
  }

  /**
   The failure: the Request of a client that holds a lease is acknowledged with the full lease time and
   leaves the expiry as it was; from the instant after it on, if the address is in the pool, a Request
   of any client without a lease takes it, although the advertised time may have long to go.
   */
  lemma RenewalIsNotRecorded(
      cfg: Config, s: State, pkt: Packet, now: Time, s': State, reply: Option<Packet>, d: Mac, later: Time)
    requires ServerStep(cfg, s, pkt, now, s', reply) && Validated(cfg) && InSpace(s)
    requires TypeOf(pkt.options) == Some(Request) && !IsCurrent(s.leases, pkt.chaddr, None)
    ensures reply.Some? && TypeOf(reply.value.options) == Some(Ack)
    ensures Advertised(reply.value) == Some(cfg.offer.leaseSecs)
    ensures var a := reply.value.yiaddr;
            && Holds(s.leases, pkt.chaddr, a) && Holds(s'.leases, pkt.chaddr, a)
            && s'.leases[a].expiry == s.leases[a].expiry
            && (Open(cfg, s, a, later) && IsCurrent(s'.leases, d, None) ==>
                  exists s'': State, ack: Option<Packet> :: Takes(cfg, s', d, a, RequestAt(d, a, later), s'', ack))
  {
    hide ServerStep, Advertised, TypeOf, IsRapid, Echoes, InSpace;
    AsksForIff(pkt, RequestedIp(pkt));
    NakIffUnavailable(cfg, s, pkt, now, s', reply, RequestedIp(pkt));
    RepliesAgreeWithTable(cfg, s, pkt, now, s', reply);
    WhatIsGiven(cfg, s, pkt, now, s', reply);
    var a := reply.value.yiaddr;
    if Open(cfg, s, a, later) && IsCurrent(s'.leases, d, None) {
      var _, _ := Takeover(cfg, s', d, a, later);
    }
  }

  // ----- Over runs of the service -----

  /** The lease was made by this packet: its sender's, and timed from its clock reading. */
  predicate MadeBy(cfg: Config, l: Lease4, e: Event) {
    e.pkt.chaddr == l.client && l.expiry == Some(e.now + DurationOf(cfg))
  }

  /** A lease that changes owner or expiry in a step was made by that packet. */
  lemma ChangedIsMade(cfg: Config, s: State, e: Event, s': State, reply: Option<Packet>, a: nat)
    requires ServerStep(cfg, s, e.pkt, e.now, s', reply) && a in s'.leases
    requires !(a in s.leases && s.leases[a].client == s'.leases[a].client && s.leases[a].expiry == s'.leases[a].expiry)
    ensures MadeBy(cfg, s'.leases[a], e)
  {
    hide Lend, Refuse, TypeOf, HostNameOf, IsRapid, RequestedIp, ForThisServer, DiscoverSpec, Available;
    hide IndexAfterInsert;
    var cur, other :| StepWith(cfg, s, e.pkt, e.now, cur, other, s', reply);
  }

  lemma {:induction false} ReservedAreInfinite(lines: seq<(Mac, Ip4)>)
    ensures forall a :: a in Reserved(lines).leases ==> Reserved(lines).leases[a].expiry == None
  {
    if lines != [] {
      ReservedAreInfinite(lines[..|lines| - 1]);
    }
  }

  /** Every timed lease of the service was made by one of the packets handled so far. */
  lemma {:induction false} TimedIsMade(
      cfg: Config, lines: seq<(Mac, Ip4)>, ss: seq<State>, evs: seq<Event>, replies: seq<Option<Packet>>,
      i: nat, a: nat)
    returns (k: nat)
    requires IsRun(cfg, ss, evs, replies) && ss[0] == Reserved(lines) && i <= |evs|
    requires a in ss[i].leases && ss[i].leases[a].expiry.Some?
    ensures k < i && MadeBy(cfg, ss[i].leases[a], evs[k])
  {
    hide ServerStep, Reserved;
    if i == 0 {
      ReservedAreInfinite(lines);
      assert false;
    }
    k := i - 1;
    assert ServerStep(cfg, ss[k], evs[k].pkt, evs[k].now, ss[k + 1], replies[k]);
    var s := ss[k];
    if a in s.leases && s.leases[a].client == ss[i].leases[a].client && s.leases[a].expiry == ss[i].leases[a].expiry {
      k := TimedIsMade(cfg, lines, ss, evs, replies, k, a);
    } else {
      ChangedIsMade(cfg, s, evs[k], ss[i], replies[k], a);
    }
  }

  /**
   The same over every run of the service on received datagrams, in terms of the run: what step `i`
   gives is safe for the lease time it advertises iff its client held no lease and the packet committed
   this one, or the lease was made at the same clock reading, or the address lies outside the pool.
   */
  lemma ServicePromiseIff(
      cfg: Config, lines: seq<(Mac, Ip4)>, ss: seq<State>, dgs: seq<Datagram>, replies: seq<Option<Packet>>, i: nat)
    requires var evs := Understood(dgs);
             IsRun(cfg, ss, evs, replies) && ss[0] == Reserved(lines) && ClockRuns(evs) && Validated(cfg)
    requires i < |Understood(dgs)| && Gives(replies[i])
    ensures var evs := Understood(dgs);
            var e, a, m := evs[i], replies[i].value.yiaddr, ss[i].leases;
            Safe(cfg, ss[i + 1], e.pkt.chaddr, a, e.now, e.now + DurationOf(cfg)) <==>
            if IsCurrent(m, e.pkt.chaddr, None) then Commits(cfg, e.pkt)
            else !InPool(PolicyOf(cfg), a) ||
                 (a in m && exists k :: 0 <= k < i && evs[k].now == e.now && MadeBy(cfg, m[a], evs[k]))
  {
    hide ServerStep, Reserved, Safe, InSpace, Commits, IsCurrent, Understood;
    var evs := Understood(dgs);
    var e, a := evs[i], replies[i].value.yiaddr;
    ReservedInSpace(lines);
    RunInSpace(cfg, ss, evs, replies, i);
    assert ServerStep(cfg, ss[i], e.pkt, e.now, ss[i + 1], replies[i]);
    PromiseKeptIff(cfg, ss[i], e.pkt, e.now, ss[i + 1], replies[i]);
    WhatIsGiven(cfg, ss[i], e.pkt, e.now, ss[i + 1], replies[i]);
    if a in ss[i].leases && ss[i].leases[a].expiry.Some? {
      var k := TimedIsMade(cfg, lines, ss, evs, replies, i, a);
      assert evs[k].now <= e.now;
    }
  }

  // ----- Exclusive use -----

  /** While a lease is firm and not released, its address is neither offered nor acknowledged to anybody else. */
  lemma FirmIsExclusive(
      cfg: Config, ss: seq<State>, evs: seq<Event>, replies: seq<Option<Packet>>, i: nat, j: nat, a: nat)
    requires IsRun(cfg, ss, evs, replies) && ClockRuns(evs) && Validated(cfg) && InSpace(ss[0])
    requires i <= j < |evs| && a in ss[i].leases && Firm(PolicyOf(cfg), ss[i].leases[a], a, evs[j].now)
    requires forall k :: i <= k < j ==> !ReleasedBy(cfg, evs[k].pkt, ss[i].leases[a].client)
    requires evs[j].pkt.chaddr != ss[i].leases[a].client && Gives(replies[j])
    ensures replies[j].value.yiaddr != a
  {
    hide ServerStep, ReleasedBy, InSpace, TypeOf;
    assert j > i ==> evs[j - 1].now <= evs[j].now;
    LeaseSafety(cfg, ss, evs, replies, i, j, a);
    RunInSpace(cfg, ss, evs, replies, j);
    assert ServerStep(cfg, ss[j], evs[j].pkt, evs[j].now, ss[j + 1], replies[j]);
    WhatIsGiven(cfg, ss[j], evs[j].pkt, evs[j].now, ss[j + 1], replies[j]);
  }

  /**
   Exclusive use, in the replies of a run: after an Ack that makes a new lease, no other client is
   offered or acknowledged that address through its whole lease time, unless its client releases it.
   */
  lemma NewLeaseIsExclusive(
      cfg: Config, ss: seq<State>, evs: seq<Event>, replies: seq<Option<Packet>>, i: nat, j: nat)
    requires IsRun(cfg, ss, evs, replies) && ClockRuns(evs) && Validated(cfg) && InSpace(ss[0])
    requires i < j < |evs| && Gives(replies[i]) && Gives(replies[j])
    requires IsCurrent(ss[i].leases, evs[i].pkt.chaddr, None) && Commits(cfg, evs[i].pkt)
    requires evs[j].now <= evs[i].now + DurationOf(cfg)
    requires forall k :: i < k < j ==> !ReleasedBy(cfg, evs[k].pkt, evs[i].pkt.chaddr)
    requires evs[j].pkt.chaddr != evs[i].pkt.chaddr
    ensures replies[j].value.yiaddr != replies[i].value.yiaddr
  {
    hide ServerStep, ReleasedBy, InSpace, TypeOf, IsRapid, Echoes;
    var e, a := evs[i], replies[i].value.yiaddr;
    RunInSpace(cfg, ss, evs, replies, i);
    assert ServerStep(cfg, ss[i], e.pkt, e.now, ss[i + 1], replies[i]);
    RepliesAgreeWithTable(cfg, ss[i], e.pkt, e.now, ss[i + 1], replies[i]);
    NewLeaseIsTimed(cfg, ss[i], e.pkt, e.now, ss[i + 1], replies[i], a);
    FirmIsExclusive(cfg, ss, evs, replies, i + 1, j, a);
  }
}
