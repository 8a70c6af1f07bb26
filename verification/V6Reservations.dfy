/**
 What a client with a permanent address receives from the DHCPv6 service, over every run.
 */
module Dhcpv6Reservations {
  import opened Wrappers
  import opened Leases
  import opened DhcpV6Pool
  import opened Codec = Dhcpv6Codec
  import opened Dhcpv6Server
  import opened Dhcpv6Runs
  import opened Dhcpv6Lifetimes

  /** A Solicit of `c`, or a Request, Renew or Rebind of `c` that asks for an address. */
  predicate Asks(dg: Datagram, c: Duid) {
    match Understood(dg)
    case None => false
    case Some((p, d)) => d == c && (p.msgType == Solicit || (p.msgType in {Request, Renew, Rebind} && Wanted(p).Some?))
  }

  predicate Grants(reply: Option<Packet>, a: nat) {
    reply.Some? && Given(reply.value) == Some(a)
  }

  /** `c` is given `a` whenever it asks. */
  ghost predicate AllGrant(dgs: seq<Datagram>, replies: seq<Option<Packet>>, c: Duid, a: nat)
    requires |replies| == |dgs|
  {
    forall i :: 0 <= i < |dgs| && Asks(dgs[i], c) ==> Grants(replies[i], a)
  }

  ghost predicate NeverReleases(cfg: Config, dgs: seq<Datagram>, c: Duid) {
    forall i :: 0 <= i < |dgs| ==> !ReleasedBy(cfg, dgs[i], c)
  }

  /** In every run from `t` in which `c` does not release, `c` is given `a` whenever it asks. */
  ghost predicate AlwaysReceives(cfg: Config, t: Table6, c: Duid, a: nat) {
    forall ts: seq<Table6>, dgs: seq<Datagram>, replies: seq<Option<Packet>> ::
      IsRun(cfg, ts, dgs, replies) && ts[0] == t && ClockRuns(dgs) && NeverReleases(cfg, dgs, c) ==>
        AllGrant(dgs, replies, c, a)
  }

  /** Never given to anybody else: permanent, or outside the range. */
  predicate Lasting(cfg: Config, t: Table6, a: nat) {
    a in t.leases && (t.leases[a].expiry.None? || !InPool(PolicyOf(cfg), a))
  }

  // ----- Lasting leases -----

  /** A client that holds an address gets no other, as long as it keeps that one. */
  lemma StepKeepsOnly(cfg: Config, t: Table6, dg: Datagram, t': Table6, reply: Option<Packet>, c: Duid, a: nat)
    requires ServerStep(cfg, t, dg, t', reply) && HoldsOnly(t.leases, c, a) && Holds(t'.leases, c, a)
    ensures HoldsOnly(t'.leases, c, a)
  {
    hide ServerStep, Understood, IsRapid;
    forall b | b in t'.leases && t'.leases[b].client == c
      ensures b == a
    {
      if !(b in t.leases && t.leases[b] == t'.leases[b]) {
        NewLeaseIsTimed(cfg, t, dg, t', reply, b);
      }
    }
  }

  lemma {:induction false} RunKeepsOnly(
      cfg: Config, ts: seq<Table6>, dgs: seq<Datagram>, replies: seq<Option<Packet>>, c: Duid, a: nat, k: nat)
    requires IsRun(cfg, ts, dgs, replies) && ClockRuns(dgs) && NeverReleases(cfg, dgs, c) && k <= |dgs|
    requires HoldsOnly(ts[0].leases, c, a) && Lasting(cfg, ts[0], a)
    ensures HoldsOnly(ts[k].leases, c, a)
  {
    hide ServerStep, ReleasedBy;
    if k > 0 {
      RunKeepsOnly(cfg, ts, dgs, replies, c, a, k - 1);
      LeaseSafety(cfg, ts, dgs, replies, 0, k, a);
      assert ServerStep(cfg, ts[k - 1], dgs[k - 1], ts[k - 1 + 1], replies[k - 1]);
      StepKeepsOnly(cfg, ts[k - 1], dgs[k - 1], ts[k], replies[k - 1], c, a);
    }
  }

  /** Whoever asks is answered. */
  lemma AskerIsAnswered(cfg: Config, t: Table6, dg: Datagram, t': Table6, reply: Option<Packet>, c: Duid)
    requires ServerStep(cfg, t, dg, t', reply) && Asks(dg, c)
    ensures reply.Some?
  {
    hide RequestSpec, DiscoverSpec, AnswerTo, Understood, Wanted, NoAddress;
    var cur :| StepWith(cfg, t, dg, cur, t', reply);
  }

  /** A client that holds one address is given it when it asks. */
  lemma HolderIsGranted(cfg: Config, t: Table6, dg: Datagram, t': Table6, reply: Option<Packet>, c: Duid, a: nat)
    requires ServerStep(cfg, t, dg, t', reply) && dg.readAt <= dg.commitAt && InSpace(t)
    requires HoldsOnly(t.leases, c, a) && Asks(dg, c)
    ensures Grants(reply, a)
  {
    hide ServerStep, InSpace, Understood, Given, Wanted, Advertised;
    assert !IsCurrent(t.leases, c, None);
    AskerIsAnswered(cfg, t, dg, t', reply, c);
    NothingGivenIff(cfg, t, dg, t', reply);
    WhatIsGiven(cfg, t, dg, t', reply);
  }

  /** A client whose one address is permanent, or outside the range, always receives it unless it releases it. */
  lemma LastingIsKept(cfg: Config, t: Table6, c: Duid, a: nat)
    requires InSpace(t) && HoldsOnly(t.leases, c, a) && Lasting(cfg, t, a)
    ensures AlwaysReceives(cfg, t, c, a)
  {
    hide ServerStep, ReleasedBy, InSpace, Asks, Grants;
    forall ts: seq<Table6>, dgs: seq<Datagram>, replies: seq<Option<Packet>> |
      IsRun(cfg, ts, dgs, replies) && ts[0] == t && ClockRuns(dgs) && NeverReleases(cfg, dgs, c)
      ensures AllGrant(dgs, replies, c, a)
    {
      forall i | 0 <= i < |dgs| && Asks(dgs[i], c)
        ensures Grants(replies[i], a)
      {
        RunKeepsOnly(cfg, ts, dgs, replies, c, a, i);
        RunInvariants(cfg, ts, dgs, replies, i);
        assert ServerStep(cfg, ts[i], dgs[i], ts[i + 1], replies[i]);
        HolderIsGranted(cfg, ts[i], dgs[i], ts[i + 1], replies[i], c, a);
      }
    }
  }

  // ----- The exact condition -----

  /** Once a stranger holds `a`, the Request of its former holder gets nothing. */
  lemma FormerHolderIsRefused(
      cfg: Config, t: Table6, dg: Datagram, c: Duid, a: Addr6, t': Table6, reply: Option<Packet>)
    requires InSpace(t) && IsCurrent(t.leases, c, None) && dg.readAt == dg.commitAt
    requires a in t.leases && !Lapsed(PolicyOf(cfg), t.leases[a], dg.readAt)
    requires Understood(dg) == Some((RequestFor(c, a), c)) && |c| <= LONGEST_DUID
    requires ServerStep(cfg, t, dg, t', reply)
    ensures Asks(dg, c) && !Grants(reply, a)
  {
    hide ServerStep, InSpace, Understood, Given, RequestFor, Wanted, Encodable, Encoded;
    RequestForIs(c, a);
    if reply.Some? {
      NothingGivenIff(cfg, t, dg, t', reply);
    }
  }

  /** A stranger takes an expired address of the range, and its holder is then refused. */
  lemma TimedIsLost(cfg: Config, t: Table6, c: Duid, a: Addr6)
    requires InSpace(t) && HoldsOnly(t.leases, c, a) && !Lasting(cfg, t, a) && |c| <= LONGEST_DUID
    ensures !AlwaysReceives(cfg, t, c, a)
  {
    hide ServerStep, ReleasedBy, Understood, InSpace, RequestFor, Grants, Asks;
    var now := t.leases[a].expiry.value + 1;
    var d := StrangerExists(t, c);
    var dg, t1, taken := Takeover(cfg, t, d, a, now);
    TakeoverOutcome(cfg, t, c, d, a, dg, t1, taken);
    var dg' := RequestDatagram(c, a, now);
    StepExists(cfg, t1, dg');
    var t2, refused :| ServerStep(cfg, t1, dg', t2, refused);
    FormerHolderIsRefused(cfg, t1, dg', c, a, t2, refused);
    var ts, dgs, replies := [t, t1, t2], [dg, dg'], [taken, refused];
    assert IsRun(cfg, ts, dgs, replies);
    NotReleasedBy(cfg, dg, c);
    RequestIsNoRelease(cfg, dg', c, a);
    assert NeverReleases(cfg, dgs, c) && ClockRuns(dgs);
    assert Asks(dgs[1], c) && !Grants(replies[1], a);
  }

  lemma RequestDatagram(c: Duid, a: Addr6, now: Time) returns (dg: Datagram)
    requires |c| <= LONGEST_DUID
    ensures dg.readAt == dg.commitAt == now && Understood(dg) == Some((RequestFor(c, a), c))
  {
    hide Encodable, Encoded, Decoded, ClientOf, Wanted, RequestFor;
    RequestForIs(c, a);
    RoundTrip(RequestFor(c, a));
    dg := Datagram(Encoded(RequestFor(c, a)).value, now, now);
  }

  lemma RequestIsNoRelease(cfg: Config, dg: Datagram, c: Duid, a: Addr6)
    requires Understood(dg) == Some((RequestFor(c, a), c))
    ensures !ReleasedBy(cfg, dg, c)
  {
    hide Understood;
  }

  /** After the takeover the stranger's lease has not lapsed, and the former holder holds nothing. */
  lemma TakeoverOutcome(
      cfg: Config, t: Table6, c: Duid, d: Duid, a: Addr6, dg: Datagram, t': Table6, reply: Option<Packet>)
    requires Takes(cfg, t, d, a, dg, t', reply) && InSpace(t)
    requires HoldsOnly(t.leases, c, a) && d != c && IsCurrent(t.leases, d, None)
    ensures InSpace(t') && IsCurrent(t'.leases, c, None)
    ensures a in t'.leases && !Lapsed(PolicyOf(cfg), t'.leases[a], dg.readAt)
  {
    hide ServerStep, InSpace, Understood, Given;
    RepliesAgreeWithTable(cfg, t, dg, t', reply);
    NewLeaseIsTimed(cfg, t, dg, t', reply, a);
    forall b | b in t'.leases
      ensures t'.leases[b].client != c
    {
      if !(b in t.leases && t.leases[b] == t'.leases[b]) {
        NewLeaseIsTimed(cfg, t, dg, t', reply, b);
      }
    }
  }

  /**
   The exact condition: a client that holds one address always receives it, unless it releases it, iff
   the address is permanent or lies outside the range.
   */
  lemma SameAddressIff(cfg: Config, t: Table6, c: Duid, a: Addr6)
    requires InSpace(t) && HoldsOnly(t.leases, c, a) && |c| <= LONGEST_DUID
    ensures AlwaysReceives(cfg, t, c, a) <==> Lasting(cfg, t, a)
  {
    hide AlwaysReceives, InSpace, HoldsOnly;
    if Lasting(cfg, t, a) {
      LastingIsKept(cfg, t, c, a);
    } else {
      TimedIsLost(cfg, t, c, a);
    }
  }

  // ----- The reservations file -----

  /** Line `i` is the last one to name its address; lines without a DUID are skipped. */
  predicate LastAtAddress(lines: seq<(Duid, Addr6)>, i: nat) {
    && i < |lines| && lines[i].0 != []
    && forall k :: i < k < |lines| && lines[k].0 != [] ==> lines[k].1 != lines[i].1
  }

  lemma {:induction false} LastLineHolds(lines: seq<(Duid, Addr6)>, i: nat)
    requires LastAtAddress(lines, i)
    ensures lines[i].1 in Reserved(lines).leases
    ensures Reserved(lines).leases[lines[i].1] == Lease(lines[i].0, None, ())
  {
    if i < |lines| - 1 {
      LastLineHolds(lines[..|lines| - 1], i);
    }
  }

  lemma {:induction false} HeldHasLine(lines: seq<(Duid, Addr6)>, a: nat) returns (i: nat)
    requires a in Reserved(lines).leases
    ensures LastAtAddress(lines, i) && lines[i].1 == a
  {
    i := |lines| - 1;
    if lines[i].0 == [] || lines[i].1 != a {
      i := HeldHasLine(lines[..|lines| - 1], a);
    }
  }

  /**
   A reserved client always receives the address of its line, if that line decides its address and the
   client's other lines, if any, decide none.
   */
  lemma ReservationIsKept(cfg: Config, lines: seq<(Duid, Addr6)>, i: nat)
    requires LastAtAddress(lines, i)
    requires forall j: nat :: LastAtAddress(lines, j) && lines[j].0 == lines[i].0 ==> lines[j].1 == lines[i].1
    ensures AlwaysReceives(cfg, Reserved(lines), lines[i].0, lines[i].1)
  {
    hide AlwaysReceives, Reserved, InSpace;
    var (c, a) := lines[i];
    var t := Reserved(lines);
    ReservedInSpace(lines);
    LastLineHolds(lines, i);
    forall b | b in t.leases && t.leases[b].client == c
      ensures b == a
    {
      var j := HeldHasLine(lines, b);
      LastLineHolds(lines, j);
    }
    LastingIsKept(cfg, t, c, a);
  }
}
