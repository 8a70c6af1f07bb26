/**
 The four-message exchange of DHCPv6 over runs: an Advertise reserves nothing, so whether the Request
 that follows is granted depends on what other clients did in between.
 */
module Dhcpv6Exchange {
  import opened Wrappers
  import opened Leases
  import opened DhcpV6Pool
  import opened Codec = Dhcpv6Codec
  import opened Dhcpv6Server
  import opened Dhcpv6Runs
  import opened Dhcpv6Lifetimes

  /** A datagram of `c` that may commit a lease. */
  predicate MayCommit(cfg: Config, dg: Datagram, c: Duid) {
    match Understood(dg)
    case None => false
    case Some((p, d)) => d == c && Commits(cfg, p)
  }

  /** A client without a lease gets none, unless it commits one itself. */
  lemma NoneStaysNone(cfg: Config, t: Table6, dg: Datagram, t': Table6, reply: Option<Packet>, c: Duid)
    requires ServerStep(cfg, t, dg, t', reply) && IsCurrent(t.leases, c, None) && !MayCommit(cfg, dg, c)
    ensures IsCurrent(t'.leases, c, None)
  {
    hide ServerStep, Understood, IsRapid;
    forall b | b in t'.leases
      ensures t'.leases[b].client != c
    {
      if !(b in t.leases && t.leases[b] == t'.leases[b]) {
        NewLeaseIsTimed(cfg, t, dg, t', reply, b);
      }
    }
  }

  /** The step leaves `a` free, or with a holder it had before. */
  predicate NoNewHolder(t: Table6, t': Table6, a: nat) {
    a in t'.leases ==> a in t.leases && t.leases[a].client == t'.leases[a].client
  }

  lemma SameHolderSameLease(cfg: Config, t: Table6, dg: Datagram, t': Table6, reply: Option<Packet>, a: nat)
    requires ServerStep(cfg, t, dg, t', reply) && a in t'.leases && NoNewHolder(t, t', a)
    ensures a in t.leases && t.leases[a] == t'.leases[a]
  {
    hide ServerStep, Understood, IsRapid;
    if t.leases[a] != t'.leases[a] {
      NewLeaseIsTimed(cfg, t, dg, t', reply, a);
    }
  }

  lemma {:induction false} RunKeepsNone(
      cfg: Config, ts: seq<Table6>, dgs: seq<Datagram>, replies: seq<Option<Packet>>, c: Duid, i: nat, j: nat)
    requires IsRun(cfg, ts, dgs, replies) && i <= j <= |dgs| && IsCurrent(ts[i].leases, c, None)
    requires forall k :: i <= k < j ==> !MayCommit(cfg, dgs[k], c)
    ensures IsCurrent(ts[j].leases, c, None)
    decreases j - i
  {
    hide ServerStep, MayCommit;
    if i < j {
      RunKeepsNone(cfg, ts, dgs, replies, c, i, j - 1);
      assert ServerStep(cfg, ts[j - 1], dgs[j - 1], ts[j - 1 + 1], replies[j - 1]);
      NoneStaysNone(cfg, ts[j - 1], dgs[j - 1], ts[j], replies[j - 1], c);
    }
  }

  /** While nobody comes to hold `a`, its lease, if it has one, is the one of before. */
  lemma {:induction false} RecordStays(
      cfg: Config, ts: seq<Table6>, dgs: seq<Datagram>, replies: seq<Option<Packet>>, a: nat, i: nat, j: nat)
    requires IsRun(cfg, ts, dgs, replies) && i <= j <= |dgs|
    requires forall k :: i <= k < j ==> NoNewHolder(ts[k], ts[k + 1], a)
    ensures a in ts[j].leases ==> a in ts[i].leases && ts[j].leases[a] == ts[i].leases[a]
    decreases j - i
  {
    hide ServerStep;
    if i < j {
      RecordStays(cfg, ts, dgs, replies, a, i, j - 1);
      assert ServerStep(cfg, ts[j - 1], dgs[j - 1], ts[j - 1 + 1], replies[j - 1]);
      assert NoNewHolder(ts[j - 1], ts[j - 1 + 1], a);
      if a in ts[j].leases {
        SameHolderSameLease(cfg, ts[j - 1], dgs[j - 1], ts[j], replies[j - 1], a);
      }
    }
  }

  /**
   Step `i` advertises an address to a client without a lease; at step `j` that client, which
   committed nothing in between, asks for the address in a Request, Renew or Rebind.
   */
  ghost predicate Exchange(
      cfg: Config, ts: seq<Table6>, dgs: seq<Datagram>, replies: seq<Option<Packet>>, i: nat, j: nat)
  {
    && IsRun(cfg, ts, dgs, replies) && i < j < |dgs| && Gives(replies[i])
    && Understood(dgs[i]).Some? && Understood(dgs[j]).Some?
    && var c := Understood(dgs[i]).value.1;
       var (p, d) := Understood(dgs[j]).value;
       && IsCurrent(ts[i].leases, c, None)
       && (forall k :: i <= k < j ==> !MayCommit(cfg, dgs[k], c))
       && d == c && p.msgType in {Request, Renew, Rebind} && Wanted(p) == Given(replies[i].value)
  }

  /** A Request, Renew or Rebind that asks for an address is answered. */
  lemma RequestIsAnswered(cfg: Config, t: Table6, dg: Datagram, t': Table6, reply: Option<Packet>)
    requires ServerStep(cfg, t, dg, t', reply) && Understood(dg).Some?
    requires Understood(dg).value.0.msgType in {Request, Renew, Rebind} && Wanted(Understood(dg).value.0).Some?
    ensures reply.Some?
  {
    hide RequestSpec, AnswerTo, Understood, Wanted;
    var cur :| StepWith(cfg, t, dg, cur, t', reply);
  }

  /** A client without a lease that is given an address on a Request is given the one it asked for. */
  lemma WantedIsGiven(cfg: Config, t: Table6, dg: Datagram, t': Table6, reply: Option<Packet>)
    requires ServerStep(cfg, t, dg, t', reply) && InSpace(t) && Understood(dg).Some? && Gives(reply)
    requires Understood(dg).value.0.msgType in {Request, Renew, Rebind}
    requires IsCurrent(t.leases, Understood(dg).value.1, None)
    ensures Given(reply.value) == Wanted(Understood(dg).value.0)
  {
    hide AnswerTo, Understood, Wanted, InSpace, Available, Given;
    var cur :| StepWith(cfg, t, dg, cur, t', reply);
    var (p, d) := Understood(dg).value;
    CommitOutcome(cfg, t, cur, d, Wanted(p).value, dg.readAt);
    var r := RequestSpec(PolicyOf(cfg), DurationOf(cfg), t, cur, d, Wanted(p).value, dg.readAt).1;
    GivenByAnswer(cfg, p, d, Reply, Granted(r));
  }

  /** The exact condition: the advertised address is granted iff at that moment it is free or its lease has expired. */
  lemma OfferIsHonouredIff(
      cfg: Config, ts: seq<Table6>, dgs: seq<Datagram>, replies: seq<Option<Packet>>, i: nat, j: nat)
    requires Exchange(cfg, ts, dgs, replies, i, j) && InSpace(ts[0]) && ClockRuns(dgs)
    ensures var a := Given(replies[i].value).value;
            && replies[j].Some?
            && (a in ts[j].leases ==> Lapsed(PolicyOf(cfg), ts[j].leases[a], dgs[j].readAt) <==>
                Given(replies[j].value) == Some(a))
  {
    hide ServerStep, InSpace, MayCommit, Understood, Wanted, Given, Advertised;
    var c, a := Understood(dgs[i]).value.1, Given(replies[i].value).value;
    RunInvariants(cfg, ts, dgs, replies, i);
    RunInvariants(cfg, ts, dgs, replies, j);
    RunKeepsNone(cfg, ts, dgs, replies, c, i, j);
    assert ServerStep(cfg, ts[i], dgs[i], ts[i + 1], replies[i]);
    assert ServerStep(cfg, ts[j], dgs[j], ts[j + 1], replies[j]);
    WhatIsGiven(cfg, ts[i], dgs[i], ts[i + 1], replies[i]);
    RequestIsAnswered(cfg, ts[j], dgs[j], ts[j + 1], replies[j]);
    NothingGivenIff(cfg, ts[j], dgs[j], ts[j + 1], replies[j]);
    if Given(replies[j].value).Some? {
      WantedIsGiven(cfg, ts[j], dgs[j], ts[j + 1], replies[j]);
    }
  }

  /** In particular if no other client came to hold it in between. */
  lemma OfferIsHonoured(
      cfg: Config, ts: seq<Table6>, dgs: seq<Datagram>, replies: seq<Option<Packet>>, i: nat, j: nat)
    requires Exchange(cfg, ts, dgs, replies, i, j) && InSpace(ts[0]) && ClockRuns(dgs)
    requires forall k :: i <= k < j ==> NoNewHolder(ts[k], ts[k + 1], Given(replies[i].value).value)
    ensures replies[j].Some? && Given(replies[j].value) == Given(replies[i].value)
  {
    hide ServerStep, InSpace, MayCommit, Understood, Wanted, Given, Advertised, NoNewHolder;
    var a := Given(replies[i].value).value;
    OfferIsHonouredIff(cfg, ts, dgs, replies, i, j);
    RecordStays(cfg, ts, dgs, replies, a, i, j);
    RunInvariants(cfg, ts, dgs, replies, i);
    assert ServerStep(cfg, ts[i], dgs[i], ts[i + 1], replies[i]);
    WhatIsGiven(cfg, ts[i], dgs[i], ts[i + 1], replies[i]);
    assert dgs[i].readAt <= dgs[i].commitAt <= dgs[j].readAt;
  }
}
