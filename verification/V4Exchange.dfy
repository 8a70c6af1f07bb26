/**
 The four-message exchange of DHCPv4 over runs: an Offer reserves nothing, so whether the Request
 that follows is acknowledged depends on what other clients did in between.
 */
module Dhcpv4Exchange {
  import opened Wrappers
  import opened Leases
  import opened SlotStore
  import opened Dhcpv4Options
  import opened Dhcpv4Packet
  import opened Dhcpv4Server
  import opened Dhcpv4Runs
  import opened Dhcpv4Lifetimes

  /** A client without a lease gets none, unless it commits one itself. */
  lemma NoneStaysNone(cfg: Config, s: State, pkt: Packet, now: Time, s': State, reply: Option<Packet>, c: Mac)
    requires ServerStep(cfg, s, pkt, now, s', reply) && IsCurrent(s.leases, c, None)
    requires pkt.chaddr == c ==> !Commits(cfg, pkt)
    ensures IsCurrent(s'.leases, c, None)
  {
    hide Lend, Refuse, TypeOf, HostNameOf, IsRapid, RequestedIp, ForThisServer, DiscoverSpec, Available;
    hide IndexAfterInsert, IndexAfterRemove;
    var cur: Option<nat>, other: Option<nat> :| StepWith(cfg, s, pkt, now, cur, other, s', reply);
  }

  /** The step leaves `a` free, or with a holder it had before. */
  predicate NoNewHolder(s: State, s': State, a: nat) {
    a in s'.leases ==> a in s.leases && s.leases[a].client == s'.leases[a].client
  }

  lemma SameHolderSameExpiry(cfg: Config, s: State, pkt: Packet, now: Time, s': State, reply: Option<Packet>, a: nat)
    requires ServerStep(cfg, s, pkt, now, s', reply)
    requires a in s.leases && a in s'.leases && s.leases[a].client == s'.leases[a].client
    ensures s.leases[a].expiry == s'.leases[a].expiry
  {
    hide Lend, Refuse, TypeOf, HostNameOf, IsRapid, RequestedIp, ForThisServer, DiscoverSpec, Available;
    hide IndexAfterInsert, IndexAfterRemove;
    var cur: Option<nat>, other: Option<nat> :| StepWith(cfg, s, pkt, now, cur, other, s', reply);
  }

  lemma {:induction false} RunKeepsNone(
      cfg: Config, ss: seq<State>, evs: seq<Event>, replies: seq<Option<Packet>>, c: Mac, i: nat, j: nat)
    requires IsRun(cfg, ss, evs, replies) && i <= j <= |evs| && IsCurrent(ss[i].leases, c, None)
    requires forall k :: i <= k < j && evs[k].pkt.chaddr == c ==> !Commits(cfg, evs[k].pkt)
    ensures IsCurrent(ss[j].leases, c, None)
    decreases j - i
  {
    hide ServerStep, Commits;
    if i < j {
      RunKeepsNone(cfg, ss, evs, replies, c, i, j - 1);
      var e := evs[j - 1];
      assert ServerStep(cfg, ss[j - 1], e.pkt, e.now, ss[j - 1 + 1], replies[j - 1]);
      NoneStaysNone(cfg, ss[j - 1], e.pkt, e.now, ss[j], replies[j - 1], c);
    }
  }

  /** While nobody comes to hold `a`, its lease, if it has one, is the one of before. */
  lemma {:induction false} RecordStays(
      cfg: Config, ss: seq<State>, evs: seq<Event>, replies: seq<Option<Packet>>, a: nat, i: nat, j: nat)
    requires IsRun(cfg, ss, evs, replies) && i <= j <= |evs|
    requires forall k :: i <= k < j ==> NoNewHolder(ss[k], ss[k + 1], a)
    ensures a in ss[j].leases ==> a in ss[i].leases && ss[j].leases[a].expiry == ss[i].leases[a].expiry
    decreases j - i
  {
    hide ServerStep;
    if i < j {
      RecordStays(cfg, ss, evs, replies, a, i, j - 1);
      var e := evs[j - 1];
      assert ServerStep(cfg, ss[j - 1], e.pkt, e.now, ss[j - 1 + 1], replies[j - 1]);
      assert NoNewHolder(ss[j - 1], ss[j - 1 + 1], a);
      if a in ss[j].leases {
        SameHolderSameExpiry(cfg, ss[j - 1], e.pkt, e.now, ss[j], replies[j - 1], a);
      }
    }
  }

  /**
   Step `i` offers an address to a client without a lease; at step `j` that client, which committed
   nothing in between, requests the address.
   */
  ghost predicate Exchange(
      cfg: Config, ss: seq<State>, evs: seq<Event>, replies: seq<Option<Packet>>, i: nat, j: nat)
  {
    && IsRun(cfg, ss, evs, replies) && i < j < |evs| && Gives(replies[i])
    && var c := evs[i].pkt.chaddr;
       && IsCurrent(ss[i].leases, c, None)
       && (forall k :: i <= k < j && evs[k].pkt.chaddr == c ==> !Commits(cfg, evs[k].pkt))
       && evs[j].pkt.chaddr == c && TypeOf(evs[j].pkt.options) == Some(Request)
       && AsksFor(evs[j].pkt, replies[i].value.yiaddr)
  }

  /** The exact condition: the offered address is acknowledged iff at that moment it is free or its lease has lapsed. */
  lemma OfferIsHonouredIff(
      cfg: Config, ss: seq<State>, evs: seq<Event>, replies: seq<Option<Packet>>, i: nat, j: nat)
    requires Exchange(cfg, ss, evs, replies, i, j) && Validated(cfg) && InSpace(ss[0])
    ensures var a := replies[i].value.yiaddr;
            && replies[j].Some?
            && (a in ss[j].leases ==> Lapsed(PolicyOf(cfg), ss[j].leases[a], evs[j].now) <==>
                TypeOf(replies[j].value.options) == Some(Ack) && replies[j].value.yiaddr == a)
  {
    hide ServerStep, InSpace, Commits, TypeOf, AsksFor, Echoes, Advertised, IsRapid;
    var c, a := evs[i].pkt.chaddr, replies[i].value.yiaddr;
    RunInSpace(cfg, ss, evs, replies, i);
    RunInSpace(cfg, ss, evs, replies, j);
    RunKeepsNone(cfg, ss, evs, replies, c, i, j);
    assert ServerStep(cfg, ss[i], evs[i].pkt, evs[i].now, ss[i + 1], replies[i]);
    assert ServerStep(cfg, ss[j], evs[j].pkt, evs[j].now, ss[j + 1], replies[j]);
    WhatIsGiven(cfg, ss[i], evs[i].pkt, evs[i].now, ss[i + 1], replies[i]);
    NakIffUnavailable(cfg, ss[j], evs[j].pkt, evs[j].now, ss[j + 1], replies[j], a);
    RepliesAgreeWithTable(cfg, ss[j], evs[j].pkt, evs[j].now, ss[j + 1], replies[j]);
  }

  /** In particular if no other client came to hold it in between. */
  lemma OfferIsHonoured(
      cfg: Config, ss: seq<State>, evs: seq<Event>, replies: seq<Option<Packet>>, i: nat, j: nat)
    requires Exchange(cfg, ss, evs, replies, i, j) && Validated(cfg) && InSpace(ss[0]) && ClockRuns(evs)
    requires forall k :: i <= k < j ==> NoNewHolder(ss[k], ss[k + 1], replies[i].value.yiaddr)
    ensures replies[j].Some? && TypeOf(replies[j].value.options) == Some(Ack)
    ensures replies[j].value.yiaddr == replies[i].value.yiaddr
  {
    hide ServerStep, InSpace, Commits, TypeOf, AsksFor, Advertised, NoNewHolder;
    var a := replies[i].value.yiaddr;
    OfferIsHonouredIff(cfg, ss, evs, replies, i, j);
    RecordStays(cfg, ss, evs, replies, a, i, j);
    RunInSpace(cfg, ss, evs, replies, i);
    assert ServerStep(cfg, ss[i], evs[i].pkt, evs[i].now, ss[i + 1], replies[i]);
    WhatIsGiven(cfg, ss[i], evs[i].pkt, evs[i].now, ss[i + 1], replies[i]);
    assert evs[i].now <= evs[j].now;
  }
}
