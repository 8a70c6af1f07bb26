/**
 Which datagrams the DHCPv6 service answers, and what its replies say, in terms of option numbers.
 */
module Dhcpv6Replies {
  import opened Wrappers
  import opened Bytes
  import opened Text
  import opened Leases
  import opened DhcpV6Pool
  import opened Codec = Dhcpv6Codec
  import opened Dhcpv6Server
  import opened Dhcpv6Runs

  // ----- What a datagram says -----

  /** A datagram counts as a packet of `d` iff it decodes and its first Client Identifier is `d`. */
  lemma UnderstoodIff(dg: Datagram, p: Packet, d: Duid)
    ensures Understood(dg) == Some((p, d)) <==> Decoded(dg.bytes) == Ok(p) && IsFirst(p.options, 1, ClientId(d))
  {
    hide FirstWithCode, IsFirst, Decoded;
    LookupIff(p.options, 1);
  }

  /** Rapid commit takes the setting and the option, at any position. */
  lemma RapidIff(cfg: Config, p: Packet)
    ensures IsRapid(cfg, p) <==> cfg.rapidCommit && exists i :: 0 <= i < |p.options| && Code(p.options[i]) == 14
  {
    hide FirstWithCode, IsFirst, Code;
    LookupIff(p.options, 14);
  }

  /** `ia` is the first association of the packet. */
  ghost predicate Association(p: Packet, ia: IaNa) {
    IsFirst(p.options, 3, IaNaOption(ia))
  }

  lemma AssociationIff(dg: Datagram, ia: IaNa)
    requires Understood(dg).Some?
    ensures var p := Understood(dg).value.0;
            && (FirstIana(p.options) == Some(ia) <==> Association(p, ia))
            && (FirstIana(p.options) == None <==> Lacks(p.options, 3))
  {
    hide FirstWithCode, IsFirst, Decoded, FirstIana, Lacks;
    var p := Understood(dg).value.0;
    Normalises(dg.bytes);
    FirstIanaIff(p.options);
    LookupIff(p.options, 3);
  }

  /** The address asked for is the first one of the first association. */
  lemma WantedIff(dg: Datagram, a: Addr6)
    requires Understood(dg).Some?
    ensures var p := Understood(dg).value.0;
            Wanted(p) == Some(a) <==> exists ia :: Association(p, ia) && ia.addrs != [] && ia.addrs[0].addr == a
  {
    hide Understood, Association, FirstIana;
    var p := Understood(dg).value.0;
    forall ia
      ensures FirstIana(p.options) == Some(ia) <==> Association(p, ia)
    {
      AssociationIff(dg, ia);
    }
    if Wanted(p).Some? {
      assert Association(p, FirstIana(p.options).value);
    }
  }

  // ----- Which datagrams are answered -----

  /**
   A datagram is answered iff it is understood and is a Solicit, or a Request, Renew or Rebind that
   asks for an address.
   */
  lemma AnsweredIff(cfg: Config, t: Table6, dg: Datagram, t': Table6, reply: Option<Packet>)
    requires ServerStep(cfg, t, dg, t', reply)
    ensures reply.Some? <==>
            && Understood(dg).Some?
            && var p := Understood(dg).value.0;
               p.msgType == Solicit || (p.msgType in {Request, Renew, Rebind} && exists a :: Wanted(p) == Some(a))
  {
    hide RequestSpec, DiscoverSpec, AnswerTo, Understood, Wanted, NoAddress, IsForServer;
    var cur :| StepWith(cfg, t, dg, cur, t', reply);
    if Understood(dg).Some? {
      var p := Understood(dg).value.0;
      assert Wanted(p).Some? ==> Wanted(p) == Some(Wanted(p).value);
    }
  }

  /** A reply is built for its client, with the address given, if any. */
  lemma ReplyIsBuilt(cfg: Config, t: Table6, dg: Datagram, t': Table6, reply: Option<Packet>)
    returns (m: MsgType, ip: Option<nat>)
    requires ServerStep(cfg, t, dg, t', reply) && reply.Some?
    ensures Understood(dg).Some? && (m == Advertise || m == Reply)
    ensures reply.value == AnswerTo(cfg, Understood(dg).value.0, Understood(dg).value.1, m, ip)
    ensures ip.Some? ==> ip.value < ADDRESS_SPACE
  {
    hide RequestSpec, DiscoverSpec, Understood, Wanted, NoAddress, Addressed, IsForServer, IsRapid;
    var cur :| StepWith(cfg, t, dg, cur, t', reply);
    var (p, d) := Understood(dg).value;
    if p.msgType == Solicit {
      var (t1, offer) := DiscoverSpec(PolicyOf(cfg), t, cur, dg.readAt);
      m := if IsRapid(cfg, p) then Reply else Advertise;
      ip := if IsRapid(cfg, p) && offer.Some?
            then Granted(RequestSpec(PolicyOf(cfg), DurationOf(cfg), t1, cur, d, offer.value, dg.commitAt).1)
            else offer;
    } else {
      m := Reply;
      ip := Granted(RequestSpec(PolicyOf(cfg), DurationOf(cfg), t, cur, d, Wanted(p).value, dg.readAt).1);
    }
    if ip.Some? && ip.value >= ADDRESS_SPACE {
      ip := None;
    }
  }

  /**
   A Solicit is committed at once iff the setting is on and it carries option 14, wherever it stands;
   then the table assigns the address given, else no lease changes.
   */
  lemma RapidCommitIff(cfg: Config, t: Table6, dg: Datagram, t': Table6, reply: Option<Packet>)
    requires ServerStep(cfg, t, dg, t', reply) && dg.readAt <= dg.commitAt && InSpace(t)
    requires Understood(dg).Some? && Understood(dg).value.0.msgType == Solicit
    ensures reply.Some?
    ensures var (p, d) := Understood(dg).value;
            var r := reply.value;
            && (r.msgType == Reply || r.msgType == Advertise)
            && (r.msgType == Reply <==>
                cfg.rapidCommit && exists i :: 0 <= i < |p.options| && Code(p.options[i]) == 14)
            && (r.msgType == Reply && Given(r).Some? ==> Holds(t'.leases, d, Given(r).value))
            && (r.msgType == Advertise ==> t'.leases == t.leases)
  {
    hide ServerStep, Understood, IsRapid, Given, InSpace, Code, Wanted;
    AnsweredIff(cfg, t, dg, t', reply);
    RapidIff(cfg, Understood(dg).value.0);
    RepliesAgreeWithTable(cfg, t, dg, t', reply);
  }

  // ----- What a reply says -----

  /** The identity association of the request is echoed, 0 standing for none. */
  predicate Echoed(p: Packet, iaid: u32) {
    match FirstIana(p.options)
    case Some(ia) => iaid == ia.iaid
    case None => iaid == 0
  }

  /** T1 is half the lifetime, rounded down, and T2 seven eighths of it, rounded up. */
  predicate InGoodTime(ia: IaNa, secs: u32) {
    2 * ia.t1 <= secs < 2 * ia.t1 + 2 && 7 * secs <= 8 * ia.t2 < 7 * secs + 8
  }

  /**
   A reply to `p` from `d`, by option number: this server, the client, and the association; with an
   address, its two lifetimes and T1 and T2, and the DNS servers iff there are any; without, status 2.
   */
  ghost predicate Carries(cfg: Config, p: Packet, d: Duid, r: Packet, given: Option<nat>) {
    var os, secs := r.options, cfg.leaseSecs;
    && r.transactionId == p.transactionId
    && |os| >= 3 && os[0] == ServerId(cfg.serverDuid) && os[1] == ClientId(d) && os[2].IaNaOption?
    && IsFirst(os, 2, os[0]) && IsFirst(os, 1, os[1]) && IsFirst(os, 3, os[2])
    && var ia := os[2].ia;
       && Echoed(p, ia.iaid)
       && match given
          case Some(a) =>
            && |ia.addrs| == 1 && ia.addrs[0].addr == a && ia.addrs[0].preferred == ia.addrs[0].valid == secs
            && InGoodTime(ia, secs)
            && (if cfg.dns == [] then |os| == 3 else |os| == 4 && os[3] == DnsServers(cfg.dns))
          case None =>
            && ia.addrs == [] && ia.t1 == 0 && ia.t2 == 0
            && |os| == 4 && os[3] == StatusCode(2, Ascii("NoAddrsAvail"))
  }

  /** What every reply says. */
  lemma ReplyCarries(cfg: Config, t: Table6, dg: Datagram, t': Table6, reply: Option<Packet>)
    requires ServerStep(cfg, t, dg, t', reply) && reply.Some?
    ensures Understood(dg).Some?
    ensures Carries(cfg, Understood(dg).value.0, Understood(dg).value.1, reply.value, Given(reply.value))
  {
    hide ServerStep, Understood, Given, Carries, Addressed, NoAddress;
    var m, ip := ReplyIsBuilt(cfg, t, dg, t', reply);
    var (p, d) := Understood(dg).value;
    GivenByAnswer(cfg, p, d, m, ip);
    if ip.Some? {
      AddressedCarries(cfg, p, d, m, ip.value);
    } else {
      NoAddressCarries(cfg, p, d, m);
    }
  }

  lemma Leading(os: seq<Dhcpv6Option>)
    requires |os| >= 3 && os[0].ServerId? && os[1].ClientId? && os[2].IaNaOption?
    ensures IsFirst(os, 2, os[0]) && IsFirst(os, 1, os[1]) && IsFirst(os, 3, os[2])
  {
    assert FirstAt(os, 2, 0) && FirstAt(os, 1, 1) && FirstAt(os, 3, 2);
  }

  lemma AddressedCarries(cfg: Config, p: Packet, d: Duid, m: MsgType, ip: Addr6)
    ensures Carries(cfg, p, d, Addressed(cfg, p, d, m, ip), Some(ip))
  {
    hide Ascii, FirstIana, IsFirst;
    Leading(Addressed(cfg, p, d, m, ip).options);
  }

  lemma NoAddressCarries(cfg: Config, p: Packet, d: Duid, m: MsgType)
    ensures Carries(cfg, p, d, NoAddress(cfg, p, d, m), None)
  {
    hide Ascii, FirstIana, IsFirst;
    Leading(NoAddress(cfg, p, d, m).options);
  }

  // ----- The clock -----

  /** A new lease ends the configured number of seconds, in nanoseconds, after the clock reading that made it. */
  lemma NewLeaseLasts(cfg: Config, t: Table6, dg: Datagram, t': Table6, reply: Option<Packet>, a: nat)
    requires ServerStep(cfg, t, dg, t', reply)
    requires a in t'.leases && !(a in t.leases && t.leases[a] == t'.leases[a])
    ensures Understood(dg).Some?
    ensures var p := Understood(dg).value.0;
            var made := if p.msgType == Solicit then dg.commitAt else dg.readAt;
            t'.leases[a].expiry == Some(made + cfg.leaseSecs * 1_000_000_000)
  {
    hide ServerStep, Understood, IsRapid;
    NewLeaseIsTimed(cfg, t, dg, t', reply, a);
  }
}
