/**
 What the replies of the DHCPv4 service say: their header, and for each option number the value
 that reaches the client through its parameter request list.
 */
module Dhcpv4Replies {
  import opened Wrappers
  import opened Bytes
  import opened Text
  import opened Leases
  import opened Dhcpv4Options
  import opened Dhcpv4Packet
  import opened OptionFilter
  import opened Dhcpv4Reply
  import opened Dhcpv4Server
  import opened Dhcpv4Runs
  import opened Dhcpv4Lifetimes

  // ----- Which reply -----

  /** An answered packet gets an Offer or Ack built for some address, or the refusal. */
  lemma ReplyIsBuilt(cfg: Config, s: State, pkt: Packet, now: Time, s': State, reply: Option<Packet>)
    returns (kind: MessageType, ip: nat)
    requires ServerStep(cfg, s, pkt, now, s', reply) && reply.Some?
    ensures kind == Offer || kind == Ack || kind == Nak
    ensures reply.value == if kind == Nak then Refuse(cfg, pkt) else Lend(cfg, kind, pkt, ip)
  {
    hide RememberSpec, InsertSpec, DiscoverSpec, Lend, Refuse, TypeOf, HostNameOf, IsRapid, Available, RequestedIp;
    hide ForThisServer;
    var cur: Option<nat>, other: Option<nat> :| StepWith(cfg, s, pkt, now, cur, other, s', reply);
    kind := if IsRapid(cfg, pkt) then Ack else Offer;
    if TypeOf(pkt.options) == Some(Discover) {
      ip := if cur.Some? then cur.value
            else DiscoverSpec(PolicyOf(cfg), Table(s.leases, s.last), None, now).1.value;
    } else if cur.Some? {
      kind, ip := Ack, cur.value;
    } else {
      kind := if Available(PolicyOf(cfg), s.leases, pkt.chaddr, now, RequestedIp(pkt)) then Ack else Nak;
      ip := RequestedIp(pkt);
    }
  }

  /**
   An answered Discover is committed at once iff the setting is on and the packet carries option 80,
   wherever it stands; then the table assigns the address, else no owner and no expiry changes.
   */
  lemma RapidCommitIff(cfg: Config, s: State, pkt: Packet, now: Time, s': State, reply: Option<Packet>)
    requires ServerStep(cfg, s, pkt, now, s', reply) && Validated(cfg) && InSpace(s)
    requires IsFirst(pkt.options, 53, DhcpMessageType(Discover)) && reply.Some?
    ensures TypeOf(reply.value.options) == Some(Ack) <==>
            cfg.rapidCommit && exists i :: 0 <= i < |pkt.options| && Code(pkt.options[i]) == 80
    ensures if TypeOf(reply.value.options) == Some(Ack) then Holds(s'.leases, pkt.chaddr, reply.value.yiaddr)
            else TypeOf(reply.value.options) == Some(Offer) && SameOwners(s, s')
  {
    hide ServerStep, TypeOf, IsRapid, Echoes, InSpace, IsFirst, Code;
    TypeIff(pkt.options, Discover);
    RapidIff(cfg, pkt);
    RepliesAgreeWithTable(cfg, s, pkt, now, s', reply);
  }

  /** A new lease ends the configured number of seconds, in nanoseconds, after the clock reading that made it. */
  lemma NewLeaseLasts(cfg: Config, s: State, pkt: Packet, now: Time, s': State, reply: Option<Packet>, a: nat)
    requires ServerStep(cfg, s, pkt, now, s', reply)
    requires a in s'.leases && !(a in s.leases && s.leases[a].client == s'.leases[a].client)
    ensures s'.leases[a].expiry == Some(now + cfg.offer.leaseSecs * 1_000_000_000)
  {
    hide ServerStep;
    NewLeaseIsTimed(cfg, s, pkt, now, s', reply, a);
  }

  // ----- The header -----

  /** Every reply echoes what routes it back and clears the rest; a Nak clears the client's address too. */
  lemma ReplyHeader(cfg: Config, s: State, pkt: Packet, now: Time, s': State, reply: Option<Packet>)
    requires ServerStep(cfg, s, pkt, now, s', reply) && reply.Some?
    ensures var r := reply.value;
            && r.reply && r.hops == 0 && r.secs == 0 && r.siaddr == 0
            && r.xid == pkt.xid && r.chaddr == pkt.chaddr && r.giaddr == pkt.giaddr && r.broadcast == pkt.broadcast
            && r.ciaddr == (if TypeOf(r.options) == Some(Nak) then 0 else pkt.ciaddr)
  {
    hide ServerStep, TypeOf, ReplyOptions, Ascii;
    var kind, ip := ReplyIsBuilt(cfg, s, pkt, now, s', reply);
    RefuseKind(cfg, pkt);
    LendKind(cfg, kind, pkt, if ip < ADDRESS_SPACE then ip else 0);
  }

  // ----- The options -----

  /** The client gets an option that is not mandatory: it sent no parameter request list, or asks for it. */
  ghost predicate Asks(pkt: Packet, code: byte) {
    forall prl :: IsFirst(pkt.options, 55, ParameterRequestList(prl)) ==> code in prl
  }

  /** An option of the full list reaches the reply with its value if it is mandatory or asked for, else not at all. */
  lemma ThroughFilter(serverIp: Ip4, kind: MessageType, extra: seq<DhcpOption>, pkt: Packet, i: nat)
    requires var full := FullOptions(serverIp, kind, extra); Distinct(full) && i < |full|
    ensures var os, o := ReplyOptions(serverIp, kind, extra, pkt), FullOptions(serverIp, kind, extra)[i];
            if Code(o) in [53, 54, 1, 51, 6, 3] || Asks(pkt, Code(o)) then IsFirst(os, Code(o), o)
            else Lacks(os, Code(o))
  {
    hide Filtered, Distinct, IsFirst, FirstWithCode, Code, FullOptions;
    var full := FullOptions(serverIp, kind, extra);
    var os, o := ReplyOptions(serverIp, kind, extra, pkt), full[i];
    var c := Code(o);
    LookupExact(full, c);
    LookupIff(os, c);
    LookupIff(pkt.options, 55);
    match FirstWithCode(pkt.options, PARAMETER_REQUEST_LIST) {
      case Some(ParameterRequestList(prl)) =>
        assert IsFirst(pkt.options, 55, ParameterRequestList(prl));
        FilterKeeps(full, prl, c);
        MandatoryCodes(prl, c);
        assert HasCode(full, c);
        if c in prl || c in Mandatory() {
          FilterKeepsLookup(full, prl, c);
        }
      case _ =>
    }
  }

  lemma MandatoryCodes(prl: seq<byte>, c: byte)
    ensures c in Mandatory() <==> c in [53, 54, 1, 51, 6, 3]
    ensures c in prl + Mandatory() <==> c in prl || c in Mandatory()
  {
  }

  /** A code the full list lacks is not in the reply. */
  lemma NotInvented(serverIp: Ip4, kind: MessageType, extra: seq<DhcpOption>, pkt: Packet, c: byte)
    requires Lacks(FullOptions(serverIp, kind, extra), c)
    ensures Lacks(ReplyOptions(serverIp, kind, extra, pkt), c)
  {
    hide Filtered, FirstWithCode, Code, FullOptions;
    var full := FullOptions(serverIp, kind, extra);
    match FirstWithCode(pkt.options, PARAMETER_REQUEST_LIST) {
      case Some(ParameterRequestList(prl)) =>
        FilterKeeps(full, prl, c);
        assert !HasCode(full, c);
        assert !HasCode(Filtered(full, prl), c);
      case _ =>
    }
  }

  /**
   What every Offer and Ack tells its client, by option number: type, this server, lease time, subnet mask,
   router and DNS servers of the configuration, always; the NTP servers iff there are any, NTP is on, and
   the client asks for them or sends no list.
   */
  lemma OfferCarries(cfg: Config, s: State, pkt: Packet, now: Time, s': State, reply: Option<Packet>)
    requires ServerStep(cfg, s, pkt, now, s', reply) && Gives(reply)
    ensures var os := reply.value.options;
            && (IsFirst(os, 53, DhcpMessageType(Offer)) || IsFirst(os, 53, DhcpMessageType(Ack)))
            && IsFirst(os, 54, ServerIdentifier(cfg.offer.serverIp))
            && IsFirst(os, 51, IpAddressLeaseTime(cfg.offer.leaseSecs))
            && IsFirst(os, 1, SubnetMask(cfg.offer.subnetMask))
            && IsFirst(os, 3, Router([cfg.offer.routerIp]))
            && IsFirst(os, 6, DomainNameServer(cfg.offer.dnsIps))
            && if cfg.offer.enableNtp && cfg.offer.ntpIps != [] && Asks(pkt, 42)
               then IsFirst(os, 42, Unrecognized(RawOption(42, AddrsData(cfg.offer.ntpIps))))
               else Lacks(os, 42)
  {
    hide ServerStep, TypeOf, Lend, IsFirst, Asks, Lacks;
    var kind, ip := ReplyIsBuilt(cfg, s, pkt, now, s', reply);
    RefuseKind(cfg, pkt);
    LendCarries(cfg, kind, pkt, ip);
  }

  lemma LendCarries(cfg: Config, kind: MessageType, pkt: Packet, ip: nat)
    ensures var os := Lend(cfg, kind, pkt, ip).options;
            && IsFirst(os, 53, DhcpMessageType(kind))
            && IsFirst(os, 54, ServerIdentifier(cfg.offer.serverIp))
            && IsFirst(os, 51, IpAddressLeaseTime(cfg.offer.leaseSecs))
            && IsFirst(os, 1, SubnetMask(cfg.offer.subnetMask))
            && IsFirst(os, 3, Router([cfg.offer.routerIp]))
            && IsFirst(os, 6, DomainNameServer(cfg.offer.dnsIps))
            && if cfg.offer.enableNtp && cfg.offer.ntpIps != [] && Asks(pkt, 42)
               then IsFirst(os, 42, Unrecognized(RawOption(42, AddrsData(cfg.offer.ntpIps))))
               else Lacks(os, 42)
  {
    hide Filtered, Distinct, IsFirst, Asks, Lacks, ReplyOptions, AddrsData;
    var o := cfg.offer;
    var extra := OfferOptions(o);
    var full := FullOptions(o.serverIp, kind, extra);
    FullOptionsDistinct(o, kind);
    assert full[2] == IpAddressLeaseTime(o.leaseSecs) && full[3] == SubnetMask(o.subnetMask);
    assert full[4] == Router([o.routerIp]) && full[5] == DomainNameServer(o.dnsIps);
    ThroughFilter(o.serverIp, kind, extra, pkt, 0);
    ThroughFilter(o.serverIp, kind, extra, pkt, 1);
    ThroughFilter(o.serverIp, kind, extra, pkt, 2);
    ThroughFilter(o.serverIp, kind, extra, pkt, 3);
    ThroughFilter(o.serverIp, kind, extra, pkt, 4);
    ThroughFilter(o.serverIp, kind, extra, pkt, 5);
    if o.enableNtp && o.ntpIps != [] {
      assert full[6] == Unrecognized(RawOption(42, AddrsData(o.ntpIps)));
      ThroughFilter(o.serverIp, kind, extra, pkt, 6);
    } else {
      NoNtp(o, kind);
      NotInvented(o.serverIp, kind, extra, pkt, 42);
    }
  }

  lemma NoNtp(o: OfferConfig, kind: MessageType)
    requires !(o.enableNtp && o.ntpIps != [])
    ensures Lacks(FullOptions(o.serverIp, kind, OfferOptions(o)), 42)
  {
  }

  /** What every Nak tells its client: type, this server, and the reason iff it is asked for or no list was sent. */
  lemma NakCarries(cfg: Config, s: State, pkt: Packet, now: Time, s': State, reply: Option<Packet>)
    requires ServerStep(cfg, s, pkt, now, s', reply) && reply.Some? && TypeOf(reply.value.options) == Some(Nak)
    ensures var os := reply.value.options;
            && IsFirst(os, 53, DhcpMessageType(Nak))
            && IsFirst(os, 54, ServerIdentifier(cfg.offer.serverIp))
            && reply.value.yiaddr == 0
            && if Asks(pkt, 56) then IsFirst(os, 56, Message(Ascii("Requested IP not available")))
               else Lacks(os, 56)
  {
    hide ServerStep, TypeOf, Lend, Refuse, IsFirst, Asks, Lacks, Ascii;
    var kind, ip := ReplyIsBuilt(cfg, s, pkt, now, s', reply);
    LendSame(cfg, kind, pkt, ip);
    LendKind(cfg, kind, pkt, if ip < ADDRESS_SPACE then ip else 0);
    RefuseCarries(cfg, pkt);
  }

  lemma RefuseCarries(cfg: Config, pkt: Packet)
    ensures var r, text := Refuse(cfg, pkt), Ascii("Requested IP not available");
            && r.yiaddr == 0
            && IsFirst(r.options, 53, DhcpMessageType(Nak))
            && IsFirst(r.options, 54, ServerIdentifier(cfg.offer.serverIp))
            && if Asks(pkt, 56) then IsFirst(r.options, 56, Message(text)) else Lacks(r.options, 56)
  {
    hide IsFirst, Asks, Lacks, Ascii, ReplyOptions, Distinct, ValidUtf8;
    var serverIp, text := cfg.offer.serverIp, Ascii("Requested IP not available");
    var full := FullOptions(serverIp, Nak, [Message(text)]);
    assert |full| == 3 && full[2] == Message(text);
    NakDistinct(serverIp, text);
    ThroughFilter(serverIp, Nak, [Message(text)], pkt, 0);
    ThroughFilter(serverIp, Nak, [Message(text)], pkt, 1);
    ThroughFilter(serverIp, Nak, [Message(text)], pkt, 2);
  }

  lemma LendSame(cfg: Config, kind: MessageType, pkt: Packet, ip: nat)
    ensures Lend(cfg, kind, pkt, ip) == Lend(cfg, kind, pkt, if ip < ADDRESS_SPACE then ip else 0)
  {
  }

  // ----- Their order -----

  function Codes(os: seq<DhcpOption>): (codes: seq<byte>)
    ensures |codes| == |os| && forall i :: 0 <= i < |os| ==> codes[i] == Code(os[i])
  {
    seq(|os|, i requires 0 <= i < |os| => Code(os[i]))
  }

  /** Without a parameter request list the options come in the order they are built in. */
  lemma PlainOrder(cfg: Config, kind: MessageType, pkt: Packet, ip: nat)
    requires forall prl :: !IsFirst(pkt.options, 55, ParameterRequestList(prl))
    ensures Codes(Lend(cfg, kind, pkt, ip).options) ==
            [53, 54, 51, 1, 3, 6] + if cfg.offer.enableNtp && cfg.offer.ntpIps != [] then [42] else []
  {
    hide IsFirst, FirstWithCode, AddrsData;
    LookupIff(pkt.options, 55);
    var os := Lend(cfg, kind, pkt, ip).options;
    assert os == FullOptions(cfg.offer.serverIp, kind, OfferOptions(cfg.offer));
    var ntp := cfg.offer.enableNtp && cfg.offer.ntpIps != [];
    assert |os| == if ntp then 7 else 6;
    assert Codes(os) == [53, 54, 51, 1, 3, 6] + if ntp then [42] else [];
  }

  /** With an empty list the mandatory ones come, in their own order. */
  lemma MandatoryOrder(cfg: Config, kind: MessageType, pkt: Packet, ip: nat)
    requires IsFirst(pkt.options, 55, ParameterRequestList([]))
    ensures Codes(Lend(cfg, kind, pkt, ip).options) == [53, 54, 1, 51, 6, 3]
  {
    hide IsFirst, FirstWithCode, AddrsData, Filtered;
    LookupIff(pkt.options, 55);
    var full := FullOptions(cfg.offer.serverIp, kind, OfferOptions(cfg.offer));
    FullOptionsDistinct(cfg.offer, kind);
    FilterIsWanted(full, []);
    assert [] + Mandatory() == Mandatory();
    WantedMandatory(cfg, kind);
    var os := Filtered(full, []);
    assert os == Lend(cfg, kind, pkt, ip).options;
    assert Codes(os) == [53, 54, 1, 51, 6, 3];
  }

  lemma WantedMandatory(cfg: Config, kind: MessageType)
    ensures var full := FullOptions(cfg.offer.serverIp, kind, OfferOptions(cfg.offer));
            Wanted(full, Mandatory(), {}) == [full[0], full[1], full[3], full[2], full[5], full[4]]
  {
    hide FirstWithCode, AddrsData, Wanted, Distinct;
    var full := FullOptions(cfg.offer.serverIp, kind, OfferOptions(cfg.offer));
    FullOptionsDistinct(cfg.offer, kind);
    LookupIs(full, 0);
    LookupIs(full, 1);
    LookupIs(full, 2);
    LookupIs(full, 3);
    LookupIs(full, 4);
    LookupIs(full, 5);
    WantedSix(full, full[0], full[1], full[3], full[2], full[5], full[4]);
  }

  lemma LookupIs(full: seq<DhcpOption>, i: nat)
    requires Distinct(full) && i < |full|
    ensures FirstWithCode(full, Code(full[i])) == Some(full[i])
  {
    hide FirstWithCode, Code, Distinct;
    LookupExact(full, Code(full[i]));
  }

  lemma WantedSix(
      full: seq<DhcpOption>,
      a: DhcpOption, b: DhcpOption, c: DhcpOption, d: DhcpOption, e: DhcpOption, f: DhcpOption)
    requires FirstWithCode(full, 53) == Some(a) && FirstWithCode(full, 54) == Some(b)
    requires FirstWithCode(full, 1) == Some(c) && FirstWithCode(full, 51) == Some(d)
    requires FirstWithCode(full, 6) == Some(e) && FirstWithCode(full, 3) == Some(f)
    ensures Wanted(full, Mandatory(), {}) == [a, b, c, d, e, f]
  {
    hide FirstWithCode, Wanted;
    WantedNext(full, 53, [54, 1, 51, 6, 3], {}, a);
    WantedNext(full, 54, [1, 51, 6, 3], {53}, b);
    WantedNext(full, 1, [51, 6, 3], {53, 54}, c);
    WantedNext(full, 51, [6, 3], {53, 54, 1}, d);
    WantedNext(full, 6, [3], {53, 54, 1, 51}, e);
    WantedNext(full, 3, [], {53, 54, 1, 51, 6}, f);
    assert Mandatory() == [53] + [54, 1, 51, 6, 3];
    assert [54, 1, 51, 6, 3] == [54] + [1, 51, 6, 3] && [1, 51, 6, 3] == [1] + [51, 6, 3];
    assert [51, 6, 3] == [51] + [6, 3] && [6, 3] == [6] + [3] && [3] == [3] + [];
    assert {} + {53} == {53} && {53} + {54} == {53, 54} && {53, 54} + {1} == {53, 54, 1};
    assert {53, 54, 1} + {51} == {53, 54, 1, 51} && {53, 54, 1, 51} + {6} == {53, 54, 1, 51, 6};
    assert [a] + ([b] + ([c] + ([d] + ([e] + ([f] + []))))) == [a, b, c, d, e, f];
  }

  lemma WantedNext(full: seq<DhcpOption>, c: byte, codes: seq<byte>, taken: set<byte>, o: DhcpOption)
    requires c !in taken && FirstWithCode(full, c) == Some(o)
    ensures Wanted(full, [c] + codes, taken) == [o] + Wanted(full, codes, taken + {c})
    ensures codes == [] ==> Wanted(full, codes, taken + {c}) == []
  {
    assert ([c] + codes)[1..] == codes;
  }
}
