/**
 Replies of the DHCPv4 service: the option list built at startup, the header echoed from the
 request, the filter by what the client asked for; and how much of it reaches the wire.
 */
module Dhcpv4Reply {
  import opened Bytes
  import opened Dhcpv4Options
  import opened Dhcpv4Packet
  import opened OptionFilter

  datatype OfferConfig = OfferConfig(
    serverIp: Ip4, subnetMask: Ip4, routerIp: Ip4, dnsIps: seq<Ip4>, ntpIps: seq<Ip4>, enableNtp: bool, leaseSecs: u32)

  // ----- Building a reply -----

  function OfferOptions(cfg: OfferConfig): seq<DhcpOption> {
    [IpAddressLeaseTime(cfg.leaseSecs), SubnetMask(cfg.subnetMask),
     Router([cfg.routerIp]), DomainNameServer(cfg.dnsIps)]
    + if cfg.enableNtp && cfg.ntpIps != []
      then [Unrecognized(RawOption(NETWORK_TIME_PROTOCOL_SERVERS, AddrsData(cfg.ntpIps)))]
      else []
  }

  /** The list every Offer and Ack starts from; built once. */
  method BuildOfferOptions(cfg: OfferConfig) returns (opts: seq<DhcpOption>)
    ensures opts == OfferOptions(cfg)
  {
    opts := [];
    opts := opts + [IpAddressLeaseTime(cfg.leaseSecs)];
    opts := opts + [SubnetMask(cfg.subnetMask)];
    opts := opts + [Router([cfg.routerIp])];
    opts := opts + [DomainNameServer(cfg.dnsIps)];
    if cfg.enableNtp && cfg.ntpIps != [] {
      var data := Concatenated(cfg.ntpIps);
      opts := opts + [Unrecognized(RawOption(NETWORK_TIME_PROTOCOL_SERVERS, data))];
    }
  }

  /** All options of a reply before the filter. */
  function FullOptions(serverIp: Ip4, kind: MessageType, extra: seq<DhcpOption>): seq<DhcpOption> {
    [DhcpMessageType(kind), ServerIdentifier(serverIp)] + extra
  }

  function ReplyOptions(serverIp: Ip4, kind: MessageType, extra: seq<DhcpOption>, req: Packet): seq<DhcpOption> {
    match FirstWithCode(req.options, PARAMETER_REQUEST_LIST)
    case Some(ParameterRequestList(prl)) => Filtered(FullOptions(serverIp, kind, extra), prl)
    case _ => FullOptions(serverIp, kind, extra)
  }

  function ReplyPacket(serverIp: Ip4, kind: MessageType, extra: seq<DhcpOption>, offerIp: Ip4, req: Packet): Packet {
    Packet(
      true, 0, req.xid, 0, req.broadcast,
      if kind == Nak then 0 else req.ciaddr, offerIp, 0, req.giaddr, req.chaddr,
      ReplyOptions(serverIp, kind, extra, req))
  }

  method BuildReply(
      serverIp: Ip4, kind: MessageType, extra: seq<DhcpOption>, offerIp: Ip4, req: Packet) returns (reply: Packet)
    ensures reply == ReplyPacket(serverIp, kind, extra, offerIp, req)
  {
    hide Filtered, FirstWithCode;
    var ciaddr := if kind == Nak then 0 else req.ciaddr;
    var opts := [DhcpMessageType(kind), ServerIdentifier(serverIp)] + extra;
    match FirstWithCode(req.options, PARAMETER_REQUEST_LIST) {
      case Some(ParameterRequestList(prl)) =>
        var buffer := new DhcpOption[|opts|](i requires 0 <= i < |opts| => opts[i]);
        assert buffer[..] == opts;
        var kept := FilterByReq(buffer, prl);
        opts := buffer[..kept];
      case _ =>
    }
    reply := Packet(true, 0, req.xid, 0, req.broadcast, ciaddr, offerIp, 0, req.giaddr, req.chaddr, opts);
  }

  // ----- How much reaches the wire -----

  lemma {:induction false} SizeOfSwap(opts: seq<DhcpOption>, i: nat, j: nat)
    requires i < |opts| && j < |opts|
    ensures Size(Swapped(opts, i, j)) == Size(opts)
  {
    if i == j {
      SwapNothing(opts, i);
    } else {
      var (l, h) := if i < j then (i, j) else (j, i);
      var a, b, c := opts[..l], opts[l + 1..h], opts[h + 1..];
      assert opts == a + [opts[l]] + b + [opts[h]] + c;
      assert Swapped(opts, i, j) == a + [opts[h]] + b + [opts[l]] + c;
      SizeOfFive(a, opts[l], b, opts[h], c);
      SizeOfFive(a, opts[h], b, opts[l], c);
    }
  }

  lemma SizeOfFive(a: seq<DhcpOption>, x: DhcpOption, b: seq<DhcpOption>, y: DhcpOption, c: seq<DhcpOption>)
    ensures Size(a + [x] + b + [y] + c) == Size(a) + Size(b) + Size(c) + 4 + |Data(x)| + |Data(y)|
  {
    hide Data;
    SizeSplits(a, [x]);
    SizeSplits(a + [x], b);
    SizeSplits(a + [x] + b, [y]);
    SizeSplits(a + [x] + b + [y], c);
  }

  lemma {:induction false} SizeOfPicks(opts: seq<DhcpOption>, pos: nat, codes: seq<byte>)
    requires pos <= |opts|
    ensures Size(PickAll(opts, pos, codes).0) == Size(opts)
    decreases |codes|
  {
    hide Size, Swapped;
    if codes != [] {
      var (opts1, pos1) := Pick(opts, pos, codes[0]);
      SizeOfPicks(opts1, pos1, codes[1..]);
      match FindFrom(opts, pos, codes[0])
      case None =>
      case Some(i) => SizeOfSwap(opts, i, pos);
    }
  }

  /** Filtering never makes a list longer on the wire. */
  lemma FilterShrinks(opts: seq<DhcpOption>, prl: seq<byte>)
    ensures Size(Filtered(opts, prl)) <= Size(opts)
  {
    SizeOfPicks(opts, 0, prl + Mandatory());
    var (opts', kept) := PickAll(opts, 0, prl + Mandatory());
    PrefixSize(opts', kept);
  }

  lemma FittingIsEmitted(os: seq<DhcpOption>)
    ensures Emitted(os) == os <==> FitsWire(os)
  {
    EmittedIsLongest(os, |os|);
    assert os[..|os|] == os;
  }

  /** Servers listed in a reply: DNS, plus NTP when it is on. */
  function Servers(cfg: OfferConfig): nat {
    |cfg.dnsIps| + if cfg.enableNtp then |cfg.ntpIps| else 0
  }

  lemma SizeOfOffer(cfg: OfferConfig, kind: MessageType)
    ensures Size(FullOptions(cfg.serverIp, kind, OfferOptions(cfg))) ==
            29 + 4 * Servers(cfg) + if cfg.enableNtp && cfg.ntpIps != [] then 2 else 0
  {
    var os := FullOptions(cfg.serverIp, kind, OfferOptions(cfg));
    hide AddrsData, BigEndian;
    assert os[1..][0] == ServerIdentifier(cfg.serverIp);
    assert os[1..][1..][0] == IpAddressLeaseTime(cfg.leaseSecs);
    assert os[1..][1..][1..][0] == SubnetMask(cfg.subnetMask);
    assert os[1..][1..][1..][1..][0] == Router([cfg.routerIp]);
    assert os[1..][1..][1..][1..][1..][0] == DomainNameServer(cfg.dnsIps);
    var last := os[1..][1..][1..][1..][1..][1..];
    SizeOfTail(cfg, last);
    SizeOfSix(os);
  }

  lemma SizeOfSix(os: seq<DhcpOption>)
    requires |os| >= 6
    ensures Size(os) == 12 + |Data(os[0])| + |Data(os[1])| + |Data(os[2])|
                      + |Data(os[3])| + |Data(os[4])| + |Data(os[5])| + Size(os[6..])
  {
    hide Data;
    assert os == os[..6] + os[6..];
    SizeSplits(os[..6], os[6..]);
    var s := os[..6];
    assert s == [os[0]] + [os[1]] + [os[2]] + [os[3]] + [os[4]] + [os[5]];
    SizeSplits([os[0]], [os[1]]);
    SizeSplits([os[0]] + [os[1]], [os[2]]);
    SizeSplits([os[0]] + [os[1]] + [os[2]], [os[3]]);
    SizeSplits([os[0]] + [os[1]] + [os[2]] + [os[3]], [os[4]]);
    SizeSplits([os[0]] + [os[1]] + [os[2]] + [os[3]] + [os[4]], [os[5]]);
  }

  lemma SizeOfTail(cfg: OfferConfig, tail: seq<DhcpOption>)
    requires tail == if cfg.enableNtp && cfg.ntpIps != []
                     then [Unrecognized(RawOption(NETWORK_TIME_PROTOCOL_SERVERS, AddrsData(cfg.ntpIps)))]
                     else []
    ensures Size(tail) == if cfg.enableNtp && cfg.ntpIps != [] then 4 * |cfg.ntpIps| + 2 else 0
  {
  }

  lemma OfferFits(cfg: OfferConfig, kind: MessageType)
    ensures FitsWire(FullOptions(cfg.serverIp, kind, OfferOptions(cfg))) <==> Servers(cfg) <= 7
  {
    SizeOfOffer(cfg, kind);
  }

  /** With at most seven servers every option the filter keeps reaches the wire, whatever the client asks for. */
  lemma KeptOptionsReachWire(cfg: OfferConfig, kind: MessageType, offerIp: Ip4, req: Packet)
    requires Servers(cfg) <= 7
    ensures var reply := ReplyPacket(cfg.serverIp, kind, OfferOptions(cfg), offerIp, req);
            Emitted(reply.options) == reply.options
  {
    hide Filtered, FirstWithCode;
    var full := FullOptions(cfg.serverIp, kind, OfferOptions(cfg));
    OfferFits(cfg, kind);
    match FirstWithCode(req.options, PARAMETER_REQUEST_LIST) {
      case Some(ParameterRequestList(prl)) => FilterShrinks(full, prl);
      case _ =>
    }
    FittingIsEmitted(ReplyOptions(cfg.serverIp, kind, OfferOptions(cfg), req));
  }

  /** The exact bound: all kept options reach the wire for every request iff there are at most seven servers. */
  lemma ReplyBoundExact(cfg: OfferConfig, kind: MessageType, offerIp: Ip4)
    ensures Servers(cfg) <= 7 <==>
            forall req: Packet :: var reply := ReplyPacket(cfg.serverIp, kind, OfferOptions(cfg), offerIp, req);
                                  Emitted(reply.options) == reply.options
  {
    if Servers(cfg) <= 7 {
      forall req: Packet
        ensures var reply := ReplyPacket(cfg.serverIp, kind, OfferOptions(cfg), offerIp, req);
                Emitted(reply.options) == reply.options
      {
        KeptOptionsReachWire(cfg, kind, offerIp, req);
      }
    } else {
      var plain := Packet(false, 0, 0, 0, false, 0, 0, 0, 0, [0, 0, 0, 0, 0, 0], []);
      var reply := ReplyPacket(cfg.serverIp, kind, OfferOptions(cfg), offerIp, plain);
      OfferFits(cfg, kind);
      FittingIsEmitted(reply.options);
      assert Emitted(reply.options) != reply.options;
    }
  }

  lemma FullOptionsDistinct(cfg: OfferConfig, kind: MessageType)
    ensures Distinct(FullOptions(cfg.serverIp, kind, OfferOptions(cfg)))
  {
  }

  /** The codes every Offer and Ack carries on the wire, whatever the client asks for. */
  function AlwaysSent(): seq<byte> {
    [DHCP_MESSAGE_TYPE, SERVER_IDENTIFIER, IP_ADDRESS_LEASE_TIME, SUBNET_MASK, ROUTER, DOMAIN_NAME_SERVER]
  }

  lemma MandatoryOptionsReachWire(cfg: OfferConfig, kind: MessageType, offerIp: Ip4, req: Packet, c: byte)
    requires Servers(cfg) <= 7 && c in AlwaysSent()
    ensures HasCode(Emitted(ReplyPacket(cfg.serverIp, kind, OfferOptions(cfg), offerIp, req).options), c)
  {
    hide Filtered, FirstWithCode;
    KeptOptionsReachWire(cfg, kind, offerIp, req);
    var full := FullOptions(cfg.serverIp, kind, OfferOptions(cfg));
    FullHasAlwaysSent(cfg, kind, c);
    match FirstWithCode(req.options, PARAMETER_REQUEST_LIST) {
      case Some(ParameterRequestList(prl)) => FilterKeeps(full, prl, c);
      case _ =>
    }
  }

  lemma FullHasAlwaysSent(cfg: OfferConfig, kind: MessageType, c: byte)
    requires c in AlwaysSent()
    ensures HasCode(FullOptions(cfg.serverIp, kind, OfferOptions(cfg)), c) && c in Mandatory()
  {
    var os := FullOptions(cfg.serverIp, kind, OfferOptions(cfg));
    assert Code(os[0]) == DHCP_MESSAGE_TYPE && Code(os[1]) == SERVER_IDENTIFIER && Code(os[2]) == IP_ADDRESS_LEASE_TIME;
    assert Code(os[3]) == SUBNET_MASK && Code(os[4]) == ROUTER && Code(os[5]) == DOMAIN_NAME_SERVER;
  }
}
