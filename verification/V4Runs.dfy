/**
 What holds over every run of the DHCPv4 service: the index is exact, replies agree with the
 table, timed leases are safe until they expire, and host names follow their owners.
 */
module Dhcpv4Runs {
  import opened Wrappers
  import opened Bytes
  import opened Text
  import opened RoundRobin
  import opened Leases
  import opened SlotStore
  import opened Dhcpv4Options
  import opened Dhcpv4Packet
  import opened OptionFilter
  import opened Dhcpv4Reply
  import opened Dhcpv4Server

  // ----- The index -----

  /** The index is exactly the inverse of the lease table. */
  ghost predicate Exact(s: State) {
    && (forall m :: m in s.index ==> Holds(s.leases, m, s.index[m]))
    && (forall a :: a in s.leases ==> s.leases[a].client in s.index && s.index[s.leases[a].client] == a)
  }

  lemma ExactIsOneEach(s: State)
    requires Exact(s)
    ensures OneEach(s.leases)
  {
  }

  lemma InsertKeepsExact(s: State, ip: nat, mac: Mac, expiry: Option<Time>, name: Option<Utf8>)
    requires Exact(s) && IsCurrent(s.leases, mac, None)
    ensures Exact(InsertSpec(s, ip, mac, expiry, name))
  {
    var s' := InsertSpec(s, ip, mac, expiry, name);
    forall m | m in s'.index
      ensures Holds(s'.leases, m, s'.index[m])
    {
      if m != mac {
        assert Holds(s.leases, m, s.index[m]);
      }
    }
  }

  lemma RemoveKeepsExact(s: State, mac: Mac, ip: nat, other: Option<nat>)
    requires Exact(s) && Holds(s.leases, mac, ip) && IsCurrent(s.leases - {ip}, mac, other)
    ensures Exact(RemoveSpec(s, mac, ip, other))
  {
    assert forall a :: a in s.leases && s.leases[a].client == mac ==> a == ip;
    assert other.None?;
    var s' := RemoveSpec(s, mac, ip, other);
    assert s'.index == s.index - {mac};
    forall m | m in s'.index
      ensures Holds(s'.leases, m, s'.index[m])
    {
      assert Holds(s.leases, m, s.index[m]);
    }
  }

  lemma RememberKeepsExact(s: State, ip: nat, name: Option<Utf8>)
    requires Exact(s)
    ensures Exact(RememberSpec(s, ip, name))
  {
    var s' := RememberSpec(s, ip, name);
    forall m | m in s'.index
      ensures Holds(s'.leases, m, s'.index[m])
    {
      assert Holds(s.leases, m, s.index[m]);
    }
  }

  lemma CursorKeepsExact(s: State, last: nat)
    requires Exact(s)
    ensures Exact(s.(last := last))
  {
  }

  /** Every handled packet keeps the index exact, takeovers of expired or infinite leases included. */
  lemma StepKeepsExact(cfg: Config, s: State, pkt: Packet, now: Time, s': State, reply: Option<Packet>)
    requires ServerStep(cfg, s, pkt, now, s', reply) && Exact(s)
    ensures Exact(s')
  {
    hide Exact, InsertSpec, RemoveSpec, RememberSpec, DiscoverSpec, Lend, Refuse, TypeOf, HostNameOf, IsRapid;
    hide Available, RequestedIp, ForThisServer;
    var cur, other :| StepWith(cfg, s, pkt, now, cur, other, s', reply);
    match TypeOf(pkt.options) {
      case Some(Discover) =>
        if cur.Some? {
          RememberKeepsExact(s, cur.value, HostNameOf(pkt));
        } else {
          var (t, pick) := DiscoverSpec(PolicyOf(cfg), Table(s.leases, s.last), None, now);
          if pick.Some? {
            CursorKeepsExact(s, t.last);
            InsertKeepsExact(s.(last := t.last), pick.value, pkt.chaddr, Some(now + DurationOf(cfg)), HostNameOf(pkt));
          }
        }
      case Some(Request) =>
        if cur.Some? {
          RememberKeepsExact(s, cur.value, HostNameOf(pkt));
        } else {
          InsertKeepsExact(s, RequestedIp(pkt), pkt.chaddr, Some(now + DurationOf(cfg)), HostNameOf(pkt));
        }
      case Some(Release) | Some(Decline) =>
        if cur.Some? {
          RemoveKeepsExact(s, pkt.chaddr, cur.value, other);
        }
      case _ =>
    }
  }

  lemma {:induction false} RunKeepsExact(
      cfg: Config, ss: seq<State>, evs: seq<Event>, replies: seq<Option<Packet>>, i: nat)
    requires IsRun(cfg, ss, evs, replies) && i <= |evs| && Exact(ss[0])
    ensures Exact(ss[i]) && OneEach(ss[i].leases)
  {
    hide ServerStep, Exact, OneEach;
    if i > 0 {
      RunKeepsExact(cfg, ss, evs, replies, i - 1);
      assert ServerStep(cfg, ss[i - 1], evs[i - 1].pkt, evs[i - 1].now, ss[i - 1 + 1], replies[i - 1]);
      StepKeepsExact(cfg, ss[i - 1], evs[i - 1].pkt, evs[i - 1].now, ss[i], replies[i - 1]);
    }
    ExactIsOneEach(ss[i]);
  }

  // ----- The leases file -----

  /** Line `i` is the last one to name its address. */
  predicate LastAtAddress(lines: seq<(Mac, Ip4)>, i: nat) {
    i < |lines| && forall k :: i < k < |lines| ==> lines[k].1 != lines[i].1
  }

  /** Line `i` is the last one to name its MAC. */
  predicate LastOfMac(lines: seq<(Mac, Ip4)>, i: nat) {
    i < |lines| && forall k :: i < k < |lines| ==> lines[k].0 != lines[i].0
  }

  /** When a MAC is named again, its earlier address is named again too, for whichever MAC. */
  predicate Unambiguous(lines: seq<(Mac, Ip4)>) {
    forall i, j :: 0 <= i < j < |lines| && lines[i].0 == lines[j].0 ==>
                     exists k :: i < k < |lines| && lines[k].1 == lines[i].1
  }

  /** The last line at an address decides who holds it. */
  lemma {:induction false} LastLineHolds(lines: seq<(Mac, Ip4)>, i: nat)
    requires LastAtAddress(lines, i)
    ensures Holds(Reserved(lines).leases, lines[i].0, lines[i].1)
  {
    if i < |lines| - 1 {
      LastLineHolds(lines[..|lines| - 1], i);
    }
  }

  lemma {:induction false} HeldHasLine(lines: seq<(Mac, Ip4)>, a: nat) returns (i: nat)
    requires a in Reserved(lines).leases
    ensures LastAtAddress(lines, i) && lines[i].1 == a
  {
    i := |lines| - 1;
    if lines[i].1 != a {
      i := HeldHasLine(lines[..|lines| - 1], a);
    }
  }

  /** An index entry comes from the last line of its MAC, and that line decides who holds the address. */
  lemma {:induction false} IndexHasLine(lines: seq<(Mac, Ip4)>, m: Mac) returns (i: nat)
    requires m in Reserved(lines).index
    ensures LastOfMac(lines, i) && LastAtAddress(lines, i) && lines[i] == (m, Reserved(lines).index[m])
  {
    i := |lines| - 1;
    if lines[i].0 != m {
      var front := lines[..|lines| - 1];
      i := IndexHasLine(front, m);
      LastLineHolds(front, i);
    }
  }

  lemma {:induction false} LineIsIndexed(lines: seq<(Mac, Ip4)>, i: nat)
    requires LastOfMac(lines, i) && LastAtAddress(lines, i)
    ensures lines[i].0 in Reserved(lines).index && Reserved(lines).index[lines[i].0] == lines[i].1
  {
    if i < |lines| - 1 {
      LineIsIndexed(lines[..|lines| - 1], i);
    }
  }

  /** The exact condition: a leases file gives an exact index iff it is unambiguous. */
  lemma ReservedIsExactIff(lines: seq<(Mac, Ip4)>)
    ensures Exact(Reserved(lines)) <==> Unambiguous(lines)
  {
    hide Reserved;
    var s := Reserved(lines);
    if Unambiguous(lines) {
      forall m | m in s.index
        ensures Holds(s.leases, m, s.index[m])
      {
        var i := IndexHasLine(lines, m);
        LastLineHolds(lines, i);
      }
      forall a | a in s.leases
        ensures s.leases[a].client in s.index && s.index[s.leases[a].client] == a
      {
        var i := HeldHasLine(lines, a);
        LastLineHolds(lines, i);
        LineIsIndexed(lines, i);
      }
    } else {
      var i, j :| 0 <= i < j < |lines| && lines[i].0 == lines[j].0 && LastAtAddress(lines, i);
      LastLineHolds(lines, i);
      if Exact(s) {
        var _ := IndexHasLine(lines, lines[i].0);
      }
    }
  }

  /** Every run of the service from such a file: one address per client and an exact index after every packet. */
  lemma ServiceKeepsExact(
      cfg: Config, lines: seq<(Mac, Ip4)>, ss: seq<State>, evs: seq<Event>, replies: seq<Option<Packet>>, i: nat)
    requires IsRun(cfg, ss, evs, replies) && ss[0] == Reserved(lines) && Unambiguous(lines) && i <= |evs|
    ensures Exact(ss[i]) && OneEach(ss[i].leases)
  {
    ReservedIsExactIff(lines);
    RunKeepsExact(cfg, ss, evs, replies, i);
  }

  // ----- Both storage modes -----

  lemma OthersAreNone(m: map<nat, Lease4>, c: Mac, a: nat, other: Option<nat>)
    requires OneEach(m) && Holds(m, c, a) && IsCurrent(m - {a}, c, other)
    ensures other == None
  {
  }

  /** With an exact index a packet has one outcome. */
  lemma StepIsDecided(
      cfg: Config, s: State, pkt: Packet, now: Time, s1: State, r1: Option<Packet>, s2: State, r2: Option<Packet>)
    requires Exact(s) && ServerStep(cfg, s, pkt, now, s1, r1) && ServerStep(cfg, s, pkt, now, s2, r2)
    ensures s1 == s2 && r1 == r2
  {
    hide Exact, Handled, IsCurrent, OneEach, Hinted;
    ExactIsOneEach(s);
    var cur1: Option<nat>, other1: Option<nat> :| StepWith(cfg, s, pkt, now, cur1, other1, s1, r1);
    var cur2: Option<nat>, other2: Option<nat> :| StepWith(cfg, s, pkt, now, cur2, other2, s2, r2);
    CurrentIsUnique(s.leases, pkt.chaddr, cur1, cur2);
    OtherIsIrrelevant(cfg, s, cur1, other1, other2, pkt, now);
  }

  lemma OtherIsIrrelevant(
      cfg: Config, s: State, cur: Option<nat>, other1: Option<nat>, other2: Option<nat>, pkt: Packet, now: Time)
    requires OneEach(s.leases) && IsCurrent(s.leases, pkt.chaddr, cur)
    requires cur.Some? ==> IsCurrent(s.leases - {cur.value}, pkt.chaddr, other1)
    requires cur.Some? ==> IsCurrent(s.leases - {cur.value}, pkt.chaddr, other2)
    ensures Handled(cfg, s, cur, other1, pkt, now) == Handled(cfg, s, cur, other2, pkt, now)
  {
    hide OneEach, TypeOf, OnDiscover, OnRequest, RemoveSpec, ForThisServer;
    if cur.Some? {
      OthersAreNone(s.leases, pkt.chaddr, cur.value, other1);
      OthersAreNone(s.leases, pkt.chaddr, cur.value, other2);
    }
  }

  lemma SplitLast<T>(s: seq<T>, t: seq<T>)
    requires |s| == |t| > 0 && s[..|s| - 1] == t[..|t| - 1] && s[|s| - 1] == t[|t| - 1]
    ensures s == t
  {
    assert s == s[..|s| - 1] + [s[|s| - 1]] && t == t[..|t| - 1] + [t[|t| - 1]];
  }

  /** From an exact index the packets decide the whole run. */
  lemma {:induction false} RunsAgree(
      cfg: Config, evs: seq<Event>,
      ss: seq<State>, replies: seq<Option<Packet>>, us: seq<State>, answers: seq<Option<Packet>>)
    requires IsRun(cfg, ss, evs, replies) && IsRun(cfg, us, evs, answers)
    requires ss[0] == us[0] && Exact(ss[0])
    ensures ss == us && replies == answers
  {
    hide Exact, ServerStep;
    if evs != [] {
      var n := |evs| - 1;
      RunsAgree(cfg, evs[..n], ss[..n + 1], replies[..n], us[..n + 1], answers[..n]);
      RunKeepsExact(cfg, ss, evs, replies, n);
      assert ss[..n + 1][n] == us[..n + 1][n];
      StepIsDecided(cfg, ss[n], evs[n].pkt, evs[n].now, ss[n + 1], replies[n], us[n + 1], answers[n]);
      SplitLast(ss, us);
      SplitLast(replies, answers);
    }
  }

  /** Two runs from an exact index over the same packets send the same and end alike. */
  lemma ServedAgree(
      cfg: Config, s: State, evs: seq<Event>,
      sent1: seq<Option<seq<byte>>>, s1: State, sent2: seq<Option<seq<byte>>>, s2: State)
    requires Exact(s) && Served(cfg, s, evs, sent1, s1) && Served(cfg, s, evs, sent2, s2)
    ensures sent1 == sent2 && s1 == s2
  {
    hide Exact, ServerStep, OnWire;
    var ss, replies :| IsRun(cfg, ss, evs, replies) && ss[0] == s && ss[|evs|] == s1 && AllOnWire(replies, sent1);
    var us, answers :| IsRun(cfg, us, evs, answers) && us[0] == s && us[|evs|] == s2 && AllOnWire(answers, sent2);
    RunsAgree(cfg, evs, ss, replies, us, answers);
  }

  /**
   The storage mode cannot be told from outside: servers with any two slot limits, loaded from the same
   unambiguous leases file, send the same over the same datagrams and come to hold the same.
   */
  method ServeOnBoth(cfg: Config, limit1: nat, limit2: nat, lines: seq<(Mac, Ip4)>, dgs: seq<Datagram>)
    returns (p: MyServer, q: MyServer, sent1: seq<Option<seq<byte>>>, sent2: seq<Option<seq<byte>>>)
    requires Validated(cfg) && Unambiguous(lines)
    ensures p.useSlots == (cfg.leaseNum <= limit1) && q.useSlots == (cfg.leaseNum <= limit2)
    ensures sent1 == sent2 && p.Contents() == q.Contents()
    ensures Served(cfg, Reserved(lines), Understood(dgs), sent1, p.Contents())
  {
    hide MyServer.Valid, Served, Understood, Reserved, Exact;
    p := new MyServer(cfg, limit1);
    p.LoadReservations(lines);
    q := new MyServer(cfg, limit2);
    q.LoadReservations(lines);
    sent1 := ServeAll(p, dgs);
    sent2 := ServeAll(q, dgs);
    ReservedIsExactIff(lines);
    ServedAgree(cfg, Reserved(lines), Understood(dgs), sent1, p.Contents(), sent2, q.Contents());
  }

  // ----- Replies and the table -----

  ghost predicate InSpace(s: State) {
    forall a :: a in s.leases ==> a < ADDRESS_SPACE
  }

  /** Same addresses, owners and expiries; host names may differ. */
  ghost predicate SameOwners(s: State, s': State) {
    && s'.leases.Keys == s.leases.Keys
    && forall a :: a in s.leases ==>
                     s'.leases[a].client == s.leases[a].client && s'.leases[a].expiry == s.leases[a].expiry
  }

  /** A reply carries its message type through the filter, and echoes the request. */
  lemma ReplyKind(serverIp: Ip4, kind: MessageType, extra: seq<DhcpOption>, ip: Ip4, req: Packet)
    requires Distinct(FullOptions(serverIp, kind, extra))
    ensures var r := ReplyPacket(serverIp, kind, extra, ip, req);
            && TypeOf(r.options) == Some(kind)
            && FirstWithCode(r.options, SERVER_IDENTIFIER) == Some(ServerIdentifier(serverIp))
            && r.reply && r.yiaddr == ip
            && r.xid == req.xid && r.chaddr == req.chaddr && r.giaddr == req.giaddr && r.broadcast == req.broadcast
  {
    hide Filtered, Distinct, OfferOptions;
    var full := FullOptions(serverIp, kind, extra);
    assert FirstWithCode(full, DHCP_MESSAGE_TYPE) == Some(full[0]);
    assert FirstWithCode(full, SERVER_IDENTIFIER) == FirstWithCode(full[1..], SERVER_IDENTIFIER) == Some(full[1]);
    match FirstWithCode(req.options, PARAMETER_REQUEST_LIST) {
      case Some(ParameterRequestList(prl)) =>
        assert DHCP_MESSAGE_TYPE in prl + Mandatory() && SERVER_IDENTIFIER in prl + Mandatory() by {
          assert (prl + Mandatory())[|prl|] == DHCP_MESSAGE_TYPE && (prl + Mandatory())[|prl| + 1] == SERVER_IDENTIFIER;
        }
        FilterKeepsLookup(full, prl, DHCP_MESSAGE_TYPE);
        FilterKeepsLookup(full, prl, SERVER_IDENTIFIER);
      case _ =>
    }
  }

  /** A reply of this server to `pkt`: it can be told apart, matched and routed back. */
  predicate Echoes(cfg: Config, pkt: Packet, r: Packet) {
    && r.reply && ForThisServer(cfg, r)
    && r.xid == pkt.xid && r.chaddr == pkt.chaddr && r.giaddr == pkt.giaddr && r.broadcast == pkt.broadcast
  }

  lemma LendKind(cfg: Config, kind: MessageType, pkt: Packet, ip: nat)
    requires ip < ADDRESS_SPACE
    ensures var r := Lend(cfg, kind, pkt, ip);
            TypeOf(r.options) == Some(kind) && r.yiaddr == ip && Echoes(cfg, pkt, r)
  {
    FullOptionsDistinct(cfg.offer, kind);
    ReplyKind(cfg.offer.serverIp, kind, OfferOptions(cfg.offer), ip, pkt);
  }

  lemma NakDistinct(serverIp: Ip4, text: Utf8)
    ensures Distinct(FullOptions(serverIp, Nak, [Message(text)]))
  {
    hide ValidUtf8;
    var os := FullOptions(serverIp, Nak, [Message(text)]);
    assert |os| == 3 && Code(os[0]) == DHCP_MESSAGE_TYPE && Code(os[1]) == SERVER_IDENTIFIER && Code(os[2]) == MESSAGE;
  }

  lemma RefuseKind(cfg: Config, pkt: Packet)
    ensures var r := Refuse(cfg, pkt);
            TypeOf(r.options) == Some(Nak) && r.yiaddr == 0 && Echoes(cfg, pkt, r)
  {
    hide ReplyPacket, Ascii, TypeOf, FirstWithCode, FullOptions, Distinct;
    var text := Ascii("Requested IP not available");
    NakDistinct(cfg.offer.serverIp, text);
    ReplyKind(cfg.offer.serverIp, Nak, [Message(text)], 0, pkt);
  }

  lemma RememberOutcome(s: State, ip: nat, name: Option<Utf8>)
    ensures SameOwners(s, RememberSpec(s, ip, name))
    ensures InSpace(s) ==> InSpace(RememberSpec(s, ip, name))
  {
  }

  lemma InsertOutcome(s: State, ip: nat, mac: Mac, expiry: Option<Time>, name: Option<Utf8>)
    requires InSpace(s) && ip < ADDRESS_SPACE
    ensures var s' := InsertSpec(s, ip, mac, expiry, name); Holds(s'.leases, mac, ip) && InSpace(s')
  {
  }

  lemma PickOutcome(cfg: Config, s: State, mac: Mac, now: Time)
    requires Validated(cfg) && IsCurrent(s.leases, mac, None)
    ensures var (t, pick) := DiscoverSpec(PolicyOf(cfg), Table(s.leases, s.last), None, now);
            && (pick.Some? ==> pick.value < ADDRESS_SPACE && Available(PolicyOf(cfg), s.leases, mac, now, pick.value))
            && (pick.None? <==> forall a :: !Available(PolicyOf(cfg), s.leases, mac, now, a))
  {
    DiscoverComplete(PolicyOf(cfg), Table(s.leases, s.last), mac, now);
  }

  /** What a reply tells its client is what the table says. */
  ghost predicate Agrees(cfg: Config, s: State, pkt: Packet, s': State, reply: Option<Packet>) {
    match reply
    case None =>
      && TypeOf(pkt.options) != Some(Request)
      && (TypeOf(pkt.options) == Some(Discover) ==> s' == s)
    case Some(r) =>
      && Echoes(cfg, pkt, r)
      && match TypeOf(r.options)
         case Some(Ack) =>
           && Holds(s'.leases, pkt.chaddr, r.yiaddr)
           && (TypeOf(pkt.options) == Some(Request) || (TypeOf(pkt.options) == Some(Discover) && IsRapid(cfg, pkt)))
         case Some(Offer) => SameOwners(s, s') && TypeOf(pkt.options) == Some(Discover) && !IsRapid(cfg, pkt)
         case Some(Nak) => s' == s && r.yiaddr == 0 && TypeOf(pkt.options) == Some(Request)
         case _ => false
  }

  /**
   Every Ack, normal or rapid, names an address the table assigns to that client afterwards;
   an Offer, a Nak or a silent Discover leaves every address with its owner.
   */
  lemma RepliesAgreeWithTable(cfg: Config, s: State, pkt: Packet, now: Time, s': State, reply: Option<Packet>)
    requires ServerStep(cfg, s, pkt, now, s', reply) && Validated(cfg) && InSpace(s)
    ensures Agrees(cfg, s, pkt, s', reply) && InSpace(s')
  {
    hide InsertSpec, RemoveSpec, RememberSpec, DiscoverSpec, Lend, Refuse, TypeOf, HostNameOf, IsRapid;
    hide Available, RequestedIp, ForThisServer, InSpace, Echoes;
    var cur, other :| StepWith(cfg, s, pkt, now, cur, other, s', reply);
    match TypeOf(pkt.options) {
      case Some(Discover) => DiscoverAgrees(cfg, s, cur, pkt, now);
      case Some(Request) => RequestAgrees(cfg, s, cur, pkt, now);
      case Some(Release) | Some(Decline) => RemoveOutcome(s, pkt.chaddr, cur, other);
      case _ =>
    }
  }

  lemma RemoveOutcome(s: State, mac: Mac, cur: Option<nat>, other: Option<nat>)
    requires InSpace(s)
    ensures cur.Some? ==> InSpace(RemoveSpec(s, mac, cur.value, other))
  {
  }

  lemma DiscoverAgrees(cfg: Config, s: State, cur: Option<nat>, pkt: Packet, now: Time)
    requires Validated(cfg) && InSpace(s)
    requires IsCurrent(s.leases, pkt.chaddr, cur) && TypeOf(pkt.options) == Some(Discover)
    ensures var (s', reply) := OnDiscover(cfg, s, cur, pkt, now); Agrees(cfg, s, pkt, s', reply) && InSpace(s')
  {
    hide InsertSpec, RememberSpec, DiscoverSpec, Lend, TypeOf, HostNameOf, IsRapid, Available, Echoes;
    var kind := if IsRapid(cfg, pkt) then Ack else Offer;
    match cur
    case Some(ip) =>
      LendKind(cfg, kind, pkt, ip);
      RememberOutcome(s, ip, HostNameOf(pkt));
    case None =>
      PickOutcome(cfg, s, pkt.chaddr, now);
      var (t, pick) := DiscoverSpec(PolicyOf(cfg), Table(s.leases, s.last), None, now);
      if pick.Some? {
        LendKind(cfg, kind, pkt, pick.value);
        InsertOutcome(s.(last := t.last), pick.value, pkt.chaddr, Some(now + DurationOf(cfg)), HostNameOf(pkt));
      }
  }

  lemma RequestAgrees(cfg: Config, s: State, cur: Option<nat>, pkt: Packet, now: Time)
    requires InSpace(s) && IsCurrent(s.leases, pkt.chaddr, cur) && TypeOf(pkt.options) == Some(Request)
    ensures var (s', reply) := OnRequest(cfg, s, cur, pkt, now); Agrees(cfg, s, pkt, s', reply) && InSpace(s')
  {
    hide InsertSpec, RememberSpec, Lend, Refuse, TypeOf, HostNameOf, Available, RequestedIp, Echoes;
    match cur
    case Some(ip) =>
      LendKind(cfg, Ack, pkt, ip);
      RememberOutcome(s, ip, HostNameOf(pkt));
    case None =>
      RefuseKind(cfg, pkt);
      LendKind(cfg, Ack, pkt, RequestedIp(pkt));
      InsertOutcome(s, RequestedIp(pkt), pkt.chaddr, Some(now + DurationOf(cfg)), HostNameOf(pkt));
  }

  /**
   With at most seven servers configured, every Offer and Ack puts all its options on the wire, and
   they include the mandatory ones, whatever the client asked for.
   */
  lemma OffersReachWire(cfg: Config, s: State, pkt: Packet, now: Time, s': State, reply: Option<Packet>, c: byte)
    requires ServerStep(cfg, s, pkt, now, s', reply) && reply.Some? && Servers(cfg.offer) <= 7
    requires TypeOf(reply.value.options) != Some(Nak) && c in AlwaysSent()
    ensures Emitted(reply.value.options) == reply.value.options && HasCode(reply.value.options, c)
  {
    hide RememberSpec, InsertSpec, DiscoverSpec, Refuse, Lend, TypeOf, HostNameOf, IsRapid, Available;
    hide Emitted, HasCode, AlwaysSent, ForThisServer;
    var cur: Option<nat>, other: Option<nat> :| StepWith(cfg, s, pkt, now, cur, other, s', reply);
    RefuseKind(cfg, pkt);
    match TypeOf(pkt.options) {
      case Some(Discover) =>
        var kind := if IsRapid(cfg, pkt) then Ack else Offer;
        if cur.Some? {
          LentReachesWire(cfg, kind, pkt, cur.value, c);
        } else {
          var pick := DiscoverSpec(PolicyOf(cfg), Table(s.leases, s.last), None, now).1;
          LentReachesWire(cfg, kind, pkt, pick.value, c);
        }
      case Some(Request) =>
        if cur.Some? {
          LentReachesWire(cfg, Ack, pkt, cur.value, c);
        } else {
          LentReachesWire(cfg, Ack, pkt, RequestedIp(pkt), c);
        }
      case _ =>
    }
  }

  lemma LentReachesWire(cfg: Config, kind: MessageType, pkt: Packet, ip: nat, c: byte)
    requires Servers(cfg.offer) <= 7 && c in AlwaysSent()
    ensures var r := Lend(cfg, kind, pkt, ip); Emitted(r.options) == r.options && HasCode(r.options, c)
  {
    hide ReplyPacket, OfferOptions, AlwaysSent, Emitted, HasCode;
    var addr: Ip4 := if ip < ADDRESS_SPACE then ip else 0;
    KeptOptionsReachWire(cfg.offer, kind, addr, pkt);
    MandatoryOptionsReachWire(cfg.offer, kind, addr, pkt, c);
  }

  /** The service keeps addresses within 32 bits. */
  lemma {:induction false} RunInSpace(
      cfg: Config, ss: seq<State>, evs: seq<Event>, replies: seq<Option<Packet>>, i: nat)
    requires IsRun(cfg, ss, evs, replies) && i <= |evs| && Validated(cfg) && InSpace(ss[0])
    ensures InSpace(ss[i])
  {
    hide ServerStep, InSpace;
    if i > 0 {
      RunInSpace(cfg, ss, evs, replies, i - 1);
      assert ServerStep(cfg, ss[i - 1], evs[i - 1].pkt, evs[i - 1].now, ss[i - 1 + 1], replies[i - 1]);
      RepliesAgreeWithTable(cfg, ss[i - 1], evs[i - 1].pkt, evs[i - 1].now, ss[i], replies[i - 1]);
    }
  }

  lemma {:induction false} ReservedInSpace(lines: seq<(Mac, Ip4)>)
    ensures InSpace(Reserved(lines))
  {
    if lines != [] {
      var (mac, ip) := lines[|lines| - 1];
      ReservedInSpace(lines[..|lines| - 1]);
      InsertOutcome(Reserved(lines[..|lines| - 1]), ip, mac, None, None);
    }
  }

  /** A Discover is left unanswered iff its client holds no lease and no pool address is available to it. */
  lemma SilentIffExhausted(cfg: Config, s: State, pkt: Packet, now: Time, s': State, reply: Option<Packet>)
    requires ServerStep(cfg, s, pkt, now, s', reply) && Validated(cfg) && TypeOf(pkt.options) == Some(Discover)
    ensures reply == None <==>
            IsCurrent(s.leases, pkt.chaddr, None) && forall a :: !Available(PolicyOf(cfg), s.leases, pkt.chaddr, now, a)
  {
    hide RememberSpec, InsertSpec, DiscoverSpec, Lend, TypeOf, HostNameOf, IsRapid, Available;
    var cur, other :| StepWith(cfg, s, pkt, now, cur, other, s', reply);
    if cur.None? {
      PickOutcome(cfg, s, pkt.chaddr, now);
    }
  }

  /**
   A Request is refused iff its client holds no lease and the address it asks for is not available to it;
   the Ack of a client without a lease gives the address it asked for.
   */
  lemma NakIffUnavailable(
      cfg: Config, s: State, pkt: Packet, now: Time, s': State, reply: Option<Packet>, x: Ip4)
    requires ServerStep(cfg, s, pkt, now, s', reply) && Validated(cfg) && InSpace(s)
    requires TypeOf(pkt.options) == Some(Request) && AsksFor(pkt, x)
    ensures reply.Some?
    ensures TypeOf(reply.value.options) == Some(Nak) <==>
            IsCurrent(s.leases, pkt.chaddr, None) && !Available(PolicyOf(cfg), s.leases, pkt.chaddr, now, x)
    ensures IsCurrent(s.leases, pkt.chaddr, None) && TypeOf(reply.value.options) == Some(Ack) ==>
              reply.value.yiaddr == x
  {
    hide AsksFor, RequestedIp, RememberSpec, InsertSpec, DiscoverSpec, Lend, Refuse, TypeOf, HostNameOf;
    hide IsRapid, Available, Echoes;
    var cur: Option<nat>, other: Option<nat> :| StepWith(cfg, s, pkt, now, cur, other, s', reply);
    RefuseKind(cfg, pkt);
    AsksForIff(pkt, x);
    if cur.Some? {
      LendKind(cfg, Ack, pkt, cur.value);
    } else {
      LendKind(cfg, Ack, pkt, RequestedIp(pkt));
    }
  }

  /** A Release or Decline naming this server drops exactly one lease of its sender, if it holds any. */
  lemma ReleaseDropsOne(cfg: Config, s: State, pkt: Packet, now: Time, s': State, reply: Option<Packet>)
    requires ServerStep(cfg, s, pkt, now, s', reply) && ReleasedBy(cfg, pkt, pkt.chaddr)
    ensures reply == None
    ensures if exists a :: Holds(s.leases, pkt.chaddr, a)
            then exists a :: Holds(s.leases, pkt.chaddr, a) && s'.leases == s.leases - {a}
            else s' == s
  {
    hide TypeOf, ForThisServer, IndexAfterRemove;
    var cur, other :| StepWith(cfg, s, pkt, now, cur, other, s', reply);
    if cur.Some? {
      assert Holds(s.leases, pkt.chaddr, cur.value);
    }
  }

  /** If the index named the dropped address, it names another one its sender holds, if there is one. */
  lemma ReleaseRepairs(cfg: Config, s: State, pkt: Packet, now: Time, s': State, reply: Option<Packet>)
    requires ServerStep(cfg, s, pkt, now, s', reply) && ReleasedBy(cfg, pkt, pkt.chaddr)
    requires pkt.chaddr in s.index && Holds(s.leases, pkt.chaddr, s.index[pkt.chaddr])
    ensures s'.leases == s.leases - {s.index[pkt.chaddr]}
    ensures if pkt.chaddr in s'.index then Holds(s'.leases, pkt.chaddr, s'.index[pkt.chaddr])
            else IsCurrent(s'.leases, pkt.chaddr, None)
    ensures forall m :: m != pkt.chaddr ==> (m in s'.index <==> m in s.index)
    ensures forall m :: m != pkt.chaddr && m in s.index ==> s'.index[m] == s.index[m]
  {
    hide TypeOf, ForThisServer;
    var cur, other :| StepWith(cfg, s, pkt, now, cur, other, s', reply);
  }

  lemma NewByInsert(s: State, ip: nat, mac: Mac, expiry: Option<Time>, name: Option<Utf8>, last: nat, a: nat)
    requires var s' := InsertSpec(s.(last := last), ip, mac, expiry, name);
             a in s'.leases && !(a in s.leases && s.leases[a].client == s'.leases[a].client)
    ensures a == ip && InsertSpec(s.(last := last), ip, mac, expiry, name).leases[a] == Lease(mac, expiry, name)
  {
  }

  lemma NothingNew(s: State, mac: Mac, ip: nat, other: Option<nat>, name: Option<Utf8>, a: nat)
    ensures a in RemoveSpec(s, mac, ip, other).leases ==>
              a in s.leases && s.leases[a].client == RemoveSpec(s, mac, ip, other).leases[a].client
    ensures a in RememberSpec(s, ip, name).leases ==>
              a in s.leases && s.leases[a].client == RememberSpec(s, ip, name).leases[a].client
  {
  }

  /** A lease that is new, or new to its holder, is the sender's, runs from now, and was available to it. */
  lemma NewLeaseIsTimed(cfg: Config, s: State, pkt: Packet, now: Time, s': State, reply: Option<Packet>, a: nat)
    requires ServerStep(cfg, s, pkt, now, s', reply)
    requires a in s'.leases && !(a in s.leases && s.leases[a].client == s'.leases[a].client)
    ensures s'.leases[a].client == pkt.chaddr && s'.leases[a].expiry == Some(now + DurationOf(cfg))
    ensures IsCurrent(s.leases, pkt.chaddr, None) && Available(PolicyOf(cfg), s.leases, pkt.chaddr, now, a)
  {
    hide Lend, Refuse, TypeOf, HostNameOf, IsRapid, ForThisServer, DiscoverSpec, InsertSpec, RemoveSpec;
    hide RememberSpec, Available;
    var cur, other :| StepWith(cfg, s, pkt, now, cur, other, s', reply);
    if cur.Some? {
      NothingNew(s, pkt.chaddr, cur.value, other, HostNameOf(pkt), a);
    } else {
      DiscoverComplete(PolicyOf(cfg), Table(s.leases, s.last), pkt.chaddr, now);
      var (t, pick) := DiscoverSpec(PolicyOf(cfg), Table(s.leases, s.last), None, now);
      var expiry := Some(now + DurationOf(cfg));
      if TypeOf(pkt.options) == Some(Discover) {
        NewByInsert(s, pick.value, pkt.chaddr, expiry, HostNameOf(pkt), t.last, a);
      } else {
        assert s.(last := s.last) == s;
        NewByInsert(s, RequestedIp(pkt), pkt.chaddr, expiry, HostNameOf(pkt), s.last, a);
      }
    }
  }

  /** Every packet has a step, whatever the state. */
  lemma StepExists(cfg: Config, s: State, pkt: Packet, now: Time)
    ensures exists s': State, reply: Option<Packet> :: ServerStep(cfg, s, pkt, now, s', reply)
  {
    hide Handled;
    var mac := pkt.chaddr;
    var hinted := mac in s.index && Holds(s.leases, mac, s.index[mac]);
    var cur := if hinted then Some(s.index[mac]) else SomeCurrent(s.leases, mac);
    var other := if cur.Some? then SomeCurrent(s.leases - {cur.value}, pkt.chaddr) else None;
    var (s', reply) := Handled(cfg, s, cur, other, pkt, now);
    assert StepWith(cfg, s, pkt, now, cur, other, s', reply);
    assert ServerStep(cfg, s, pkt, now, s', reply);
  }

  ghost function SomeCurrent(m: map<nat, Lease4>, mac: Mac): (cur: Option<nat>)
    ensures IsCurrent(m, mac, cur)
  {
    if a :| a in m && m[a].client == mac then Some(a) else None
  }

  /**
   What cannot change an owner: packets of other types, Release and Decline without this server's
   identifier, and Discover unless rapid commit is both enabled and asked for.
   */
  lemma OwnersUntouched(cfg: Config, s: State, pkt: Packet, now: Time, s': State, reply: Option<Packet>)
    requires ServerStep(cfg, s, pkt, now, s', reply)
    requires match TypeOf(pkt.options)
             case Some(Discover) => !cfg.rapidCommit || !HasCode(pkt.options, RAPID_COMMIT)
             case Some(Release) => ServerIdentifier(cfg.offer.serverIp) !in pkt.options
             case Some(Decline) => ServerIdentifier(cfg.offer.serverIp) !in pkt.options
             case Some(Request) => false
             case _ => true
    ensures SameOwners(s, s')
    ensures TypeOf(pkt.options) != Some(Discover) ==> s' == s && reply == None
  {
    hide InsertSpec, RemoveSpec, RememberSpec, DiscoverSpec, Lend, Refuse, TypeOf, HostNameOf, Available, FirstWithCode;
    var cur: Option<nat>, other: Option<nat> :| StepWith(cfg, s, pkt, now, cur, other, s', reply);
    LookupExact(pkt.options, RAPID_COMMIT);
    LookupExact(pkt.options, SERVER_IDENTIFIER);
    if FirstWithCode(pkt.options, RAPID_COMMIT).Some? {
      var i :| 0 <= i < |pkt.options| && pkt.options[i] == FirstWithCode(pkt.options, RAPID_COMMIT).value;
      assert HasCode(pkt.options, RAPID_COMMIT);
    }
    if cur.Some? {
      RememberOutcome(s, cur.value, HostNameOf(pkt));
    }
  }

  // ----- Leases of other clients -----

  /** The four ways a step changes the table, seen at an address another client holds. */
  lemma ForeignInsert(cfg: Config, s: State, pkt: Packet, now: Time, ip: nat, a: nat, last: nat)
    requires a in s.leases && s.leases[a].client != pkt.chaddr
    requires Available(PolicyOf(cfg), s.leases, pkt.chaddr, now, ip)
    ensures var s' := InsertSpec(s.(last := last), ip, pkt.chaddr, Some(now + DurationOf(cfg)), HostNameOf(pkt));
            if ip == a
            then InPool(PolicyOf(cfg), a) && Lapsed(PolicyOf(cfg), s.leases[a], now) && Holds(s'.leases, pkt.chaddr, a)
            else a in s'.leases && s'.leases[a] == s.leases[a]
  {
  }

  lemma ForeignRest(s: State, mac: Mac, ip: nat, other: Option<nat>, name: Option<Utf8>, a: nat)
    requires a in s.leases && s.leases[a].client != mac && Holds(s.leases, mac, ip)
    ensures a in RemoveSpec(s, mac, ip, other).leases && RemoveSpec(s, mac, ip, other).leases[a] == s.leases[a]
    ensures a in RememberSpec(s, ip, name).leases && RememberSpec(s, ip, name).leases[a] == s.leases[a]
  {
  }

  /**
   A packet changes another client's lease only by taking it over, which needs the address to be in
   the pool and the lease to have lapsed: expired, or infinite.
   */
  lemma ForeignChangeIsTakeover(cfg: Config, s: State, pkt: Packet, now: Time, s': State, reply: Option<Packet>, a: nat)
    requires ServerStep(cfg, s, pkt, now, s', reply)
    requires a in s.leases && s.leases[a].client != pkt.chaddr
    requires a !in s'.leases || s'.leases[a] != s.leases[a]
    ensures InPool(PolicyOf(cfg), a) && Lapsed(PolicyOf(cfg), s.leases[a], now)
    ensures Holds(s'.leases, pkt.chaddr, a) && IsCurrent(s.leases, pkt.chaddr, None)
  {
    hide Lend, Refuse, TypeOf, HostNameOf, IsRapid, RequestedIp, ForThisServer;
    hide DiscoverSpec, InsertSpec, RemoveSpec, RememberSpec, Available, Lapsed;
    var cur, other :| StepWith(cfg, s, pkt, now, cur, other, s', reply);
    if cur.Some? {
      ForeignRest(s, pkt.chaddr, cur.value, other, HostNameOf(pkt), a);
    } else {
      DiscoverComplete(PolicyOf(cfg), Table(s.leases, s.last), pkt.chaddr, now);
      var (t, pick) := DiscoverSpec(PolicyOf(cfg), Table(s.leases, s.last), None, now);
      if pick.Some? {
        ForeignInsert(cfg, s, pkt, now, pick.value, a, t.last);
      }
      if Available(PolicyOf(cfg), s.leases, pkt.chaddr, now, RequestedIp(pkt)) {
        ForeignInsert(cfg, s, pkt, now, RequestedIp(pkt), a, s.last);
        assert s.(last := s.last) == s;
      }
    }
  }

  /**
   A lease that is timed and not past its expiry, or lies outside the pool, is untouched by other
   clients' packets, host name included.
   */
  lemma FirmLeaseIsSafe(cfg: Config, s: State, pkt: Packet, now: Time, s': State, reply: Option<Packet>, a: nat)
    requires ServerStep(cfg, s, pkt, now, s', reply)
    requires a in s.leases && s.leases[a].client != pkt.chaddr
    requires Firm(PolicyOf(cfg), s.leases[a], a, now)
    ensures a in s'.leases && s'.leases[a] == s.leases[a]
  {
    hide ServerStep;
    if a !in s'.leases || s'.leases[a] != s.leases[a] {
      ForeignChangeIsTakeover(cfg, s, pkt, now, s', reply, a);
    }
  }

  /** A plain Request for `a`. */
  function RequestFor(mac: Mac, a: Ip4): Packet {
    Packet(false, 0, 0, 0, false, a, 0, 0, 0, mac, [DhcpMessageType(Request)])
  }

  /** It as it comes from the socket. */
  function RequestAt(mac: Mac, a: Ip4, now: Time): Datagram {
    Datagram(Wire(RequestFor(mac, a)), now)
  }

  lemma RequestIsReceived(mac: Mac, a: Ip4, now: Time)
    ensures Decoded(RequestAt(mac, a, now).bytes) == Parsed(RequestFor(mac, a))
    ensures Understood([RequestAt(mac, a, now)]) == [Event(RequestFor(mac, a), now)]
  {
    hide Wire, Decoded;
    var pkt := RequestFor(mac, a);
    assert pkt.options[1..] == [];
    assert Size(pkt.options) == 3;
    RoundTripExact(pkt);
    assert [RequestAt(mac, a, now)][1..] == [];
  }

  /** The received datagram `dg` comes from `d`, and handling it gives `d` the address `a`. */
  ghost predicate Takes(cfg: Config, s: State, d: Mac, a: nat, dg: Datagram, s': State, reply: Option<Packet>) {
    && Decoded(dg.bytes).Parsed? && Decoded(dg.bytes).packet.chaddr == d
    && ServerStep(cfg, s, Decoded(dg.bytes).packet, dg.now, s', reply) && Holds(s'.leases, d, a)
  }

  /**
   The exact condition: a client without a lease can take `a` from its holder iff `a` is in the pool
   and that lease is infinite or has expired. Infinite reservations in the pool can always be taken.
   */
  lemma TakeoverIffLapsed(cfg: Config, s: State, d: Mac, a: Ip4, now: Time)
    requires a in s.leases && IsCurrent(s.leases, d, None)
    ensures && cfg.ipStart <= a < cfg.ipStart + cfg.leaseNum
            && (s.leases[a].expiry.None? || s.leases[a].expiry.value < now) <==>
            exists dg: Datagram, s': State, reply: Option<Packet> :: dg.now == now && Takes(cfg, s, d, a, dg, s', reply)
  {
    hide ServerStep, Decoded;
    if InPool(PolicyOf(cfg), a) && Lapsed(PolicyOf(cfg), s.leases[a], now) {
      var _, _ := Takeover(cfg, s, d, a, now);
    } else if dg: Datagram, s': State, reply: Option<Packet> :| dg.now == now && Takes(cfg, s, d, a, dg, s', reply) {
      ForeignChangeIsTakeover(cfg, s, Decoded(dg.bytes).packet, now, s', reply, a);
    }
  }

  /** A plain Request takes any address available to a client without a lease. */
  lemma Takeover(cfg: Config, s: State, d: Mac, a: Ip4, now: Time)
    returns (s': State, reply: Option<Packet>)
    requires Available(PolicyOf(cfg), s.leases, d, now, a) && IsCurrent(s.leases, d, None)
    ensures Takes(cfg, s, d, a, RequestAt(d, a, now), s', reply)
    ensures ServerStep(cfg, s, RequestFor(d, a), now, s', reply)
  {
    hide OnRequest, Decoded, Wire, RequestFor;
    var pkt := RequestFor(d, a);
    RequestIsReceived(d, a, now);
    RequestForIs(d, a);
    var outcome := OnRequest(cfg, s, None, pkt, now);
    s', reply := outcome.0, outcome.1;
    TakenOver(cfg, s, d, a, now);
    assert StepWith(cfg, s, pkt, now, None, None, s', reply);
    assert ServerStep(cfg, s, pkt, now, s', reply);
  }

  lemma RequestForIs(d: Mac, a: Ip4)
    ensures var pkt := RequestFor(d, a);
            TypeOf(pkt.options) == Some(Request) && RequestedIp(pkt) == a && pkt.chaddr == d
  {
    var os := RequestFor(d, a).options;
    assert FirstWithCode(os, DHCP_MESSAGE_TYPE) == Some(os[0]);
    assert os[1..] == [];
  }

  lemma TakenOver(cfg: Config, s: State, d: Mac, a: Ip4, now: Time)
    requires Available(PolicyOf(cfg), s.leases, d, now, a)
    ensures Holds(OnRequest(cfg, s, None, RequestFor(d, a), now).0.leases, d, a)
  {
    hide Lend, IndexAfterInsert, HostNameOf;
    RequestForIs(d, a);
  }

  // ----- Timed leases over runs -----

  ghost predicate ClockRuns(evs: seq<Event>) {
    forall i, j :: 0 <= i < j < |evs| ==> evs[i].now <= evs[j].now
  }

  predicate ReleasedBy(cfg: Config, pkt: Packet, c: Mac) {
    && pkt.chaddr == c
    && (TypeOf(pkt.options) == Some(Release) || TypeOf(pkt.options) == Some(Decline))
    && ForThisServer(cfg, pkt)
  }

  /** The client's own packets keep its leases, except a Release or Decline to this server. */
  lemma OwnPacketKeeps(cfg: Config, s: State, pkt: Packet, now: Time, s': State, reply: Option<Packet>, a: nat)
    requires ServerStep(cfg, s, pkt, now, s', reply)
    requires a in s.leases && s.leases[a].client == pkt.chaddr && !ReleasedBy(cfg, pkt, pkt.chaddr)
    ensures a in s'.leases && s'.leases[a].client == pkt.chaddr && s'.leases[a].expiry == s.leases[a].expiry
  {
    hide Lend, Refuse, TypeOf, HostNameOf, IsRapid, RequestedIp, ForThisServer, DiscoverSpec, InsertSpec;
    hide RemoveSpec, Available;
    var cur, other :| StepWith(cfg, s, pkt, now, cur, other, s', reply);
  }

  /**
   A lease keeps its owner and expiry, unless its owner releases it here, as long as it is firm: timed
   and not past its expiry, or, whatever the clock does, outside the pool.
   */
  lemma {:induction false} LeaseSafety(
      cfg: Config, ss: seq<State>, evs: seq<Event>, replies: seq<Option<Packet>>, i: nat, j: nat, a: nat)
    requires IsRun(cfg, ss, evs, replies) && i <= j <= |evs| && a in ss[i].leases
    requires InPool(PolicyOf(cfg), a) ==> ClockRuns(evs)
    requires j > i ==> Firm(PolicyOf(cfg), ss[i].leases[a], a, evs[j - 1].now)
    requires forall k :: i <= k < j ==> !ReleasedBy(cfg, evs[k].pkt, ss[i].leases[a].client)
    ensures a in ss[j].leases
    ensures ss[j].leases[a].client == ss[i].leases[a].client && ss[j].leases[a].expiry == ss[i].leases[a].expiry
    decreases j - i
  {
    hide ServerStep, ReleasedBy, PolicyOf;
    if i < j {
      assert InPool(PolicyOf(cfg), a) && j - 1 > i ==> evs[j - 2].now <= evs[j - 1].now;
      LeaseSafety(cfg, ss, evs, replies, i, j - 1, a);
      var e := evs[j - 1];
      assert !ReleasedBy(cfg, e.pkt, ss[i].leases[a].client);
      assert ServerStep(cfg, ss[j - 1], e.pkt, e.now, ss[j - 1 + 1], replies[j - 1]);
      if ss[i].leases[a].client == e.pkt.chaddr {
        OwnPacketKeeps(cfg, ss[j - 1], e.pkt, e.now, ss[j], replies[j - 1], a);
      } else {
        FirmLeaseIsSafe(cfg, ss[j - 1], e.pkt, e.now, ss[j], replies[j - 1], a);
      }
    }
  }

  // ----- Host names -----

  /** A packet that can record a host name. */
  predicate Speaks(pkt: Packet, c: Mac) {
    pkt.chaddr == c && (TypeOf(pkt.options) == Some(Discover) || TypeOf(pkt.options) == Some(Request))
  }

  /** The name `c` announced last in `evs[lo..hi]`, in a Discover or Request. */
  function LastName(evs: seq<Event>, c: Mac, lo: nat, hi: nat): Option<Utf8>
    requires lo <= hi <= |evs|
    decreases hi
  {
    if lo == hi then None
    else
      var last := evs[hi - 1].pkt;
      if Speaks(last, c) && HostNameOf(last).Some? then HostNameOf(last)
      else LastName(evs, c, lo, hi - 1)
  }

  /** The first state of the holder's present tenure of `a`. */
  ghost function Since(ss: seq<State>, a: nat, n: nat): (k: nat)
    requires n < |ss| && a in ss[n].leases
    ensures k <= n
    ensures forall i :: k <= i <= n ==> a in ss[i].leases && ss[i].leases[a].client == ss[n].leases[a].client
    ensures k > 0 ==> !(a in ss[k - 1].leases && ss[k - 1].leases[a].client == ss[n].leases[a].client)
  {
    if n > 0 && a in ss[n - 1].leases && ss[n - 1].leases[a].client == ss[n].leases[a].client
    then Since(ss, a, n - 1)
    else n
  }

  /** One packet's effect on the name stored at `a`. */
  lemma StepName(cfg: Config, s: State, pkt: Packet, now: Time, s': State, reply: Option<Packet>, a: nat)
    requires ServerStep(cfg, s, pkt, now, s', reply) && OneEach(s.leases) && a in s'.leases
    ensures var c := s'.leases[a].client;
            if a in s.leases && s.leases[a].client == c
            then s'.leases[a].info ==
                 if Speaks(pkt, c) && HostNameOf(pkt).Some? then HostNameOf(pkt) else s.leases[a].info
            else Speaks(pkt, c) && s'.leases[a].info == HostNameOf(pkt)
  {
    hide Lend, Refuse, TypeOf, HostNameOf, IsRapid, RequestedIp, ForThisServer, DiscoverSpec, Available;
    hide IndexAfterInsert;
    var cur, other :| StepWith(cfg, s, pkt, now, cur, other, s', reply);
  }

  /**
   The name stored with a lease is the last one its owner announced in a Discover or Request since
   its tenure began, the packet that created the lease included; for a lease that was there at the
   start, the name it had then if none was announced since.
   */
  lemma {:induction false} HostNameHistory(
      cfg: Config, ss: seq<State>, evs: seq<Event>, replies: seq<Option<Packet>>, a: nat, n: nat)
    requires IsRun(cfg, ss, evs, replies) && n <= |evs| && a in ss[n].leases
    requires forall i :: 0 <= i <= n ==> OneEach(ss[i].leases)
    ensures var c, k := ss[n].leases[a].client, Since(ss, a, n);
            ss[n].leases[a].info ==
            if k > 0 then LastName(evs, c, k - 1, n)
            else match LastName(evs, c, 0, n)
                 case Some(name) => Some(name)
                 case None => ss[0].leases[a].info
  {
    hide ServerStep, OneEach, Speaks, HostNameOf;
    if n > 0 {
      assert ServerStep(cfg, ss[n - 1], evs[n - 1].pkt, evs[n - 1].now, ss[n - 1 + 1], replies[n - 1]);
      StepName(cfg, ss[n - 1], evs[n - 1].pkt, evs[n - 1].now, ss[n], replies[n - 1], a);
      if a in ss[n - 1].leases && ss[n - 1].leases[a].client == ss[n].leases[a].client {
        HostNameHistory(cfg, ss, evs, replies, a, n - 1);
      }
    }
  }

  /** Leases from the leases file start unnamed. */
  lemma {:induction false} ReservedUnnamed(lines: seq<(Mac, Ip4)>)
    ensures forall a :: a in Reserved(lines).leases ==> Reserved(lines).leases[a].info == None
  {
    if lines != [] {
      ReservedUnnamed(lines[..|lines| - 1]);
    }
  }

  /** Over every run of the service from an unambiguous leases file, that history decides every stored name. */
  lemma ServiceHostNames(
      cfg: Config, lines: seq<(Mac, Ip4)>, ss: seq<State>, evs: seq<Event>, replies: seq<Option<Packet>>,
      a: nat, n: nat)
    requires IsRun(cfg, ss, evs, replies) && ss[0] == Reserved(lines) && Unambiguous(lines)
    requires n <= |evs| && a in ss[n].leases
    ensures var k := Since(ss, a, n);
            ss[n].leases[a].info == LastName(evs, ss[n].leases[a].client, if k > 0 then k - 1 else 0, n)
  {
    hide ServerStep, Exact, Reserved;
    forall i | 0 <= i <= n
      ensures OneEach(ss[i].leases)
    {
      ServiceKeepsExact(cfg, lines, ss, evs, replies, i);
    }
    ReservedUnnamed(lines);
    HostNameHistory(cfg, ss, evs, replies, a, n);
  }

  // ----- Fairness over runs -----

  /** A Discover from a client that holds no lease. */
  ghost predicate IsOffer(s: State, e: Event) {
    TypeOf(e.pkt.options) == Some(Discover) && IsCurrent(s.leases, e.pkt.chaddr, None)
  }

  ghost function FreeFor(cfg: Config, s: State, e: Event): set<nat> {
    FreeOffsets(PolicyOf(cfg), s.leases, e.now)
  }

  /** An offer moves the cursor to the next available offset and gives that address; nothing else moves it. */
  lemma StepCursor(cfg: Config, s: State, e: Event, s': State, reply: Option<Packet>)
    requires ServerStep(cfg, s, e.pkt, e.now, s', reply) && FreeFor(cfg, s, e) != {} && Validated(cfg)
    ensures s'.last == if IsOffer(s, e) then Next(FreeFor(cfg, s, e), s.last) else s.last
    ensures IsOffer(s, e) ==> reply.Some? && reply.value.yiaddr == cfg.ipStart + s'.last
  {
    hide Refuse, TypeOf, HostNameOf, IsRapid, RequestedIp, ForThisServer, Available, IndexAfterInsert, Lend;
    var cur, other :| StepWith(cfg, s, e.pkt, e.now, cur, other, s', reply);
    if TypeOf(e.pkt.options) == Some(Discover) && cur.None? {
      PickOutcome(cfg, s, e.pkt.chaddr, e.now);
      var (t, pick) := DiscoverSpec(PolicyOf(cfg), Table(s.leases, s.last), None, e.now);
      LendKind(cfg, if IsRapid(cfg, e.pkt) then Ack else Offer, e.pkt, pick.value);
    }
  }

  /** While nothing is available to a client without a lease, no packet moves the cursor. */
  lemma FullCursor(cfg: Config, s: State, e: Event, s': State, reply: Option<Packet>)
    requires ServerStep(cfg, s, e.pkt, e.now, s', reply) && FreeFor(cfg, s, e) == {}
    ensures s'.last == s.last
  {
    hide Refuse, TypeOf, HostNameOf, IsRapid, RequestedIp, ForThisServer, Available, IndexAfterInsert, Lend;
    var cur, other :| StepWith(cfg, s, e.pkt, e.now, cur, other, s', reply);
  }

  ghost function Cursors(ss: seq<State>): seq<nat> {
    seq(|ss|, i requires 0 <= i < |ss| => ss[i].last)
  }

  ghost function OfferSteps(ss: seq<State>, evs: seq<Event>): seq<bool>
    requires |ss| == |evs| + 1
  {
    seq(|evs|, i requires 0 <= i < |evs| => IsOffer(ss[i], evs[i]))
  }

  /** The address each reply gives; 0 where there is none. */
  ghost function Given(replies: seq<Option<Packet>>): seq<nat> {
    seq(|replies|, i requires 0 <= i < |replies| => if replies[i].Some? then replies[i].value.yiaddr else 0)
  }

  /**
   Round-robin fairness, in the replies: while what is available to clients without a lease stays the
   same, every Discover of such a client is answered, any `|free|` consecutive answers give every
   available address exactly once, and then the sequence repeats.
   */
  lemma FairOffers(
      cfg: Config, ss: seq<State>, evs: seq<Event>, replies: seq<Option<Packet>>, free: set<nat>, i: nat)
    requires IsRun(cfg, ss, evs, replies) && Validated(cfg) && free != {}
    requires forall k :: 0 <= k < |evs| ==> FreeFor(cfg, ss[k], evs[k]) == free
    requires i + |free| <= |Offered(Given(replies), OfferSteps(ss, evs))|
    ensures forall k :: 0 <= k < |evs| && IsOffer(ss[k], evs[k]) ==> replies[k].Some?
    ensures var w := Offered(Given(replies), OfferSteps(ss, evs));
            && Elements(w[i..i + |free|]) == Addresses(free, cfg.ipStart)
            && (forall j, k :: i <= j < k < i + |free| ==> w[j] != w[k])
            && (i + |free| < |w| ==> w[i + |free|] == w[i])
  {
    hide ServerStep, IsOffer, FreeFor;
    forall k | 0 <= k < |evs|
      ensures ss[k + 1].last == if IsOffer(ss[k], evs[k]) then Next(free, ss[k].last) else ss[k].last
      ensures IsOffer(ss[k], evs[k]) ==> replies[k].Some?
      ensures IsOffer(ss[k], evs[k]) ==> Given(replies)[k] == cfg.ipStart + ss[k + 1].last
    {
      assert FreeFor(cfg, ss[k], evs[k]) == free;
      StepCursor(cfg, ss[k], evs[k], ss[k + 1], replies[k]);
    }
    FairRun(free, cfg.ipStart, Cursors(ss), OfferSteps(ss, evs), Given(replies), i);
  }
}
