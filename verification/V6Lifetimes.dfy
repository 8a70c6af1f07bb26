/**
 The lifetime an Advertise or Reply advertises, against what the DHCPv6 service records.

 A Request, Renew or Rebind of a client that holds a lease is answered with the full lifetime while
 the recorded expiry stays as it was. `PromiseKeptIff` gives the exact condition under which the
 address is nevertheless safe for the advertised lifetime, `RenewalIsNotRecorded` shows the failure.

 A lifetime of n seconds given at some instant runs through that instant + n seconds; with a
 lifetime of zero it is that instant itself, and the same condition applies.
 */
module Dhcpv6Lifetimes {
  import opened Wrappers
  import opened Bytes
  import opened Text
  import opened Leases
  import opened DhcpV6Pool
  import opened Codec = Dhcpv6Codec
  import opened Dhcpv6Server
  import opened Dhcpv6Runs

  // ----- What a reply gives -----

  /** The valid lifetime of the address a reply gives. */
  function Advertised(r: Packet): Option<u32> {
    match FirstIana(r.options)
    case None => None
    case Some(ia) => if ia.addrs == [] then None else Some(ia.addrs[0].valid)
  }

  predicate Gives(reply: Option<Packet>) {
    reply.Some? && Given(reply.value).Some?
  }

  /** The packet commits the address its reply gives: anything but a Solicit without rapid commit. */
  predicate Commits(cfg: Config, p: Packet) {
    p.msgType != Solicit || IsRapid(cfg, p)
  }

  /** The clock reading a given lifetime counts from: a rapid commit reads the clock once more. */
  function GivenAt(cfg: Config, p: Packet, dg: Datagram): Time {
    if p.msgType == Solicit && IsRapid(cfg, p) then dg.commitAt else dg.readAt
  }

  lemma AnswerAdvertises(cfg: Config, p: Packet, d: Duid, m: MsgType, ip: Option<nat>)
    requires ip.Some? ==> ip.value < ADDRESS_SPACE
    ensures var r := AnswerTo(cfg, p, d, m, ip);
            Given(r) == ip && (ip.Some? ==> Advertised(r) == Some(cfg.leaseSecs))
  {
    hide Ascii, IaidOf, T1T2;
    GivenByAnswer(cfg, p, d, m, ip);
    var os := AnswerTo(cfg, p, d, m, ip).options;
    assert os[1..][1..][0] == os[2];
    assert FirstIana(os) == FirstIana(os[1..]) == FirstIana(os[1..][1..]) == Some(os[2].ia);
  }

  /**
   A reply that gives an address advertises the configured lifetime. It gives a client an address it
   holds, and then leaves every lease as it was; or, to a client that holds none, an available one.
   */
  lemma WhatIsGiven(cfg: Config, t: Table6, dg: Datagram, t': Table6, reply: Option<Packet>)
    requires ServerStep(cfg, t, dg, t', reply) && dg.readAt <= dg.commitAt && InSpace(t) && Gives(reply)
    ensures Understood(dg).Some? && Advertised(reply.value) == Some(cfg.leaseSecs)
    ensures var (p, d) := Understood(dg).value;
            var a := Given(reply.value).value;
            if IsCurrent(t.leases, d, None)
            then Available(PolicyOf(cfg), t.leases, d, dg.readAt, a)
            else Holds(t.leases, d, a) && t'.leases == t.leases
  {
    hide RequestSpec, DiscoverSpec, Wanted, AnswerTo, Decoded, ClientOf, IsRapid, InSpace, Given, Advertised, Available;
    hide IsForServer;
    var cur :| StepWith(cfg, t, dg, cur, t', reply);
    var (p, d) := Understood(dg).value;
    match p.msgType {
      case Solicit => SolicitGives(cfg, t, cur, p, d, dg);
      case Request | Renew | Rebind => RequestGives(cfg, t, cur, p, d, dg);
      case Release | Decline =>
      case _ =>
    }
  }

  lemma SolicitGives(cfg: Config, t: Table6, cur: Option<nat>, p: Packet, d: Duid, dg: Datagram)
    requires IsCurrent(t.leases, d, cur) && dg.readAt <= dg.commitAt && InSpace(t)
    ensures var (t', reply) := OnSolicit(cfg, t, cur, p, d, dg);
            Gives(reply) ==>
              var a := Given(reply.value).value;
              && Advertised(reply.value) == Some(cfg.leaseSecs)
              && if cur.None? then Available(PolicyOf(cfg), t.leases, d, dg.readAt, a)
                 else cur == Some(a) && t'.leases == t.leases
  {
    hide RequestSpec, DiscoverSpec, AnswerTo, InSpace, Given, Advertised, IsRapid, NoAddress, Available;
    var (t1, offer) := DiscoverSpec(PolicyOf(cfg), t, cur, dg.readAt);
    DiscoverKeepsLeases(PolicyOf(cfg), t, cur, dg.readAt);
    OfferInSpace(cfg, t, cur, d, dg.readAt);
    NoneGiven(cfg, p, d);
    AnswerAdvertises(cfg, p, d, Advertise, offer);
    if cur.None? {
      DiscoverComplete(PolicyOf(cfg), t, d, dg.readAt);
    } else {
      CurrentIsOffered(cfg, t, cur, dg.readAt);
      CurrentIsCommitted(cfg, t1, cur, d, cur.value, dg.commitAt);
    }
    if offer.Some? {
      RapidCommitSucceeds(PolicyOf(cfg), DurationOf(cfg), t, cur, d, dg.readAt, dg.commitAt);
      AnswerAdvertises(cfg, p, d, Reply, offer);
    }
  }

  lemma RequestGives(cfg: Config, t: Table6, cur: Option<nat>, p: Packet, d: Duid, dg: Datagram)
    requires IsCurrent(t.leases, d, cur) && InSpace(t)
    ensures var (t', reply) := OnRequest(cfg, t, cur, p, d, dg);
            Gives(reply) ==>
              var a := Given(reply.value).value;
              && Advertised(reply.value) == Some(cfg.leaseSecs)
              && if cur.None? then Available(PolicyOf(cfg), t.leases, d, dg.readAt, a)
                 else cur == Some(a) && t'.leases == t.leases
  {
    hide AnswerTo, InSpace, Given, Advertised, Available, Wanted;
    if Wanted(p).Some? {
      CommitOutcome(cfg, t, cur, d, Wanted(p).value, dg.readAt);
      var r := RequestSpec(PolicyOf(cfg), DurationOf(cfg), t, cur, d, Wanted(p).value, dg.readAt).1;
      AnswerAdvertises(cfg, p, d, Reply, Granted(r));
    }
  }

  lemma CurrentIsCommitted(cfg: Config, t: Table6, cur: Option<nat>, d: Duid, addr: nat, now: Time)
    requires cur.Some?
    ensures RequestSpec(PolicyOf(cfg), DurationOf(cfg), t, cur, d, addr, now) == (t, Ok(cur.value))
  {
  }

  // ----- Taking an address over -----

  /** A plain Request for `a`. */
  function RequestFor(d: Duid, a: Addr6): Packet {
    Packet(Request, 0, [ClientId(d), IaNaOption(IaNa(0, 0, 0, [IaAddr(a, 0, 0)]))])
  }

  /** The longest DUID that leaves room for such a Request in what one receive call yields. */
  const LONGEST_DUID: nat := RECEIVE_BUFFER - 52

  lemma RequestForIs(d: Duid, a: Addr6)
    requires |d| <= LONGEST_DUID
    ensures Encodable(RequestFor(d, a)) && RequestFor(d, a).msgType == Request
    ensures Encoded(RequestFor(d, a)).Ok? && |Encoded(RequestFor(d, a)).value| == 52 + |d|
    ensures ClientOf(RequestFor(d, a)) == Some(d) && Wanted(RequestFor(d, a)) == Some(a)
  {
    hide BigEndian, IaAddrsBytes, IaHeader, IaAddrBody;
    var os := RequestFor(d, a).options;
    assert |Payload(os[0])| == |d| && |Payload(os[1])| == 40;
    assert FirstIana(os) == FirstIana(os[1..]) == Some(os[1].ia);
    assert OptionsBytes(os) == Tlv(Code(os[0]), d) + (Tlv(Code(os[1]), Payload(os[1])) + OptionsBytes(os[1..][1..]));
  }

  /** The received datagram `dg` comes from `d`, and handling it at its one instant gives `d` the address `a`. */
  ghost predicate Takes(cfg: Config, t: Table6, d: Duid, a: nat, dg: Datagram, t': Table6, reply: Option<Packet>) {
    && dg.readAt == dg.commitAt
    && Understood(dg).Some? && Understood(dg).value.1 == d
    && ServerStep(cfg, t, dg, t', reply) && Holds(t'.leases, d, a)
  }

  /** A plain Request takes any address available to a client without a lease. */
  lemma Takeover(cfg: Config, t: Table6, d: Duid, a: Addr6, now: Time)
    returns (dg: Datagram, t': Table6, reply: Option<Packet>)
    requires Available(PolicyOf(cfg), t.leases, d, now, a) && IsCurrent(t.leases, d, None) && |d| <= LONGEST_DUID
    ensures dg.readAt == now && Takes(cfg, t, d, a, dg, t', reply) && Understood(dg).value.0.msgType == Request
  {
    hide AnswerTo, Encodable, Encoded, Decoded, ClientOf, Wanted, RequestFor, Available;
    var p := RequestFor(d, a);
    RequestForIs(d, a);
    RoundTrip(p);
    dg := Datagram(Encoded(p).value, now, now);
    assert Understood(dg) == Some((p, d));
    var outcome := Handled(cfg, t, None, p, d, dg);
    t', reply := outcome.0, outcome.1;
    assert StepWith(cfg, t, dg, None, t', reply);
    assert ServerStep(cfg, t, dg, t', reply);
  }

  /** In the range, and expired. */
  predicate Expired(cfg: Config, t: Table6, a: nat, now: Time) {
    && cfg.start + cfg.count < 0x1_0000_0000_0000_0000_0000_0000_0000_0000
    && cfg.start <= a < cfg.start + cfg.count && a in t.leases
    && t.leases[a].expiry.Some? && t.leases[a].expiry.value < now
  }

  /**
   The exact condition: a client without a lease, with a DUID that fits a Request, can take `a` from its
   holder iff it is in the range and its lease has expired.
   */
  lemma TakeoverIffLapsed(cfg: Config, t: Table6, d: Duid, a: Addr6, now: Time)
    requires a in t.leases && IsCurrent(t.leases, d, None) && |d| <= LONGEST_DUID
    ensures Expired(cfg, t, a, now) <==>
            exists dg: Datagram, t': Table6, r: Option<Packet> :: dg.readAt == now && Takes(cfg, t, d, a, dg, t', r)
  {
    hide ServerStep, Understood;
    if Expired(cfg, t, a, now) {
      var _, _, _ := Takeover(cfg, t, d, a, now);
    } else if dg: Datagram, t': Table6, r: Option<Packet> :| dg.readAt == now && Takes(cfg, t, d, a, dg, t', r) {
      NewLeaseIsTimed(cfg, t, dg, t', r, a);
    }
  }

  /** The same for every DUID, if only what a Request, Renew or Rebind can take counts. */
  lemma TakeoverByRequestIff(cfg: Config, t: Table6, d: Duid, a: Addr6, now: Time)
    requires a in t.leases && IsCurrent(t.leases, d, None)
    ensures |d| <= LONGEST_DUID && Expired(cfg, t, a, now) <==>
            exists dg: Datagram, t': Table6, r: Option<Packet> ::
              && dg.readAt == now && Takes(cfg, t, d, a, dg, t', r)
              && Understood(dg).value.0.msgType in {Request, Renew, Rebind}
  {
    hide ServerStep, Understood;
    if |d| <= LONGEST_DUID && Expired(cfg, t, a, now) {
      var _, _, _ := Takeover(cfg, t, d, a, now);
    } else if dg: Datagram, t': Table6, r: Option<Packet> :|
      && dg.readAt == now && Takes(cfg, t, d, a, dg, t', r)
      && Understood(dg).value.0.msgType in {Request, Renew, Rebind}
    {
      NewLeaseIsTimed(cfg, t, dg, t', r, a);
      OnlyWanted(cfg, t, dg, t', r);
      RequestNeedsRoom(dg);
    }
  }

  /** A Request, Renew or Rebind that changes the table asks for an address. */
  lemma OnlyWanted(cfg: Config, t: Table6, dg: Datagram, t': Table6, reply: Option<Packet>)
    requires ServerStep(cfg, t, dg, t', reply) && t'.leases != t.leases
    requires Understood(dg).Some? && Understood(dg).value.0.msgType in {Request, Renew, Rebind}
    ensures Wanted(Understood(dg).value.0).Some?
  {
    hide RequestSpec, Wanted, Understood, AnswerTo;
    var cur :| StepWith(cfg, t, dg, cur, t', reply);
  }

  /** A client identifier and an address asked for take 52 octets besides the DUID. */
  lemma RequestNeedsRoom(dg: Datagram)
    requires Understood(dg).Some? && Wanted(Understood(dg).value.0).Some?
    ensures |dg.bytes| >= 52 + |Understood(dg).value.1|
  {
    hide Decoded;
    var (p, d) := Understood(dg).value;
    Normalises(dg.bytes);
    BothTakeRoom(p.options, d);
  }

  lemma {:induction false} ClientTakesRoom(os: seq<Dhcpv6Option>, d: Duid)
    requires FirstWithCode(os, OPT_CLIENTID) == Some(ClientId(d))
    ensures |OptionsBytes(os)| >= 4 + |d|
  {
    hide BigEndian, Payload, Code;
    if os[0] != ClientId(d) {
      ClientTakesRoom(os[1..], d);
    } else {
      IsPayload(os[0], d);
    }
  }

  lemma IsPayload(o: Dhcpv6Option, d: Duid)
    requires o == ClientId(d)
    ensures Payload(o) == d
  {
  }

  lemma {:induction false} AssociationTakesRoom(os: seq<Dhcpv6Option>)
    requires FirstIana(os).Some? && FirstIana(os).value.addrs != []
    ensures |OptionsBytes(os)| >= 44
  {
    hide BigEndian, IaHeader, IaAddrsBytes;
    if os[0].IaNaOption? {
      assert |Payload(os[0])| == 12 + 28 * |os[0].ia.addrs|;
    } else {
      AssociationTakesRoom(os[1..]);
    }
  }

  lemma {:induction false} BothTakeRoom(os: seq<Dhcpv6Option>, d: Duid)
    requires FirstWithCode(os, OPT_CLIENTID) == Some(ClientId(d))
    requires FirstIana(os).Some? && FirstIana(os).value.addrs != []
    ensures |OptionsBytes(os)| >= 48 + |d|
  {
    hide BigEndian, IaHeader, IaAddrsBytes;
    if os[0].IaNaOption? {
      assert |Payload(os[0])| == 12 + 28 * |os[0].ia.addrs|;
      ClientTakesRoom(os[1..], d);
    } else if Code(os[0]) == OPT_CLIENTID {
      AssociationTakesRoom(os[1..]);
    } else {
      BothTakeRoom(os[1..], d);
    }
  }

  // ----- The promise -----

  /** Datagrams handled between the two instants, none of them a Release or Decline of `c` to this server. */
  ghost predicate Within(cfg: Config, dgs: seq<Datagram>, c: Duid, from: Time, until: Time) {
    && ClockRuns(dgs)
    && (forall i :: 0 <= i < |dgs| ==> from <= dgs[i].readAt && dgs[i].commitAt <= until)
    && (forall i :: 0 <= i < |dgs| ==> !ReleasedBy(cfg, dgs[i], c))
  }

  predicate NotOthers(m: map<nat, Lease6>, c: Duid, a: nat) {
    a in m ==> m[a].client == c
  }

  /** In every run from `t` within that time in which `c` does not release, nobody else comes to hold `a`. */
  ghost predicate Safe(cfg: Config, t: Table6, c: Duid, a: nat, from: Time, until: Time) {
    forall ts: seq<Table6>, dgs: seq<Datagram>, replies: seq<Option<Packet>> ::
      IsRun(cfg, ts, dgs, replies) && ts[0] == t && Within(cfg, dgs, c, from, until) ==>
        NotOthers(ts[|dgs|].leases, c, a)
  }

  /** A lease that is firm to the end of that time is safe. */
  lemma FirmIsSafe(cfg: Config, t: Table6, c: Duid, a: nat, from: Time, until: Time)
    requires Holds(t.leases, c, a) && Firm(PolicyOf(cfg), t.leases[a], a, until)
    ensures Safe(cfg, t, c, a, from, until)
  {
    hide ServerStep, ReleasedBy;
    forall ts: seq<Table6>, dgs: seq<Datagram>, replies: seq<Option<Packet>> |
      IsRun(cfg, ts, dgs, replies) && ts[0] == t && Within(cfg, dgs, c, from, until)
      ensures NotOthers(ts[|dgs|].leases, c, a)
    {
      LeaseSafety(cfg, ts, dgs, replies, 0, |dgs|, a);
    }
  }

  /** Distinct client names, for counting. */
  function Duids(n: nat): (names: seq<Duid>)
    ensures |names| == n && forall i :: 0 <= i < n ==> names[i] == BigEndian(i, 17)
  {
    seq(n, i requires 0 <= i < n => BigEndian(i, 17))
  }

  lemma DuidsDiffer(n: nat)
    requires n <= Power256(17)
    ensures NoRepeats(Duids(n))
  {
    hide BigEndian, Power256;
    forall i, j | 0 <= i < j < n
      ensures Duids(n)[i] != Duids(n)[j]
    {
      EncodingsDiffer(17, i, j);
    }
  }

  /** There is always a client other than `c` that holds nothing. */
  lemma StrangerExists(t: Table6, c: Duid) returns (d: Duid)
    requires InSpace(t)
    ensures d != c && IsCurrent(t.leases, d, None) && |d| <= LONGEST_DUID
  {
    hide IsCurrent, NoRepeats, Duids;
    var n := ADDRESS_SPACE + 2;
    SizeBelow(t.leases, ADDRESS_SPACE);
    Widths();
    assert n < Power256(17) by {
      assert Power256(17) == 256 * Power256(16);
    }
    DuidsDiffer(n);
    d := SomeoneHoldsNone(t.leases, {c}, Duids(n));
  }

  /** In the range, and free or lapsed. */
  predicate Open(cfg: Config, t: Table6, a: nat, now: Time) {
    InPool(PolicyOf(cfg), a) && (a in t.leases ==> Lapsed(PolicyOf(cfg), t.leases[a], now))
  }

  /** Where an address of the range is free or lapsed at some instant of that time, a stranger takes it then. */
  lemma LapsedIsUnsafe(cfg: Config, t: Table6, c: Duid, a: Addr6, from: Time, at: Time, until: Time)
    requires InSpace(t) && Open(cfg, t, a, at)
    requires from <= at <= until
    ensures !Safe(cfg, t, c, a, from, until)
  {
    hide ServerStep, ReleasedBy, Understood;
    var d := StrangerExists(t, c);
    var dg, t', reply := Takeover(cfg, t, d, a, at);
    var ts, dgs, replies := [t, t'], [dg], [reply];
    assert IsRun(cfg, ts, dgs, replies);
    NotReleasedBy(cfg, dg, c);
    assert Within(cfg, dgs, c, from, until);
    assert !NotOthers(ts[|dgs|].leases, c, a);
  }

  lemma NotReleasedBy(cfg: Config, dg: Datagram, c: Duid)
    requires Understood(dg).Some? && Understood(dg).value.1 != c
    ensures !ReleasedBy(cfg, dg, c)
  {
  }

  /** The record of `a` outlives `until`, or needs not: addresses outside the range are given to nobody else. */
  predicate Outlives(cfg: Config, t: Table6, a: nat, until: Time) {
    a in t.leases && (!InPool(PolicyOf(cfg), a) || t.leases[a].expiry.None? || until <= t.leases[a].expiry.value)
  }

  /**
   The exact condition: an address given with a lifetime is safe from other clients for that lifetime,
   unless its client releases it, iff the client held no lease and the packet committed this one, or
   the lease it held is infinite, is recorded to last as long, or lies outside the range.
   */
  lemma PromiseKeptIff(cfg: Config, t: Table6, dg: Datagram, t': Table6, reply: Option<Packet>)
    requires ServerStep(cfg, t, dg, t', reply) && dg.readAt <= dg.commitAt && InSpace(t) && Gives(reply)
    ensures Understood(dg).Some? && Advertised(reply.value) == Some(cfg.leaseSecs)
    ensures var (p, d) := Understood(dg).value;
            var a, from := Given(reply.value).value, GivenAt(cfg, p, dg);
            Safe(cfg, t', d, a, from, from + DurationOf(cfg)) <==>
            if IsCurrent(t.leases, d, None) then Commits(cfg, p) else Outlives(cfg, t, a, from + DurationOf(cfg))
  {
    hide ServerStep, Safe, Advertised, Given, IsRapid, InSpace, Understood;
    WhatIsGiven(cfg, t, dg, t', reply);
    RepliesAgreeWithTable(cfg, t, dg, t', reply);
    var (p, d) := Understood(dg).value;
    var a, from := Given(reply.value).value, GivenAt(cfg, p, dg);
    if !IsCurrent(t.leases, d, None) {
      HolderPromise(cfg, t', d, a, from);
    } else if Commits(cfg, p) {
      NewLeaseIsTimed(cfg, t, dg, t', reply, a);
      FirmIsSafe(cfg, t', d, a, from, from + DurationOf(cfg));
    } else {
      LapsedIsUnsafe(cfg, t', d, a, from, from, from + DurationOf(cfg));
    }
  }

  lemma HolderPromise(cfg: Config, t: Table6, c: Duid, a: Addr6, from: Time)
    requires InSpace(t) && Holds(t.leases, c, a)
    ensures Safe(cfg, t, c, a, from, from + DurationOf(cfg)) <==> Outlives(cfg, t, a, from + DurationOf(cfg))
  {
    hide Safe, InSpace;
    var until := from + DurationOf(cfg);
    if Outlives(cfg, t, a, until) {
      FirmIsSafe(cfg, t, c, a, from, until);
    } else {
      var at := if t.leases[a].expiry.value >= from then t.leases[a].expiry.value + 1 else from;
      LapsedIsUnsafe(cfg, t, c, a, from, at, until);
    }
  }

  /**
   The failure: a Request, Renew or Rebind of a client that holds a lease is answered with the full
   lifetime and leaves every expiry as it was; once the recorded one has passed, if the address is in
   the range, a Request of any client without a lease takes it, although the lifetime goes on.
   */
  lemma RenewalIsNotRecorded(
      cfg: Config, t: Table6, dg: Datagram, t': Table6, reply: Option<Packet>, c: Duid, later: Time)
    requires ServerStep(cfg, t, dg, t', reply) && dg.readAt <= dg.commitAt && InSpace(t)
    requires Understood(dg).Some? && Understood(dg).value.0.msgType in {Request, Renew, Rebind} && reply.Some?
    requires !IsCurrent(t.leases, Understood(dg).value.1, None)
    requires IsCurrent(t.leases, c, None) && |c| <= LONGEST_DUID
    ensures Gives(reply) && Advertised(reply.value) == Some(cfg.leaseSecs) && t'.leases == t.leases
    ensures var a := Given(reply.value).value;
            && Holds(t.leases, Understood(dg).value.1, a)
            && (Open(cfg, t, a, later) ==>
                  exists dg': Datagram, t'': Table6, r: Option<Packet> ::
                    dg'.readAt == later && Takes(cfg, t', c, a, dg', t'', r))
  {
    hide ServerStep, Advertised, Given, IsRapid, InSpace, Understood;
    NothingGivenIff(cfg, t, dg, t', reply);
    WhatIsGiven(cfg, t, dg, t', reply);
    var a := Given(reply.value).value;
    if Open(cfg, t, a, later) {
      var _, _, _ := Takeover(cfg, t', c, a, later);
    }
  }

  // ----- Over runs of the service -----

  /** The lease was made by this datagram: its client's, and timed from its clock reading. */
  ghost predicate MadeBy(cfg: Config, l: Lease6, dg: Datagram) {
    && Understood(dg).Some?
    && var (p, d) := Understood(dg).value; l == Lease(d, Some(GivenAt(cfg, p, dg) + DurationOf(cfg)), ())
  }

  /** It was made at the clock reading `from`. */
  ghost predicate MadeAt(cfg: Config, l: Lease6, dg: Datagram, from: Time) {
    MadeBy(cfg, l, dg) && GivenAt(cfg, Understood(dg).value.0, dg) == from
  }

  lemma {:induction false} ReservedAreInfinite(lines: seq<(Duid, Addr6)>)
    ensures forall a :: a in Reserved(lines).leases ==> Reserved(lines).leases[a].expiry == None
  {
    if lines != [] {
      ReservedAreInfinite(lines[..|lines| - 1]);
    }
  }

  /** Every timed lease of the service was made by one of the datagrams handled so far. */
  lemma {:induction false} TimedIsMade(
      cfg: Config, lines: seq<(Duid, Addr6)>, ts: seq<Table6>, dgs: seq<Datagram>, replies: seq<Option<Packet>>,
      i: nat, a: nat)
    returns (k: nat)
    requires IsRun(cfg, ts, dgs, replies) && ts[0] == Reserved(lines) && i <= |dgs|
    requires a in ts[i].leases && ts[i].leases[a].expiry.Some?
    ensures k < i && MadeBy(cfg, ts[i].leases[a], dgs[k])
  {
    hide ServerStep, Reserved, Understood, IsRapid;
    if i == 0 {
      ReservedAreInfinite(lines);
      assert false;
    }
    k := i - 1;
    assert ServerStep(cfg, ts[k], dgs[k], ts[k + 1], replies[k]);
    if a in ts[k].leases && ts[k].leases[a] == ts[i].leases[a] {
      k := TimedIsMade(cfg, lines, ts, dgs, replies, k, a);
    } else {
      NewLeaseIsTimed(cfg, ts[k], dgs[k], ts[i], replies[k], a);
    }
  }

  /**
   The same over every run of the service, in terms of the run: what step `i` gives is safe for the
   lifetime it advertises iff its client held no lease and the packet committed this one, or the lease
   is a reservation, was made at the same clock reading, or lies outside the range.
   */
  lemma ServicePromiseIff(
      cfg: Config, lines: seq<(Duid, Addr6)>, ts: seq<Table6>, dgs: seq<Datagram>, replies: seq<Option<Packet>>, i: nat)
    requires IsRun(cfg, ts, dgs, replies) && ts[0] == Reserved(lines) && ClockRuns(dgs)
    requires i < |dgs| && Gives(replies[i])
    ensures Understood(dgs[i]).Some?
    ensures var (p, d) := Understood(dgs[i]).value;
            var a, from, m := Given(replies[i].value).value, GivenAt(cfg, p, dgs[i]), ts[i].leases;
            Safe(cfg, ts[i + 1], d, a, from, from + DurationOf(cfg)) <==>
            if IsCurrent(m, d, None) then Commits(cfg, p)
            else !InPool(PolicyOf(cfg), a) ||
                 (a in m && (m[a].expiry.None? || exists k :: 0 <= k < i && MadeAt(cfg, m[a], dgs[k], from)))
  {
    hide ServerStep, Reserved, Safe, InSpace, Commits, IsCurrent, Understood, Given, IsRapid;
    var dg := dgs[i];
    ReservedInSpace(lines);
    RunInvariants(cfg, ts, dgs, replies, i);
    assert ServerStep(cfg, ts[i], dg, ts[i + 1], replies[i]);
    PromiseKeptIff(cfg, ts[i], dg, ts[i + 1], replies[i]);
    WhatIsGiven(cfg, ts[i], dg, ts[i + 1], replies[i]);
    var (p, d) := Understood(dg).value;
    var a, from := Given(replies[i].value).value, GivenAt(cfg, p, dg);
    if a in ts[i].leases && ts[i].leases[a].expiry.Some? {
      var k := TimedIsMade(cfg, lines, ts, dgs, replies, i, a);
      EarlierIsEarlier(cfg, dgs, k, i, ts[i].leases[a], from);
    }
  }

  lemma EarlierIsEarlier(cfg: Config, dgs: seq<Datagram>, k: nat, i: nat, l: Lease6, from: Time)
    requires ClockRuns(dgs) && k < i < |dgs| && MadeBy(cfg, l, dgs[k]) && from >= dgs[i].readAt
    ensures from + DurationOf(cfg) <= l.expiry.value <==> MadeAt(cfg, l, dgs[k], from)
  {
    assert dgs[k].readAt <= dgs[k].commitAt <= dgs[i].readAt;
  }

  // ----- Exclusive use -----

  /** While a lease is firm and not released, no reply gives its address to anybody else. */
  lemma FirmIsExclusive(
      cfg: Config, ts: seq<Table6>, dgs: seq<Datagram>, replies: seq<Option<Packet>>, i: nat, j: nat, a: nat)
    requires IsRun(cfg, ts, dgs, replies) && ClockRuns(dgs) && InSpace(ts[0])
    requires i <= j < |dgs| && a in ts[i].leases && Firm(PolicyOf(cfg), ts[i].leases[a], a, dgs[j].readAt)
    requires forall k :: i <= k < j ==> !ReleasedBy(cfg, dgs[k], ts[i].leases[a].client)
    requires Understood(dgs[j]).Some? && Understood(dgs[j]).value.1 != ts[i].leases[a].client && Gives(replies[j])
    ensures Given(replies[j].value) != Some(a)
  {
    hide ServerStep, ReleasedBy, InSpace, Understood, Given;
    assert j > i ==> dgs[j - 1].commitAt <= dgs[j].readAt;
    LeaseSafety(cfg, ts, dgs, replies, i, j, a);
    RunInvariants(cfg, ts, dgs, replies, j);
    assert ServerStep(cfg, ts[j], dgs[j], ts[j + 1], replies[j]);
    WhatIsGiven(cfg, ts[j], dgs[j], ts[j + 1], replies[j]);
  }

  /**
   Exclusive use, in the replies of a run: after a Reply that makes a new lease, no Advertise or Reply
   gives that address to another client through its whole lifetime, unless its client releases it.
   */
  lemma NewLeaseIsExclusive(
      cfg: Config, ts: seq<Table6>, dgs: seq<Datagram>, replies: seq<Option<Packet>>, i: nat, j: nat)
    requires IsRun(cfg, ts, dgs, replies) && ClockRuns(dgs) && InSpace(ts[0])
    requires i < j < |dgs| && Understood(dgs[i]).Some? && Understood(dgs[j]).Some?
    requires Gives(replies[i]) && Gives(replies[j])
    requires var (p, d) := Understood(dgs[i]).value;
             && IsCurrent(ts[i].leases, d, None) && Commits(cfg, p)
             && dgs[j].readAt <= GivenAt(cfg, p, dgs[i]) + DurationOf(cfg)
             && (forall k :: i < k < j ==> !ReleasedBy(cfg, dgs[k], d))
             && Understood(dgs[j]).value.1 != d
    ensures Given(replies[j].value) != Given(replies[i].value)
  {
    hide ServerStep, ReleasedBy, InSpace, Understood, Given, IsRapid;
    var a := Given(replies[i].value).value;
    RunInvariants(cfg, ts, dgs, replies, i);
    assert ServerStep(cfg, ts[i], dgs[i], ts[i + 1], replies[i]);
    RepliesAgreeWithTable(cfg, ts[i], dgs[i], ts[i + 1], replies[i]);
    NewLeaseIsTimed(cfg, ts[i], dgs[i], ts[i + 1], replies[i], a);
    FirmIsExclusive(cfg, ts, dgs, replies, i + 1, j, a);
  }
}
