/**
 What holds over every run of the DHCPv6 service with a clock that does not go backwards.
 */
module Dhcpv6Runs {
  import opened Wrappers
  import opened Bytes
  import opened Text
  import opened Leases
  import opened RoundRobin
  import opened DhcpV6Pool
  import opened Codec = Dhcpv6Codec
  import opened Dhcpv6Server

  /** A Release or Decline from `c` that names this server. */
  ghost predicate ReleasedBy(cfg: Config, dg: Datagram, c: Duid) {
    match Understood(dg)
    case None => false
    case Some((p, d)) => d == c && (p.msgType == Release || p.msgType == Decline) && IsForServer(cfg.serverDuid, p)
  }

  // ----- One step -----

  /** Committing an address touches that address only, and only if it is not another client's firm lease. */
  lemma RequestKeeps(cfg: Config, t: Table6, cur: Option<nat>, d: Duid, addr: nat, now: Time, a: nat)
    requires IsCurrent(t.leases, d, cur) && a in t.leases && Firm(PolicyOf(cfg), t.leases[a], a, now)
    ensures var t' := RequestSpec(PolicyOf(cfg), DurationOf(cfg), t, cur, d, addr, now).0;
            a in t'.leases && t'.leases[a] == t.leases[a]
  {
  }

  /** A firm lease comes through every step unchanged, unless its own client releases it. */
  lemma StepKeeps(cfg: Config, t: Table6, dg: Datagram, t': Table6, reply: Option<Packet>, a: nat)
    requires ServerStep(cfg, t, dg, t', reply) && (InPool(PolicyOf(cfg), a) ==> dg.readAt <= dg.commitAt)
    requires a in t.leases && Firm(PolicyOf(cfg), t.leases[a], a, dg.commitAt)
    requires !ReleasedBy(cfg, dg, t.leases[a].client)
    ensures a in t'.leases && t'.leases[a] == t.leases[a]
  {
    hide RequestSpec, DiscoverSpec, IsForServer, Wanted, AnswerTo, Decoded, ClientOf, IsRapid;
    var cur :| StepWith(cfg, t, dg, cur, t', reply);
    if Understood(dg).Some? {
      var (p, d) := Understood(dg).value;
      match p.msgType {
        case Solicit =>
          var (t1, offer) := DiscoverSpec(PolicyOf(cfg), t, cur, dg.readAt);
          DiscoverKeepsLeases(PolicyOf(cfg), t, cur, dg.readAt);
          if offer.Some? {
            RequestKeeps(cfg, t1, cur, d, offer.value, dg.commitAt, a);
          }
        case Request | Renew | Rebind =>
          if Wanted(p).Some? {
            RequestKeeps(cfg, t, cur, d, Wanted(p).value, dg.readAt, a);
          }
        case Release | Decline =>
        case _ =>
      }
    }
  }

  lemma DiscoverKeepsLeases(p: Policy, t: Table6, cur: Option<nat>, now: Time)
    ensures DiscoverSpec(p, t, cur, now).0.leases == t.leases
  {
  }

  /** A Release or Decline naming this server drops exactly one lease of its sender, if it holds any. */
  lemma ReleaseDropsOne(cfg: Config, t: Table6, dg: Datagram, t': Table6, reply: Option<Packet>, c: Duid)
    requires ServerStep(cfg, t, dg, t', reply) && ReleasedBy(cfg, dg, c)
    ensures if exists a :: Holds(t.leases, c, a)
            then exists a :: Holds(t.leases, c, a) && t'.leases == t.leases - {a}
            else t' == t
    ensures reply == None
  {
    var cur :| StepWith(cfg, t, dg, cur, t', reply);
    if cur.Some? {
      assert Holds(t.leases, c, cur.value);
    }
  }

  /** Every datagram has a step, whatever the table. */
  lemma StepExists(cfg: Config, t: Table6, dg: Datagram)
    ensures exists t': Table6, reply: Option<Packet> :: ServerStep(cfg, t, dg, t', reply)
  {
    hide Handled;
    match Understood(dg)
    case None =>
      assert StepWith(cfg, t, dg, None, t, None);
      assert ServerStep(cfg, t, dg, t, None);
    case Some((p, d)) =>
      var cur: Option<nat> := if a :| Holds(t.leases, d, a) then Some(a) else None;
      CurrentExists(t, d, cur);
      var (t', reply) := Handled(cfg, t, cur, p, d, dg);
      assert StepWith(cfg, t, dg, cur, t', reply);
      assert ServerStep(cfg, t, dg, t', reply);
  }

  lemma CurrentExists(t: Table6, d: Duid, cur: Option<nat>)
    requires match cur case Some(a) => Holds(t.leases, d, a) case None => !exists a :: Holds(t.leases, d, a)
    ensures IsCurrent(t.leases, d, cur)
  {
    if cur.None? {
      forall a | a in t.leases
        ensures t.leases[a].client != d
      {
        assert !Holds(t.leases, d, a);
      }
    }
  }

  lemma {:induction false} NoSuchOption(os: seq<Dhcpv6Option>, code: u16)
    requires forall i :: 0 <= i < |os| ==> Code(os[i]) != code
    ensures FirstWithCode(os, code) == None
  {
    if os != [] {
      NoSuchOption(os[1..], code);
    }
  }

  /**
   What cannot change a lease: datagrams that do not decode or name no client, messages the service
   does not act on, Release and Decline without this server's ID, and Solicit unless rapid commit is
   both enabled and asked for.
   */
  lemma LeasesUntouched(cfg: Config, t: Table6, dg: Datagram, t': Table6, reply: Option<Packet>)
    requires ServerStep(cfg, t, dg, t', reply)
    requires Understood(dg).Some? ==>
               var os := Understood(dg).value.0.options;
               match Understood(dg).value.0.msgType
               case Solicit => !cfg.rapidCommit || forall i :: 0 <= i < |os| ==> Code(os[i]) != OPT_RAPID_COMMIT
               case Release => forall i :: 0 <= i < |os| ==> os[i] != ServerId(cfg.serverDuid)
               case Decline => forall i :: 0 <= i < |os| ==> os[i] != ServerId(cfg.serverDuid)
               case Request => false
               case Renew => false
               case Rebind => false
               case _ => true
    ensures t'.leases == t.leases
  {
    hide RequestSpec, DiscoverSpec, Wanted, AnswerTo, Decoded, ClientOf, FirstWithCode;
    var cur :| StepWith(cfg, t, dg, cur, t', reply);
    if Understood(dg).Some? {
      var (p, d) := Understood(dg).value;
      DiscoverKeepsLeases(PolicyOf(cfg), t, cur, dg.readAt);
      if forall i :: 0 <= i < |p.options| ==> Code(p.options[i]) != OPT_RAPID_COMMIT {
        NoSuchOption(p.options, OPT_RAPID_COMMIT);
      }
      FirstIsThere(p.options, OPT_SERVERID);
    }
  }

  lemma {:induction false} FirstIsThere(os: seq<Dhcpv6Option>, code: u16)
    ensures FirstWithCode(os, code).Some? ==> exists i :: 0 <= i < |os| && os[i] == FirstWithCode(os, code).value
  {
    if os != [] && Code(os[0]) != code && FirstWithCode(os, code).Some? {
      FirstIsThere(os[1..], code);
      var i :| 0 <= i < |os[1..]| && os[1..][i] == FirstWithCode(os[1..], code).value;
      assert os[i + 1] == FirstWithCode(os, code).value;
    }
  }

  // ----- Rapid commit -----

  /** An address picked by `discover` is still available to the same client at any later instant. */
  lemma PickedStaysAvailable(p: Policy, t: Table6, d: Duid, a: nat, now: Time, later: Time)
    requires now <= later && Available(p, t.leases, d, now, a)
    ensures Available(p, t.leases, d, later, a)
  {
  }

  /** After a successful pick the commit succeeds with the same address, and the table assigns it. */
  lemma RapidCommitSucceeds(p: Policy, duration: nat, t: Table6, cur: Option<nat>, d: Duid, now: Time, later: Time)
    requires IsCurrent(t.leases, d, cur) && now <= later
    requires DiscoverSpec(p, t, cur, now).1.Some?
    ensures var (t1, offer) := DiscoverSpec(p, t, cur, now);
            var (t2, r) := RequestSpec(p, duration, t1, cur, d, offer.value, later);
            r == Ok(offer.value) && Holds(t2.leases, d, offer.value)
  {
    var (t1, offer) := DiscoverSpec(p, t, cur, now);
    if cur.None? {
      DiscoverComplete(p, t, d, now);
      PickedStaysAvailable(p, t, d, offer.value, now, later);
    }
  }

  // ----- Replies and the table -----

  /** The address a reply gives its client, if it gives one. */
  function Given(reply: Packet): Option<Addr6> {
    match FirstIana(reply.options)
    case None => None
    case Some(ia) => if ia.addrs == [] then None else Some(ia.addrs[0].addr)
  }

  ghost predicate InSpace(t: Table6) {
    forall a :: a in t.leases ==> a < ADDRESS_SPACE
  }

  lemma GivenByAnswer(cfg: Config, p: Packet, d: Duid, m: MsgType, ip: Option<nat>)
    requires ip.Some? ==> ip.value < ADDRESS_SPACE
    ensures var reply := AnswerTo(cfg, p, d, m, ip);
            reply.msgType == m && reply.transactionId == p.transactionId && Given(reply) == ip
  {
    var reply := AnswerTo(cfg, p, d, m, ip);
    var os := reply.options;
    assert FirstIana(os) == FirstIana(os[1..]) == FirstIana(os[1..][1..]);
  }

  lemma OfferInSpace(cfg: Config, t: Table6, cur: Option<nat>, d: Duid, now: Time)
    requires InSpace(t) && IsCurrent(t.leases, d, cur)
    ensures var (t', r) := DiscoverSpec(PolicyOf(cfg), t, cur, now);
            InSpace(t') && (r.Some? ==> r.value < ADDRESS_SPACE)
  {
    if cur.None? {
      DiscoverComplete(PolicyOf(cfg), t, d, now);
    }
  }

  lemma CommitOutcome(cfg: Config, t: Table6, cur: Option<nat>, d: Duid, addr: Addr6, now: Time)
    requires InSpace(t) && IsCurrent(t.leases, d, cur)
    ensures var (t', r) := RequestSpec(PolicyOf(cfg), DurationOf(cfg), t, cur, d, addr, now);
            && InSpace(t')
            && (r.Ok? ==> r.value < ADDRESS_SPACE && Holds(t'.leases, d, r.value))
            && (r.Ok? <==> cur.Some? || Available(PolicyOf(cfg), t.leases, d, now, addr))
            && (r.Err? ==> t' == t)
  {
  }

  /**
   Every Reply that gives an address names one the table assigns to that client afterwards;
   every Advertise leaves the leases as they were, and so does every reply that gives none.
   */
  lemma RepliesAgreeWithTable(cfg: Config, t: Table6, dg: Datagram, t': Table6, reply: Option<Packet>)
    requires ServerStep(cfg, t, dg, t', reply) && dg.readAt <= dg.commitAt && InSpace(t)
    ensures InSpace(t')
    ensures reply.Some? ==>
              && Understood(dg).Some?
              && var (p, d) := Understood(dg).value;
                 var r := reply.value;
                 && r.transactionId == p.transactionId
                 && r.msgType == (if p.msgType == Solicit && !IsRapid(cfg, p) then Advertise else Reply)
                 && (r.msgType == Reply && Given(r).Some? ==> Holds(t'.leases, d, Given(r).value))
                 && (r.msgType == Advertise || Given(r).None? ==> t'.leases == t.leases)
  {
    hide RequestSpec, DiscoverSpec, IsForServer, Wanted, AnswerTo, Decoded, ClientOf, IsRapid, InSpace;
    hide IsCurrent, Given;
    var cur :| StepWith(cfg, t, dg, cur, t', reply);
    if Understood(dg).Some? {
      var (p, d) := Understood(dg).value;
      match p.msgType {
        case Solicit => SolicitAgrees(cfg, t, cur, p, d, dg);
        case Request | Renew | Rebind =>
          if Wanted(p).Some? {
            CommitOutcome(cfg, t, cur, d, Wanted(p).value, dg.readAt);
            var r := RequestSpec(PolicyOf(cfg), DurationOf(cfg), t, cur, d, Wanted(p).value, dg.readAt).1;
            GivenByAnswer(cfg, p, d, Reply, Granted(r));
          }
        case Release | Decline => ReleaseInSpace(t, cur);
        case _ =>
      }
    }
  }

  /** A client that copies the identifiers of a reply is recognised by this server. */
  lemma ReplyIdentifiers(cfg: Config, p: Packet, d: Duid, m: MsgType, ip: Option<nat>)
    ensures var reply := AnswerTo(cfg, p, d, m, ip);
            IsForServer(cfg.serverDuid, reply) && ClientOf(reply) == Some(d)
  {
    hide Ascii, IaidOf, T1T2;
    var os := AnswerTo(cfg, p, d, m, ip).options;
    assert os[0] == ServerId(cfg.serverDuid) && os[1] == ClientId(d);
    assert FirstWithCode(os, OPT_CLIENTID) == FirstWithCode(os[1..], OPT_CLIENTID);
  }

  /** The association is echoed, and its times are in order: renewal, rebinding, end of the lease. */
  lemma ReplyLifetimes(cfg: Config, p: Packet, d: Duid, m: MsgType, ip: Option<nat>)
    ensures var ia := FirstIana(AnswerTo(cfg, p, d, m, ip).options);
            && ia.Some? && ia.value.iaid == IaidOf(p)
            && ia.value.t1 <= ia.value.t2 <= cfg.leaseSecs
            && forall i :: 0 <= i < |ia.value.addrs| ==>
                             ia.value.addrs[i].preferred == ia.value.addrs[i].valid == cfg.leaseSecs
  {
    hide Ascii, IaidOf;
    var os := AnswerTo(cfg, p, d, m, ip).options;
    assert os[1..][1..][0] == os[2];
    assert FirstIana(os) == FirstIana(os[1..]) == FirstIana(os[1..][1..]) == Some(os[2].ia);
  }

  /** No address is given iff the client holds none and none can be given to it. */
  lemma NothingGivenIff(cfg: Config, t: Table6, dg: Datagram, t': Table6, reply: Option<Packet>)
    requires ServerStep(cfg, t, dg, t', reply) && dg.readAt <= dg.commitAt && InSpace(t)
    requires Understood(dg).Some? && reply.Some?
    ensures var (p, d) := Understood(dg).value;
            Given(reply.value).None? <==>
              && IsCurrent(t.leases, d, None)
              && if p.msgType == Solicit
                 then forall a :: !Available(PolicyOf(cfg), t.leases, d, dg.readAt, a)
                 else Wanted(p).Some? && !Available(PolicyOf(cfg), t.leases, d, dg.readAt, Wanted(p).value)
  {
    hide RequestSpec, DiscoverSpec, IsForServer, Wanted, AnswerTo, Decoded, ClientOf, IsRapid, InSpace, Given;
    hide Available, NoAddress;
    var cur :| StepWith(cfg, t, dg, cur, t', reply);
    var (p, d) := Understood(dg).value;
    match p.msgType {
      case Solicit => SolicitGivesNothingIff(cfg, t, cur, p, d, dg);
      case Request | Renew | Rebind =>
        CommitOutcome(cfg, t, cur, d, Wanted(p).value, dg.readAt);
        var r := RequestSpec(PolicyOf(cfg), DurationOf(cfg), t, cur, d, Wanted(p).value, dg.readAt).1;
        GivenByAnswer(cfg, p, d, Reply, Granted(r));
      case Release | Decline =>
      case _ =>
    }
  }

  lemma SolicitGivesNothingIff(cfg: Config, t: Table6, cur: Option<nat>, p: Packet, d: Duid, dg: Datagram)
    requires IsCurrent(t.leases, d, cur) && dg.readAt <= dg.commitAt && InSpace(t)
    ensures var (t', reply) := OnSolicit(cfg, t, cur, p, d, dg);
            reply.Some? &&
            (Given(reply.value).None? <==>
             cur.None? && forall a :: !Available(PolicyOf(cfg), t.leases, d, dg.readAt, a))
  {
    hide RequestSpec, DiscoverSpec, AnswerTo, InSpace, Given, IsRapid, NoAddress, Available;
    var (t1, offer) := DiscoverSpec(PolicyOf(cfg), t, cur, dg.readAt);
    OfferInSpace(cfg, t, cur, d, dg.readAt);
    NoneGiven(cfg, p, d);
    GivenByAnswer(cfg, p, d, Advertise, offer);
    if cur.None? {
      DiscoverComplete(PolicyOf(cfg), t, d, dg.readAt);
    } else {
      CurrentIsOffered(cfg, t, cur, dg.readAt);
    }
    if offer.Some? {
      RapidCommitSucceeds(PolicyOf(cfg), DurationOf(cfg), t, cur, d, dg.readAt, dg.commitAt);
      GivenByAnswer(cfg, p, d, Reply, offer);
    }
  }

  lemma CurrentIsOffered(cfg: Config, t: Table6, cur: Option<nat>, now: Time)
    requires cur.Some?
    ensures DiscoverSpec(PolicyOf(cfg), t, cur, now).1 == cur
  {
  }

  /** A lease that is new, or new to its holder, is the sender's, runs from the commit, and was available to it. */
  lemma NewLeaseIsTimed(cfg: Config, t: Table6, dg: Datagram, t': Table6, reply: Option<Packet>, a: nat)
    requires ServerStep(cfg, t, dg, t', reply)
    requires a in t'.leases && !(a in t.leases && t.leases[a] == t'.leases[a])
    ensures Understood(dg).Some?
    ensures var (p, d) := Understood(dg).value;
            var now := if p.msgType == Solicit then dg.commitAt else dg.readAt;
            && t'.leases[a] == Lease(d, Some(now + DurationOf(cfg)), ())
            && IsCurrent(t.leases, d, None) && Available(PolicyOf(cfg), t.leases, d, now, a)
            && (p.msgType == Solicit ==> IsRapid(cfg, p))
  {
    hide IsForServer, Wanted, AnswerTo, Decoded, ClientOf, IsRapid, DiscoverSpec, Available;
    var cur :| StepWith(cfg, t, dg, cur, t', reply);
    if Understood(dg).Some? {
      DiscoverKeepsLeases(PolicyOf(cfg), t, cur, dg.readAt);
    }
  }

  lemma ReleaseInSpace(t: Table6, cur: Option<nat>)
    requires InSpace(t)
    ensures InSpace(ReleaseSpec(t, cur).0)
  {
  }

  lemma SolicitAgrees(cfg: Config, t: Table6, cur: Option<nat>, p: Packet, d: Duid, dg: Datagram)
    requires IsCurrent(t.leases, d, cur) && dg.readAt <= dg.commitAt && InSpace(t)
    ensures var (t', reply) := OnSolicit(cfg, t, cur, p, d, dg);
            && InSpace(t')
            && reply.Some?
            && var r := reply.value;
               && r.transactionId == p.transactionId
               && r.msgType == (if IsRapid(cfg, p) then Reply else Advertise)
               && (r.msgType == Reply && Given(r).Some? ==> Holds(t'.leases, d, Given(r).value))
               && (r.msgType == Advertise || Given(r).None? ==> t'.leases == t.leases)
  {
    hide RequestSpec, DiscoverSpec, AnswerTo, InSpace, IsCurrent, Given, IsRapid, NoAddress, Holds;
    var (t1, offer) := DiscoverSpec(PolicyOf(cfg), t, cur, dg.readAt);
    DiscoverKeepsLeases(PolicyOf(cfg), t, cur, dg.readAt);
    OfferInSpace(cfg, t, cur, d, dg.readAt);
    NoneGiven(cfg, p, d);
    GivenByAnswer(cfg, p, d, Advertise, offer);
    if offer.Some? {
      CommitOutcome(cfg, t1, cur, d, offer.value, dg.commitAt);
      RapidCommitSucceeds(PolicyOf(cfg), DurationOf(cfg), t, cur, d, dg.readAt, dg.commitAt);
      GivenByAnswer(cfg, p, d, Reply, offer);
    }
  }

  lemma NoneGiven(cfg: Config, p: Packet, d: Duid)
    ensures var r := NoAddress(cfg, p, d, Reply);
            r.msgType == Reply && r.transactionId == p.transactionId && Given(r).None?
  {
    GivenByAnswer(cfg, p, d, Reply, None);
  }

  // ----- Whole runs -----

  /** The clock does not go backwards within or between datagrams. */
  ghost predicate ClockRuns(dgs: seq<Datagram>) {
    && (forall i :: 0 <= i < |dgs| ==> dgs[i].readAt <= dgs[i].commitAt)
    && (forall i, j :: 0 <= i < j < |dgs| ==> dgs[i].commitAt <= dgs[j].readAt)
  }

  /**
   Safety: a lease is still in the table at step `j`, with the same client and expiry, unless its own
   client released it through this server in between, as long as it is firm: infinite, or not past its
   recorded expiry, or, whatever the clock does, outside the range.
   */
  lemma {:induction false} LeaseSafety(
      cfg: Config, ts: seq<Table6>, dgs: seq<Datagram>, replies: seq<Option<Packet>>, i: nat, j: nat, a: nat)
    requires IsRun(cfg, ts, dgs, replies) && i <= j <= |dgs| && a in ts[i].leases
    requires InPool(PolicyOf(cfg), a) ==> ClockRuns(dgs)
    requires j > i ==> Firm(PolicyOf(cfg), ts[i].leases[a], a, dgs[j - 1].commitAt)
    requires forall k :: i <= k < j ==> !ReleasedBy(cfg, dgs[k], ts[i].leases[a].client)
    ensures a in ts[j].leases && ts[j].leases[a] == ts[i].leases[a]
    decreases j - i
  {
    hide ServerStep, ReleasedBy, PolicyOf;
    if i < j {
      assert InPool(PolicyOf(cfg), a) && j - 1 > i ==> dgs[j - 2].commitAt <= dgs[j - 1].readAt <= dgs[j - 1].commitAt;
      LeaseSafety(cfg, ts, dgs, replies, i, j - 1, a);
      assert !ReleasedBy(cfg, dgs[j - 1], ts[i].leases[a].client);
      assert ServerStep(cfg, ts[j - 1], dgs[j - 1], ts[j - 1 + 1], replies[j - 1]);
      StepKeeps(cfg, ts[j - 1], dgs[j - 1], ts[j], replies[j - 1], a);
    }
  }

  lemma RequestKeepsOneEach(cfg: Config, t: Table6, cur: Option<nat>, d: Duid, addr: nat, now: Time)
    requires IsCurrent(t.leases, d, cur) && OneEach(t.leases)
    ensures OneEach(RequestSpec(PolicyOf(cfg), DurationOf(cfg), t, cur, d, addr, now).0.leases)
  {
  }

  /** One address per client is kept by every step. */
  lemma StepKeepsOneEach(cfg: Config, t: Table6, dg: Datagram, t': Table6, reply: Option<Packet>)
    requires ServerStep(cfg, t, dg, t', reply) && OneEach(t.leases)
    ensures OneEach(t'.leases)
  {
    hide RequestSpec, DiscoverSpec, IsForServer, Wanted, AnswerTo, Decoded, ClientOf, IsRapid, IsCurrent;
    var cur :| StepWith(cfg, t, dg, cur, t', reply);
    if Understood(dg).Some? {
      var (p, d) := Understood(dg).value;
      match p.msgType {
        case Solicit =>
          var (t1, offer) := DiscoverSpec(PolicyOf(cfg), t, cur, dg.readAt);
          DiscoverKeepsLeases(PolicyOf(cfg), t, cur, dg.readAt);
          if offer.Some? {
            RequestKeepsOneEach(cfg, t1, cur, d, offer.value, dg.commitAt);
          }
        case Request | Renew | Rebind =>
          if Wanted(p).Some? {
            RequestKeepsOneEach(cfg, t, cur, d, Wanted(p).value, dg.readAt);
          }
        case Release | Decline =>
        case _ =>
      }
    }
  }

  /** Over a run, addresses stay 128-bit and one address per client stays one. */
  lemma {:induction false} RunInvariants(
      cfg: Config, ts: seq<Table6>, dgs: seq<Datagram>, replies: seq<Option<Packet>>, i: nat)
    requires IsRun(cfg, ts, dgs, replies) && ClockRuns(dgs) && i <= |dgs| && InSpace(ts[0])
    ensures InSpace(ts[i])
    ensures OneEach(ts[0].leases) ==> OneEach(ts[i].leases)
  {
    hide ServerStep, InSpace, OneEach;
    if i > 0 {
      RunInvariants(cfg, ts, dgs, replies, i - 1);
      assert ServerStep(cfg, ts[i - 1], dgs[i - 1], ts[i - 1 + 1], replies[i - 1]);
      RepliesAgreeWithTable(cfg, ts[i - 1], dgs[i - 1], ts[i], replies[i - 1]);
      if OneEach(ts[i - 1].leases) {
        StepKeepsOneEach(cfg, ts[i - 1], dgs[i - 1], ts[i], replies[i - 1]);
      }
    }
  }

  lemma {:induction false} ReservedInSpace(lines: seq<(Duid, Addr6)>)
    ensures InSpace(Reserved(lines))
  {
    if lines != [] {
      var (duid, ip) := lines[|lines| - 1];
      var t := Reserved(lines[..|lines| - 1]);
      ReservedInSpace(lines[..|lines| - 1]);
      assert InSpace(InsertSpec(t, ip, duid, None));
    }
  }

  // ----- Fairness over runs -----

  /** Step `i` offers an address to a client that holds none. */
  ghost predicate IsOffer(t: Table6, dg: Datagram) {
    match Understood(dg)
    case None => false
    case Some((p, d)) => p.msgType == Solicit && IsCurrent(t.leases, d, None)
  }

  ghost function FreeFor(cfg: Config, t: Table6, dg: Datagram): set<nat> {
    FreeOffsets(PolicyOf(cfg), t.leases, dg.readAt)
  }

  /** An offer moves the cursor to the next available offset and gives that address; nothing else moves it. */
  lemma StepCursor(cfg: Config, t: Table6, dg: Datagram, t': Table6, reply: Option<Packet>)
    requires ServerStep(cfg, t, dg, t', reply) && FreeFor(cfg, t, dg) != {} && InSpace(t) && dg.readAt <= dg.commitAt
    ensures t'.last == if IsOffer(t, dg) then Next(FreeFor(cfg, t, dg), t.last) else t.last
    ensures IsOffer(t, dg) ==> reply.Some? && Given(reply.value) == Some(cfg.start + t'.last)
  {
    hide IsForServer, Wanted, AnswerTo, Decoded, ClientOf, IsRapid, InSpace, Given;
    var cur :| StepWith(cfg, t, dg, cur, t', reply);
    if Understood(dg).Some? {
      var (p, d) := Understood(dg).value;
      if p.msgType == Solicit {
        OfferInSpace(cfg, t, cur, d, dg.readAt);
        var (t1, offer) := DiscoverSpec(PolicyOf(cfg), t, cur, dg.readAt);
        GivenByAnswer(cfg, p, d, Advertise, offer);
        GivenByAnswer(cfg, p, d, Reply, offer);
        if offer.Some? {
          RapidCommitSucceeds(PolicyOf(cfg), DurationOf(cfg), t, cur, d, dg.readAt, dg.commitAt);
        }
        assert IsOffer(t, dg) <==> cur.None?;
      }
    }
  }

  /** While nothing is available to a client without a lease, no datagram moves the cursor. */
  lemma FullCursor(cfg: Config, t: Table6, dg: Datagram, t': Table6, reply: Option<Packet>)
    requires ServerStep(cfg, t, dg, t', reply) && FreeFor(cfg, t, dg) == {}
    ensures t'.last == t.last
  {
    hide IsForServer, Wanted, AnswerTo, Decoded, ClientOf, IsRapid, NoAddress;
    var cur :| StepWith(cfg, t, dg, cur, t', reply);
  }

  ghost function Cursors(ts: seq<Table6>): seq<nat> {
    seq(|ts|, i requires 0 <= i < |ts| => ts[i].last)
  }

  ghost function OfferSteps(ts: seq<Table6>, dgs: seq<Datagram>): seq<bool>
    requires |ts| == |dgs| + 1
  {
    seq(|dgs|, i requires 0 <= i < |dgs| => IsOffer(ts[i], dgs[i]))
  }

  /** The address each reply gives; 0 where there is none. */
  ghost function GivenIn(replies: seq<Option<Packet>>): seq<nat> {
    seq(|replies|, i requires 0 <= i < |replies| =>
          if replies[i].Some? && Given(replies[i].value).Some? then Given(replies[i].value).value else 0)
  }

  /**
   Round-robin fairness, in the replies: while the set `free` of offsets available to clients without
   a lease stays the same, every Solicit of such a client is answered with an address, any `|free|`
   consecutive answers give every available address exactly once, and then the sequence repeats.
   */
  lemma FairOffers(
      cfg: Config, ts: seq<Table6>, dgs: seq<Datagram>, replies: seq<Option<Packet>>, free: set<nat>, i: nat)
    requires IsRun(cfg, ts, dgs, replies) && ClockRuns(dgs) && InSpace(ts[0]) && free != {}
    requires forall k :: 0 <= k < |dgs| ==> FreeFor(cfg, ts[k], dgs[k]) == free
    requires i + |free| <= |Offered(GivenIn(replies), OfferSteps(ts, dgs))|
    ensures forall k :: 0 <= k < |dgs| && IsOffer(ts[k], dgs[k]) ==> replies[k].Some? && Given(replies[k].value).Some?
    ensures var w := Offered(GivenIn(replies), OfferSteps(ts, dgs));
            && Elements(w[i..i + |free|]) == Addresses(free, cfg.start)
            && (forall j, k :: i <= j < k < i + |free| ==> w[j] != w[k])
            && (i + |free| < |w| ==> w[i + |free|] == w[i])
  {
    hide ServerStep, IsOffer, FreeFor, InSpace, Given;
    forall k | 0 <= k < |dgs|
      ensures ts[k + 1].last == if IsOffer(ts[k], dgs[k]) then Next(free, ts[k].last) else ts[k].last
      ensures IsOffer(ts[k], dgs[k]) ==> replies[k].Some? && Given(replies[k].value).Some?
      ensures IsOffer(ts[k], dgs[k]) ==> GivenIn(replies)[k] == cfg.start + ts[k + 1].last
    {
      assert FreeFor(cfg, ts[k], dgs[k]) == free;
      RunInvariants(cfg, ts, dgs, replies, k);
      StepCursor(cfg, ts[k], dgs[k], ts[k + 1], replies[k]);
    }
    FairRun(free, cfg.start, Cursors(ts), OfferSteps(ts, dgs), GivenIn(replies), i);
  }

  // ----- What the client reads -----

  /** A configuration the loader accepts: a DUID of 1 to 128 octets; and no more DNS servers than one option holds. */
  predicate Sendable(cfg: Config) {
    |cfg.serverDuid| <= MAX_PAYLOAD && 16 * |cfg.dns| <= MAX_PAYLOAD
  }

  /** The reply decodes, at the client, to exactly the packet the service built. */
  lemma ReplyReachesClient(cfg: Config, t: Table6, dg: Datagram, t': Table6, reply: Option<Packet>)
    requires ServerStep(cfg, t, dg, t', reply) && reply.Some? && Sendable(cfg)
    ensures OnWire(reply).Some? && Decoded(OnWire(reply).value) == Ok(reply.value)
  {
    hide Encodable, Understood;
    ReplyIsEncodable(cfg, t, dg, t', reply);
    RoundTrip(reply.value);
  }

  lemma ReplyIsEncodable(cfg: Config, t: Table6, dg: Datagram, t': Table6, reply: Option<Packet>)
    requires ServerStep(cfg, t, dg, t', reply) && reply.Some? && Sendable(cfg)
    ensures Encodable(reply.value)
  {
    hide RequestSpec, DiscoverSpec, IsForServer, Wanted, Decoded, ClientOf, IsRapid, AnswerTo, NoAddress;
    hide IsCurrent, Encodable;
    var cur :| StepWith(cfg, t, dg, cur, t', reply);
    var (p, d) := Understood(dg).value;
    UnderstoodFits(dg);
    match p.msgType {
      case Solicit =>
        var (t1, offer) := DiscoverSpec(PolicyOf(cfg), t, cur, dg.readAt);
        AnswerEncodable(cfg, p, d, Advertise, offer);
        if offer.Some? {
          var r := RequestSpec(PolicyOf(cfg), DurationOf(cfg), t1, cur, d, offer.value, dg.commitAt).1;
          AnswerEncodable(cfg, p, d, Reply, Granted(r));
        } else {
          NoAddressEncodable(cfg, p, d, Reply);
        }
      case Request | Renew | Rebind =>
        if Wanted(p).Some? {
          var r := RequestSpec(PolicyOf(cfg), DurationOf(cfg), t, cur, d, Wanted(p).value, dg.readAt).1;
          AnswerEncodable(cfg, p, d, Reply, Granted(r));
        }
      case Release | Decline =>
      case _ =>
    }
  }

  lemma AnswerEncodable(cfg: Config, p: Packet, d: Duid, m: MsgType, ip: Option<nat>)
    requires |d| <= MAX_PAYLOAD && p.transactionId < 0x100_0000 && Sendable(cfg)
    ensures Encodable(AnswerTo(cfg, p, d, m, ip))
  {
    hide Encodable, Addressed, NoAddress;
    NoAddressEncodable(cfg, p, d, m);
    if ip.Some? && ip.value < ADDRESS_SPACE {
      AddressedEncodable(cfg, p, d, m, ip.value);
    }
  }

  lemma UnderstoodFits(dg: Datagram)
    requires Understood(dg).Some?
    ensures var (p, d) := Understood(dg).value;
            |d| <= MAX_PAYLOAD && p.transactionId < 0x100_0000
  {
    var (p, d) := Understood(dg).value;
    Normalises(dg.bytes);
    FirstFits(p.options, OPT_CLIENTID);
  }

  lemma {:induction false} FirstFits(os: seq<Dhcpv6Option>, code: u16)
    requires Fits(os) && FirstWithCode(os, code).Some?
    ensures |Payload(FirstWithCode(os, code).value)| <= MAX_PAYLOAD
  {
    if Code(os[0]) != code {
      FirstFits(os[1..], code);
    } else {
      assert |Payload(os[0])| <= MAX_PAYLOAD;
    }
  }

  lemma AddressedEncodable(cfg: Config, p: Packet, d: Duid, m: MsgType, ip: Addr6)
    requires |d| <= MAX_PAYLOAD && p.transactionId < 0x100_0000 && Sendable(cfg)
    ensures Encodable(Addressed(cfg, p, d, m, ip))
  {
    hide BigEndian, IaAddrsBytes, ServersBytes, IaHeader, IaidOf, IaAddrBody;
    var os := Addressed(cfg, p, d, m, ip).options;
    assert |Payload(os[0])| == |cfg.serverDuid| && |Payload(os[1])| == |d| && |Payload(os[2])| == 40;
    assert cfg.dns != [] ==> |Payload(os[3])| == 16 * |cfg.dns|;
  }

  lemma NoAddressEncodable(cfg: Config, p: Packet, d: Duid, m: MsgType)
    requires |d| <= MAX_PAYLOAD && p.transactionId < 0x100_0000 && Sendable(cfg)
    ensures Encodable(NoAddress(cfg, p, d, m))
  {
    hide BigEndian, IaAddrsBytes, IaHeader, IaidOf, Ascii, ValidUtf8;
    var os := NoAddress(cfg, p, d, m).options;
    assert |Payload(os[0])| == |cfg.serverDuid| && |Payload(os[1])| == |d|;
    assert |Payload(os[2])| == 12;
    assert |Payload(StatusCode(STATUS_NO_ADDRS_AVAIL, Ascii("NoAddrsAvail")))| == 14;
  }

  /** The exact condition: a reply with an address is sent iff its DUIDs and DNS list fit their options. */
  lemma AddressedIsSentIff(cfg: Config, p: Packet, d: Duid, m: MsgType, ip: Addr6)
    requires |d| <= MAX_PAYLOAD
    ensures OnWire(Some(Addressed(cfg, p, d, m, ip))).Some? <==> Sendable(cfg)
  {
    var os := Addressed(cfg, p, d, m, ip).options;
    assert |Payload(os[0])| == |cfg.serverDuid|;
    if cfg.dns != [] {
      assert |Payload(os[3])| == 16 * |cfg.dns|;
    }
    if Sendable(cfg) {
      assert forall i :: 0 <= i < |os| ==> |Payload(os[i])| <= MAX_PAYLOAD;
    }
  }
}
