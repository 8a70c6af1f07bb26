/**
 The DHCPv4 service: the lease store and the request handler over it.

 Methods are specified by what they do to `State`: the one finite map from addresses to leases,
 the reverse index from MAC addresses, and the round-robin cursor.
 */
module Dhcpv4Server {
  import opened Wrappers
  import opened Bytes
  import opened Text
  import opened RoundRobin
  import opened Leases
  import opened SlotStore
  import opened Dhcpv4Options
  import opened Dhcpv4Packet
  import opened Dhcpv4Reply

  /** A lease with the host name its client announced, if any. */
  type Lease4 = Lease<Mac, Option<Utf8>>

  datatype State = State(leases: map<nat, Lease4>, index: map<Mac, nat>, last: nat)

  /** The advertised lease time and the one recorded are the same setting, `offer.leaseSecs`. */
  datatype Config = Config(ipStart: Ip4, leaseNum: u32, rapidCommit: bool, offer: OfferConfig)

  const ADDRESS_SPACE: nat := 0x1_0000_0000
  const NANOS_PER_SEC: nat := 1_000_000_000
  const SLOT_LIMIT: nat := 100_000

  /** What the configuration loader guarantees about the pool. */
  predicate Validated(cfg: Config) {
    cfg.ipStart + cfg.leaseNum <= ADDRESS_SPACE
  }

  function PolicyOf(cfg: Config): Policy {
    Policy(cfg.ipStart, cfg.leaseNum, true, true)
  }

  function DurationOf(cfg: Config): nat {
    cfg.offer.leaseSecs * NANOS_PER_SEC
  }

  // ----- What the store operations do -----

  function InsertSpec(s: State, ip: nat, mac: Mac, expiry: Option<Time>, name: Option<Utf8>): State {
    State(s.leases[ip := Lease(mac, expiry, name)], IndexAfterInsert(s.leases, s.index, ip, mac), s.last)
  }

  /** Drop the lease of `mac` at `ip`; `other` is another address it holds, if any, for the index. */
  function RemoveSpec(s: State, mac: Mac, ip: nat, other: Option<nat>): State {
    State(s.leases - {ip}, IndexAfterRemove(s.index, mac, ip, other), s.last)
  }

  function RememberSpec(s: State, ip: nat, name: Option<Utf8>): State {
    if name.Some? && ip in s.leases then s.(leases := s.leases[ip := s.leases[ip].(info := name)]) else s
  }

  // ----- One packet -----

  function HostNameOf(pkt: Packet): Option<Utf8> {
    match FirstWithCode(pkt.options, HOST_NAME)
    case Some(HostName(name)) => Some(name)
    case _ => None
  }

  predicate IsRapid(cfg: Config, pkt: Packet) {
    cfg.rapidCommit && FirstWithCode(pkt.options, RAPID_COMMIT).Some?
  }

  function RequestedIp(pkt: Packet): Ip4 {
    match FirstWithCode(pkt.options, REQUESTED_IP_ADDRESS)
    case Some(RequestedIpAddress(x)) => x
    case _ => pkt.ciaddr
  }

  predicate ForThisServer(cfg: Config, pkt: Packet) {
    match FirstWithCode(pkt.options, SERVER_IDENTIFIER)
    case Some(ServerIdentifier(x)) => x == cfg.offer.serverIp
    case _ => false
  }

  /** The address a packet asks for: the first Requested IP option, wherever it stands, else the client's own. */
  ghost predicate AsksFor(pkt: Packet, x: Ip4) {
    || IsFirst(pkt.options, 50, RequestedIpAddress(x))
    || (x == pkt.ciaddr && forall y: Ip4 :: !IsFirst(pkt.options, 50, RequestedIpAddress(y)))
  }

  lemma AsksForIff(pkt: Packet, x: Ip4)
    ensures AsksFor(pkt, x) <==> RequestedIp(pkt) == x
  {
    hide FirstWithCode, IsFirst;
    LookupIff(pkt.options, 50);
  }

  /** The first Host Name option is the name. */
  lemma HostNameIff(pkt: Packet, name: Utf8)
    ensures HostNameOf(pkt) == Some(name) <==> IsFirst(pkt.options, 12, HostName(name))
  {
    hide FirstWithCode, IsFirst;
    LookupIff(pkt.options, 12);
  }

  /** Rapid commit takes the setting and the option, at any position. */
  lemma RapidIff(cfg: Config, pkt: Packet)
    ensures IsRapid(cfg, pkt) <==>
            cfg.rapidCommit && exists i :: 0 <= i < |pkt.options| && Code(pkt.options[i]) == 80
  {
    hide FirstWithCode, IsFirst, Code;
    LookupIff(pkt.options, 80);
  }

  /** A packet names this server iff its first Server Identifier is the server's address. */
  lemma ForThisServerIff(cfg: Config, pkt: Packet)
    ensures ForThisServer(cfg, pkt) <==> IsFirst(pkt.options, 54, ServerIdentifier(cfg.offer.serverIp))
  {
    hide FirstWithCode, IsFirst;
    LookupIff(pkt.options, 54);
  }

  /** An Offer or Ack of `ip`; the store only gives 32-bit addresses. */
  function Lend(cfg: Config, kind: MessageType, pkt: Packet, ip: nat): Packet {
    ReplyPacket(cfg.offer.serverIp, kind, OfferOptions(cfg.offer), if ip < ADDRESS_SPACE then ip else 0, pkt)
  }

  function Refuse(cfg: Config, pkt: Packet): Packet {
    ReplyPacket(cfg.offer.serverIp, Nak, [Message(Ascii("Requested IP not available"))], 0, pkt)
  }

  ghost function OnDiscover(cfg: Config, s: State, cur: Option<nat>, pkt: Packet, now: Time): (State, Option<Packet>) {
    var rapid := IsRapid(cfg, pkt);
    var kind := if rapid then Ack else Offer;
    match cur
    case Some(ip) => (RememberSpec(s, ip, HostNameOf(pkt)), Some(Lend(cfg, kind, pkt, ip)))
    case None =>
      var (t, pick) := DiscoverSpec(PolicyOf(cfg), Table(s.leases, s.last), None, now);
      match pick
      case None => (s, None)
      case Some(ip) =>
        var s1 := s.(last := t.last);
        (if rapid then InsertSpec(s1, ip, pkt.chaddr, Some(now + DurationOf(cfg)), HostNameOf(pkt)) else s1,
         Some(Lend(cfg, kind, pkt, ip)))
  }

  ghost function OnRequest(cfg: Config, s: State, cur: Option<nat>, pkt: Packet, now: Time): (State, Option<Packet>) {
    match cur
    case Some(ip) => (RememberSpec(s, ip, HostNameOf(pkt)), Some(Lend(cfg, Ack, pkt, ip)))
    case None =>
      if !Available(PolicyOf(cfg), s.leases, pkt.chaddr, now, RequestedIp(pkt)) then (s, Some(Refuse(cfg, pkt)))
      else
        (InsertSpec(s, RequestedIp(pkt), pkt.chaddr, Some(now + DurationOf(cfg)), HostNameOf(pkt)),
         Some(Lend(cfg, Ack, pkt, RequestedIp(pkt))))
  }

  ghost function OnRelease(
      cfg: Config, s: State, cur: Option<nat>, other: Option<nat>, pkt: Packet): (State, Option<Packet>)
  {
    if ForThisServer(cfg, pkt) && cur.Some? then (RemoveSpec(s, pkt.chaddr, cur.value, other), None) else (s, None)
  }

  ghost function Handled(
      cfg: Config, s: State, cur: Option<nat>, other: Option<nat>, pkt: Packet, now: Time): (State, Option<Packet>)
  {
    match TypeOf(pkt.options)
    case Some(Discover) => OnDiscover(cfg, s, cur, pkt, now)
    case Some(Request) => OnRequest(cfg, s, cur, pkt, now)
    case Some(Release) => OnRelease(cfg, s, cur, other, pkt)
    case Some(Decline) => OnRelease(cfg, s, cur, other, pkt)
    case _ => (s, None)
  }

  /** An index entry that checks out decides the lookup. */
  ghost predicate Hinted(s: State, mac: Mac, cur: Option<nat>) {
    mac in s.index && Holds(s.leases, mac, s.index[mac]) ==> cur == Some(s.index[mac])
  }

  /** Handling of a packet when the lookup of its client gives `cur`, and `other` without that address. */
  ghost predicate StepWith(
      cfg: Config, s: State, pkt: Packet, now: Time, cur: Option<nat>, other: Option<nat>,
      s': State, reply: Option<Packet>)
  {
    && IsCurrent(s.leases, pkt.chaddr, cur) && Hinted(s, pkt.chaddr, cur)
    && (cur.Some? ==> IsCurrent(s.leases - {cur.value}, pkt.chaddr, other))
    && (s', reply) == Handled(cfg, s, cur, other, pkt, now)
  }

  ghost predicate ServerStep(cfg: Config, s: State, pkt: Packet, now: Time, s': State, reply: Option<Packet>) {
    exists cur, other :: StepWith(cfg, s, pkt, now, cur, other, s', reply)
  }

  /** A handled packet and the clock reading its handling takes. */
  datatype Event = Event(pkt: Packet, now: Time)

  ghost predicate IsRun(cfg: Config, ss: seq<State>, evs: seq<Event>, replies: seq<Option<Packet>>) {
    && |ss| == |evs| + 1 && |replies| == |evs|
    && forall i :: 0 <= i < |evs| ==> ServerStep(cfg, ss[i], evs[i].pkt, evs[i].now, ss[i + 1], replies[i])
  }

  /** The store the leases file gives: infinite, unnamed leases; later lines win at an address. */
  function Reserved(lines: seq<(Mac, Ip4)>): State {
    if lines == [] then State(map[], map[], 0)
    else
      var (mac, ip) := lines[|lines| - 1];
      InsertSpec(Reserved(lines[..|lines| - 1]), ip, mac, None, None)
  }

  // ----- The store -----

  class MyServer {
    const cfg: Config
    const cachedOffer: seq<DhcpOption>
    const useSlots: bool
    const slots: array<Option<Lease4>>
    var filled: nat
    var overflow: map<nat, Lease4>
    var order: seq<nat>
    var byMac: map<Mac, Ip4>
    var lastLease: nat
    ghost var leases: map<nat, Lease4>

    ghost function Fields(): Store<Mac, Lease4>
      reads `filled, `overflow, `order, `byMac, slots
    {
      Store(cfg.ipStart, if useSlots then cfg.leaseNum else 0, slots[..], filled, overflow, order, byMac)
    }

    ghost predicate Shape() {
      Validated(cfg) && slots.Length == (if useSlots then cfg.leaseNum else 0)
    }

    ghost predicate Sound()
      reads `filled, `overflow, `order, `byMac, `leases, slots
    {
      && Shape()
      && Represents(Fields(), leases)
      && (forall a :: a in leases ==> a < ADDRESS_SPACE)
    }

    ghost predicate Valid()
      reads this, slots
    {
      && Sound()
      && (lastLease < cfg.leaseNum || lastLease == 0)
      && cachedOffer == OfferOptions(cfg.offer)
    }

    ghost function Contents(): State
      reads this
    {
      State(leases, byMac, lastLease)
    }

    ghost function CurrentOf(mac: Mac): (cur: Option<nat>)
      reads `filled, `overflow, `order, `byMac, `leases, slots
      requires Sound()
      ensures IsCurrent(leases, mac, cur)
      ensures cur.Some? ==> cur.value < ADDRESS_SPACE
      ensures mac in byMac && Holds(leases, mac, byMac[mac]) ==> cur == Some(byMac[mac])
    {
      CurrentIsExact(Fields(), leases, mac);
      Current(Fields(), mac)
    }

    constructor (cfg: Config, slotLimit: nat)
      requires Validated(cfg)
      ensures Valid() && fresh(slots) && this.cfg == cfg
      ensures useSlots == (cfg.leaseNum <= slotLimit)
      ensures Contents() == State(map[], map[], 0)
    {
      this.cfg := cfg;
      var options := BuildOfferOptions(cfg.offer);
      this.cachedOffer := options;
      this.useSlots := cfg.leaseNum <= slotLimit;
      this.slots := new Option<Lease4>[if cfg.leaseNum <= slotLimit then cfg.leaseNum else 0](_ => None);
      this.filled, this.overflow, this.order, this.byMac, this.lastLease := 0, map[], [], map[], 0;
      this.leases := map[];
      new;
      EmptyStore(Fields());
    }

    function Idx(addr: Ip4): (r: Option<nat>)
      requires Shape()
      ensures r.Some? ==> r.value < slots.Length && addr == cfg.ipStart + r.value
      ensures r.Some? <==> cfg.ipStart <= addr < cfg.ipStart + if useSlots then cfg.leaseNum else 0
    {
      if !useSlots then None
      else if addr < cfg.ipStart then None
      else if addr - cfg.ipStart < cfg.leaseNum then Some(addr - cfg.ipStart)
      else None
    }

    lemma StoredIsHeld(addr: Ip4)
      requires Sound()
      ensures Stored(Fields(), addr) == if addr in leases then Some(leases[addr]) else None
    {
    }

    function Lookup(addr: Ip4): (r: Option<Lease4>)
      reads `filled, `overflow, `order, `byMac, `leases, slots
      requires Sound()
      ensures r == Stored(Fields(), addr) == if addr in leases then Some(leases[addr]) else None
    {
      StoredIsHeld(addr);
      hide Represents;
      match Idx(addr)
      case Some(i) => slots[i]
      case None => if addr in overflow then Some(overflow[addr]) else None
    }

    predicate LeaseAvailable(l: Option<Lease4>, mac: Mac, now: Time) {
      match l
      case Some(l) => l.client == mac || l.expiry.None? || now > l.expiry.value
      case None => true
    }

    /** In the pool, and unleased, its own, expired, or infinite. */
    predicate AvailableAt(mac: Mac, addr: Ip4, now: Time)
      reads `filled, `overflow, `order, `byMac, `leases, slots
      requires Sound()
      ensures AvailableAt(mac, addr, now) <==> Available(PolicyOf(cfg), leases, mac, now, addr)
    {
      hide Represents;
      assert Lookup(addr) == if addr in leases then Some(leases[addr]) else None;
      match Idx(addr)
      case Some(i) => LeaseAvailable(slots[i], mac, now)
      case None =>
        if !useSlots && cfg.ipStart <= addr && addr - cfg.ipStart < cfg.leaseNum
        then LeaseAvailable(if addr in overflow then Some(overflow[addr]) else None, mac, now)
        else false
    }

    method ScanSlots(mac: Mac) returns (r: Option<nat>)
      requires Sound()
      ensures r == FirstSlot(slots[..], mac, 0)
    {
      for i := 0 to slots.Length
        invariant FirstSlot(slots[..], mac, 0) == FirstSlot(slots[..], mac, i)
      {
        if slots[i].Some? && slots[i].value.client == mac {
          return Some(i);
        }
      }
      r := None;
    }

    method ScanOverflow(mac: Mac) returns (r: Option<nat>)
      requires IsOrder(order, overflow)
      ensures r == FirstListed(order, overflow, mac, 0)
    {
      for k := 0 to |order|
        invariant FirstListed(order, overflow, mac, 0) == FirstListed(order, overflow, mac, k)
      {
        assert order[k] in order;
        if overflow[order[k]].client == mac {
          return Some(order[k]);
        }
      }
      r := None;
    }

    function Hint(mac: Mac): (r: Option<Ip4>)
      reads `filled, `overflow, `order, `byMac, `leases, slots
      requires Sound()
      ensures r == if HintIsGood(Fields(), mac) then Some(byMac[mac]) else None
    {
      if mac in byMac then
        var held := Lookup(byMac[mac]);
        if held.Some? && held.value.client == mac then Some(byMac[mac]) else None
      else None
    }

    /** An address `mac` holds, or None iff it holds none, whatever the index says. */
    method CurrentLease(mac: Mac) returns (r: Option<Ip4>)
      requires Sound()
      ensures r == CurrentOf(mac) && IsCurrent(leases, mac, r)
    {
      ghost var answer := CurrentOf(mac);
      if filled == 0 && overflow == map[] {
        return None;
      }
      var hint := Hint(mac);
      if hint.Some? {
        return hint;
      }
      if useSlots {
        var i := ScanSlots(mac);
        if i.Some? {
          assert answer == Some(cfg.ipStart + i.value);
          return Some(cfg.ipStart + i.value);
        }
      }
      r := ScanOverflow(mac);
    }

    // The ways the stored leases change; each touches one address.

    method FillSlot(i: nat, lease: Lease4)
      requires Sound() && i < slots.Length && InSlots(Fields(), cfg.ipStart + i)
      modifies `filled, `leases, slots
      ensures Sound() && leases == old(leases)[cfg.ipStart + i := lease]
    {
      hide Represents;
      PutSlot(Fields(), leases, cfg.ipStart + i, lease);
      ghost var after := WithSlot(Fields(), cfg.ipStart + i, lease);
      if slots[i].None? {
        filled := filled + 1;
      }
      slots[i] := Some(lease);
      leases := leases[cfg.ipStart + i := lease];
      assert slots[..] == after.slots;
      assert Fields() == after;
    }

    method FillOverflow(addr: Ip4, lease: Lease4)
      requires Sound() && !InSlots(Fields(), addr)
      modifies `overflow, `order, `leases
      ensures Sound() && leases == old(leases)[addr := lease]
    {
      var order' := OrderWith(order, overflow, addr, lease);
      PutListed(Fields(), leases, addr, lease, order');
      overflow, order := overflow[addr := lease], order';
      leases := leases[addr := lease];
    }

    method EmptySlot(i: nat)
      requires Sound() && i < slots.Length && InSlots(Fields(), cfg.ipStart + i) && cfg.ipStart + i in leases
      modifies `filled, `leases, slots
      ensures Sound() && leases == old(leases) - {cfg.ipStart + i as nat}
    {
      hide Represents;
      ClearSlot(Fields(), leases, cfg.ipStart + i);
      ghost var after := WithoutSlot(Fields(), cfg.ipStart + i);
      slots[i] := None;
      filled := filled - 1;
      leases := leases - {cfg.ipStart + i as nat};
      assert slots[..] == after.slots;
      assert Fields() == after;
    }

    lemma ListedOnly(addr: Ip4)
      requires Sound() && !InSlots(Fields(), addr) && addr in leases
      ensures addr in overflow && IsOrder(order, overflow)
    {
      assert Stored(Fields(), addr) == Some(leases[addr]);
    }

    method EmptyOverflow(addr: Ip4)
      requires Sound() && !InSlots(Fields(), addr) && addr in leases
      modifies `overflow, `order, `leases
      ensures Sound() && leases == old(leases) - {addr as nat}
    {
      hide Represents;
      ListedOnly(addr);
      var order' := OrderWithout(order, overflow, addr);
      DropListed(Fields(), leases, addr, order');
      overflow, order := overflow - {addr as nat}, order';
      leases := leases - {addr as nat};
    }

    method SetIndex(index: map<Mac, Ip4>)
      requires Sound()
      modifies `byMac
      ensures Sound() && byMac == index
    {
      IndexIsFree(Fields(), leases, index);
      byMac := index;
    }

    method Put(addr: Ip4, lease: Lease4)
      requires Sound()
      modifies `filled, `overflow, `order, `leases, slots
      ensures Sound() && leases == old(leases)[addr := lease]
    {
      hide Represents;
      match Idx(addr) {
        case Some(i) => FillSlot(i, lease);
        case None => FillOverflow(addr, lease);
      }
    }

    /** Insert or take over a lease. One MAC may hold several addresses; the last insert at an address wins. */
    method InsertLease(ip: Ip4, mac: Mac, expiry: Option<Time>, name: Option<Utf8>)
      requires Sound()
      modifies `filled, `overflow, `order, `byMac, `leases, slots
      ensures Sound() && Contents() == InsertSpec(old(Contents()), ip, mac, expiry, name)
    {
      hide Represents;
      var held := Lookup(ip);
      if held.Some? {
        var oldMac := held.value.client;
        if oldMac != mac && oldMac in byMac && byMac[oldMac] == ip {
          SetIndex(byMac - {oldMac});
        }
      }
      Put(ip, Lease(mac, expiry, name));
      SetIndex(byMac[mac := ip]);
    }

    /** Drop the current lease of `mac`; the index moves to another lease of `mac` if there is one. */
    method RemoveLease(mac: Mac) returns (ghost other: Option<nat>)
      requires Sound()
      modifies `filled, `overflow, `order, `byMac, `leases, slots
      ensures Sound()
      ensures var cur := old(CurrentOf(mac));
              match cur
              case None => Contents() == old(Contents())
              case Some(ip) =>
                IsCurrent(leases, mac, other) && Contents() == RemoveSpec(old(Contents()), mac, ip, other)
    {
      hide Represents, IsCurrent;
      other := None;
      var current := CurrentLease(mac);
      if current.None? {
        return;
      }
      var ip := current.value;
      HeldIsLeased(mac, ip);
      match Idx(ip) {
        case Some(i) => EmptySlot(i);
        case None => EmptyOverflow(ip);
      }
      if mac in byMac && byMac[mac] == ip {
        SetIndex(byMac - {mac});
        other := RepairIndex(mac);
      } else {
        other := CurrentOf(mac);
      }
    }

    lemma HeldIsLeased(mac: Mac, ip: nat)
      requires IsCurrent(leases, mac, Some(ip))
      ensures ip in leases
    {
    }

    method RepairIndex(mac: Mac) returns (ghost other: Option<nat>)
      requires Sound() && mac !in byMac
      modifies `byMac
      ensures Sound() && IsCurrent(leases, mac, other)
      ensures byMac == if other.Some? then old(byMac)[mac := other.value] else old(byMac)
    {
      hide Represents;
      ScanFindsHolder(mac);
      other := ScanFor(Fields(), mac);
      if useSlots {
        var j := ScanSlots(mac);
        if j.Some? {
          SetIndex(byMac[mac := cfg.ipStart + j.value]);
          return;
        }
      }
      var listed := ScanOverflow(mac);
      if listed.Some? {
        SetIndex(byMac[mac := listed.value]);
      }
    }

    lemma ScanFindsHolder(mac: Mac)
      requires Sound()
      ensures IsOrder(order, overflow)
      ensures IsCurrent(leases, mac, ScanFor(Fields(), mac))
      ensures ScanFor(Fields(), mac).Some? ==> ScanFor(Fields(), mac).value < ADDRESS_SPACE
    {
      ScanIsExact(Fields(), leases, mac);
    }

    /** Store the announced host name with the lease; a packet without one leaves the stored name. */
    method RememberHostname(ip: Ip4, name: Option<Utf8>)
      requires Sound()
      modifies `filled, `overflow, `order, `leases, slots
      ensures Sound() && Contents() == RememberSpec(old(Contents()), ip, name)
    {
      hide Represents;
      var entry := Lookup(ip);
      if name.Some? && entry.Some? {
        Put(ip, entry.value.(info := name));
      }
    }

    // ----- The handler -----

    /** The loop of Discover: probe the pool from the cursor on. */
    method Probe(mac: Mac, now: Time) returns (r: Option<Ip4>)
      requires Valid() && IsCurrent(leases, mac, None)
      modifies `lastLease
      ensures Valid()
      ensures (Table(leases, lastLease), r) == DiscoverSpec(PolicyOf(cfg), Table(leases, old(lastLease)), None, now)
    {
      if cfg.leaseNum == 0 {
        assert FreeOffsets(PolicyOf(cfg), leases, now) == {};
        return None;
      }
      r := ProbeFrom(mac, now);
    }

    method ProbeFrom(mac: Mac, now: Time) returns (r: Option<Ip4>)
      requires Sound() && lastLease < cfg.leaseNum && IsCurrent(leases, mac, None)
      modifies `lastLease
      ensures lastLease < cfg.leaseNum
      ensures (Table(leases, lastLease), r) == DiscoverSpec(PolicyOf(cfg), Table(leases, old(lastLease)), None, now)
    {
      hide Missed, FreeAt, Sound, DiscoverSpec, IsCurrent, After, Available;
      ghost var before, p := Table(leases, lastLease), PolicyOf(cfg);
      ScanStarts(p, before, now);
      for n := 0 to cfg.leaseNum
        invariant lastLease < cfg.leaseNum && lastLease == After(cfg.leaseNum, before.last, n)
        invariant Missed(p, before, now, n)
      {
        AfterStep(cfg.leaseNum, before.last, n);
        lastLease := (lastLease + 1) % cfg.leaseNum;
        PoolFits();
        var cand: Ip4 := cfg.ipStart + lastLease;
        FreeIsAvailable(mac, now);
        if AvailableAt(mac, cand, now) {
          ScanHits(p, before, now, n);
          return Some(cand);
        }
        ScanMisses(p, before, now, n);
      }
      ScanExhausted(p, before, now);
      r := None;
    }

    lemma PoolFits()
      requires Sound()
      ensures cfg.ipStart + cfg.leaseNum <= ADDRESS_SPACE
    {
    }

    lemma FreeIsAvailable(mac: Mac, now: Time)
      requires IsCurrent(leases, mac, None) && lastLease < cfg.leaseNum
      ensures Available(PolicyOf(cfg), leases, mac, now, cfg.ipStart + lastLease) <==>
              FreeAt(PolicyOf(cfg), leases, now, lastLease)
    {
    }

    method HandleDiscover(pkt: Packet, now: Time) returns (reply: Option<Packet>)
      requires Valid()
      modifies this, slots
      ensures Valid()
      ensures (Contents(), reply) == OnDiscover(cfg, old(Contents()), old(CurrentOf(pkt.chaddr)), pkt, now)
    {
      hide Sound, IsCurrent, CurrentOf, DiscoverSpec, RememberSpec, InsertSpec, Lend, IsRapid, HostNameOf, OfferOptions;
      var kind := if IsRapid(cfg, pkt) then Ack else Offer;
      var current := CurrentLease(pkt.chaddr);
      if current.Some? {
        RememberHostname(current.value, HostNameOf(pkt));
        var lent := Reply(kind, pkt, current.value);
        return Some(lent);
      }
      var pick := Probe(pkt.chaddr, now);
      if pick.None? {
        NothingFree(PolicyOf(cfg), Table(leases, old(lastLease)), now);
        return None;
      }
      if IsRapid(cfg, pkt) {
        InsertLease(pick.value, pkt.chaddr, Some(now + DurationOf(cfg)), HostNameOf(pkt));
      }
      var lent := Reply(kind, pkt, pick.value);
      reply := Some(lent);
    }

    method Reply(kind: MessageType, pkt: Packet, ip: Ip4) returns (reply: Packet)
      requires cachedOffer == OfferOptions(cfg.offer)
      ensures reply == Lend(cfg, kind, pkt, ip)
    {
      hide ReplyPacket, OfferOptions;
      reply := BuildReply(cfg.offer.serverIp, kind, cachedOffer, ip, pkt);
    }

    method HandleRequestMessage(pkt: Packet, now: Time) returns (reply: Option<Packet>)
      requires Valid()
      modifies this, slots
      ensures Valid()
      ensures (Contents(), reply) == OnRequest(cfg, old(Contents()), old(CurrentOf(pkt.chaddr)), pkt, now)
    {
      hide Sound, IsCurrent, CurrentOf, RememberSpec, InsertSpec, Lend, Refuse, HostNameOf, Available;
      hide RequestedIp, OfferOptions;
      var current := CurrentLease(pkt.chaddr);
      if current.Some? {
        RememberHostname(current.value, HostNameOf(pkt));
        var lent := Reply(Ack, pkt, current.value);
        return Some(lent);
      }
      if !AvailableAt(pkt.chaddr, RequestedIp(pkt), now) {
        var refusal := NakReply(pkt);
        return Some(refusal);
      }
      InsertLease(RequestedIp(pkt), pkt.chaddr, Some(now + DurationOf(cfg)), HostNameOf(pkt));
      var lent := Reply(Ack, pkt, RequestedIp(pkt));
      reply := Some(lent);
    }

    method NakReply(pkt: Packet) returns (reply: Packet)
      ensures reply == Refuse(cfg, pkt)
    {
      hide ReplyPacket, Ascii;
      reply := BuildReply(cfg.offer.serverIp, Nak, [Message(Ascii("Requested IP not available"))], 0, pkt);
    }

    /** Handle one packet. */
    method HandleRequest(pkt: Packet, now: Time) returns (reply: Option<Packet>)
      requires Valid()
      modifies this, slots
      ensures Valid()
      ensures ServerStep(cfg, old(Contents()), pkt, now, Contents(), reply)
    {
      hide Sound, CurrentOf, OnDiscover, OnRequest, RemoveSpec, IsCurrent, TypeOf, ForThisServer;
      ghost var s, cur := Contents(), CurrentOf(pkt.chaddr);
      ghost var other := OtherThan(cur, pkt.chaddr);
      reply := None;
      match TypeOf(pkt.options) {
        case Some(Discover) => reply := HandleDiscover(pkt, now);
        case Some(Request) => reply := HandleRequestMessage(pkt, now);
        case Some(Release) | Some(Decline) =>
          if ForThisServer(cfg, pkt) {
            var current := CurrentLease(pkt.chaddr);
            if current.Some? {
              other := RemoveLease(pkt.chaddr);
              RemovedLeases(s, pkt.chaddr, current.value, other);
            }
          }
        case _ =>
      }
      assert StepWith(cfg, s, pkt, now, cur, other, Contents(), reply);
    }

    /** Some answer to the lookup once the current address is gone. */
    ghost function OtherThan(cur: Option<nat>, mac: Mac): (other: Option<nat>)
      reads this
      ensures cur.Some? ==> IsCurrent(leases - {cur.value}, mac, other)
    {
      if cur.Some? && exists a :: Holds(leases - {cur.value}, mac, a) then
        var a :| Holds(leases - {cur.value}, mac, a);
        Some(a)
      else
        assert cur.Some? ==>
                 forall a :: a in leases - {cur.value} && (leases - {cur.value})[a].client == mac ==>
                               Holds(leases - {cur.value}, mac, a);
        None
    }

    /** Load the leases file: infinite reservations. */
    method LoadReservations(lines: seq<(Mac, Ip4)>)
      requires Valid() && Contents() == State(map[], map[], 0)
      modifies this, slots
      ensures Valid() && Contents() == Reserved(lines)
    {
      hide Sound, InsertSpec;
      for i := 0 to |lines|
        invariant Valid() && Contents() == Reserved(lines[..i])
      {
        assert lines[..i + 1][..i] == lines[..i];
        var (mac, ip) := lines[i];
        InsertLease(ip, mac, None, None);
      }
      assert lines[..|lines|] == lines;
    }
  }

  lemma RemovedLeases(s: State, mac: Mac, ip: nat, other: Option<nat>)
    ensures RemoveSpec(s, mac, ip, other).leases == s.leases - {ip}
  {
  }

  lemma NothingFree(p: Policy, t: Table<Mac, Option<Utf8>>, now: Time)
    requires DiscoverSpec(p, t, None, now).1.None?
    ensures DiscoverSpec(p, t, None, now).0 == t
  {
  }

  /** Encode a reply into a fresh buffer, as it leaves the socket. */
  method Send(reply: Packet) returns (bytes: seq<byte>)
    ensures bytes == Wire(reply)
  {
    var buffer := new byte[WIRE_MAX](_ => 0);
    var length := Encode(reply, buffer);
    bytes := buffer[..length];
  }

  function OnWire(reply: Option<Packet>): Option<seq<byte>> {
    match reply
    case None => None
    case Some(r) => Some(Wire(r))
  }

  /** A run over `evs` from the state `s` to `s'` sends `sent`, packet by packet. */
  ghost predicate Served(cfg: Config, s: State, evs: seq<Event>, sent: seq<Option<seq<byte>>>, s': State) {
    exists ss: seq<State>, replies: seq<Option<Packet>> ::
      IsRun(cfg, ss, evs, replies) && ss[0] == s && ss[|evs|] == s' && AllOnWire(replies, sent)
  }

  /** `sent` is what a run of the service over `evs`, from the leases file `lines`, sends for each packet. */
  ghost predicate Sends(cfg: Config, lines: seq<(Mac, Ip4)>, evs: seq<Event>, sent: seq<Option<seq<byte>>>) {
    exists s' :: Served(cfg, Reserved(lines), evs, sent, s')
  }

  ghost predicate AllOnWire(replies: seq<Option<Packet>>, sent: seq<Option<seq<byte>>>) {
    |sent| == |replies| && forall i :: 0 <= i < |replies| ==> sent[i] == OnWire(replies[i])
  }

  /** A received datagram and the clock reading its handling takes. */
  datatype Datagram = Datagram(bytes: Received, now: Time)

  /** The packets handled: malformed datagrams are skipped, the first one that stops the decoder is the end. */
  function Understood(dgs: seq<Datagram>): seq<Event> {
    if dgs == [] then []
    else
      match Decoded(dgs[0].bytes)
      case Parsed(pkt) => [Event(pkt, dgs[0].now)] + Understood(dgs[1..])
      case Rejected(_) => Understood(dgs[1..])
      case Aborted => []
  }

  lemma UnderstoodStep(dgs: seq<Datagram>, i: nat, evs: seq<Event>)
    requires i < |dgs| && evs + Understood(dgs[i..]) == Understood(dgs)
    ensures match Decoded(dgs[i].bytes)
            case Parsed(pkt) => evs + [Event(pkt, dgs[i].now)] + Understood(dgs[i + 1..]) == Understood(dgs)
            case Rejected(_) => evs + Understood(dgs[i + 1..]) == Understood(dgs)
            case Aborted => evs == Understood(dgs)
  {
    assert dgs[i..][1..] == dgs[i + 1..];
  }

  /** The service loop: one datagram at a time, up to the first one on which the decoder stops. */
  method ServeAll(server: MyServer, dgs: seq<Datagram>) returns (sent: seq<Option<seq<byte>>>)
    requires server.Valid()
    modifies server, server.slots
    ensures server.Valid()
    ensures Served(server.cfg, old(server.Contents()), Understood(dgs), sent, server.Contents())
  {
    hide MyServer.Sound, ServerStep, OnWire, Decoded, Understood;
    var cfg := server.cfg;
    sent := [];
    ghost var ss, replies: seq<Option<Packet>>, evs: seq<Event> := [server.Contents()], [], [];
    assert dgs[0..] == dgs;
    for i := 0 to |dgs|
      invariant server.Valid()
      invariant IsRun(cfg, ss, evs, replies) && AllOnWire(replies, sent)
      invariant ss[0] == old(server.Contents()) && ss[|evs|] == server.Contents()
      invariant evs + Understood(dgs[i..]) == Understood(dgs)
    {
      UnderstoodStep(dgs, i, evs);
      var decoded := Decode(dgs[i].bytes);
      match decoded {
        case Aborted => return;
        case Rejected(_) =>
        case Parsed(pkt) =>
          var reply := server.HandleRequest(pkt, dgs[i].now);
          var bytes := SendAny(reply);
          RunGrows(cfg, ss, evs, replies, Event(pkt, dgs[i].now), server.Contents(), reply);
          sent, ss, replies := sent + [bytes], ss + [server.Contents()], replies + [reply];
          evs := evs + [Event(pkt, dgs[i].now)];
      }
    }
    NothingLeft(dgs, evs);
  }

  /** The service over the datagrams received: store loaded from the leases file, then the loop. */
  method Serve(cfg: Config, lines: seq<(Mac, Ip4)>, dgs: seq<Datagram>) returns (sent: seq<Option<seq<byte>>>)
    requires Validated(cfg)
    ensures Sends(cfg, lines, Understood(dgs), sent)
  {
    hide MyServer.Valid, Served, Understood, Reserved;
    var server := new MyServer(cfg, SLOT_LIMIT);
    server.LoadReservations(lines);
    sent := ServeAll(server, dgs);
  }

  /** The service handles nothing from the first datagram that stops the decoder on, and everything before it. */
  lemma {:induction false} StopsAt(dgs: seq<Datagram>, i: nat)
    requires i < |dgs| && Decoded(dgs[i].bytes) == Aborted
    requires forall k :: 0 <= k < i ==> Decoded(dgs[k].bytes) != Aborted
    ensures Understood(dgs) == Understood(dgs[..i])
  {
    hide Decoded;
    if i > 0 {
      assert dgs[..i][1..] == dgs[1..][..i - 1];
      StopsAt(dgs[1..], i - 1);
    }
  }

  /** Up to there every datagram counts by itself: a malformed one for nothing, any other for its packet. */
  lemma {:induction false} UnderstoodSplits(a: seq<Datagram>, b: seq<Datagram>)
    requires forall k :: 0 <= k < |a| ==> Decoded(a[k].bytes) != Aborted
    ensures Understood(a + b) == Understood(a) + Understood(b)
  {
    hide Decoded;
    if a == [] {
      assert a + b == b;
    } else {
      assert (a + b)[1..] == a[1..] + b;
      UnderstoodSplits(a[1..], b);
    }
  }

  lemma UnderstoodOne(dg: Datagram)
    ensures Understood([dg]) == match Decoded(dg.bytes)
                                case Parsed(pkt) => [Event(pkt, dg.now)]
                                case Rejected(_) => []
                                case Aborted => []
  {
    hide Decoded;
    assert [dg][1..] == [];
  }

  /** Every reply of a run is sent, encoded, and nothing else is. */
  lemma RepliesAreSent(
      cfg: Config, s: State, evs: seq<Event>, sent: seq<Option<seq<byte>>>, s': State)
    returns (ss: seq<State>, replies: seq<Option<Packet>>)
    requires Served(cfg, s, evs, sent, s')
    ensures IsRun(cfg, ss, evs, replies) && ss[0] == s && ss[|evs|] == s' && |sent| == |evs|
    ensures forall i :: 0 <= i < |evs| ==> (sent[i].Some? <==> replies[i].Some?)
    ensures forall i :: 0 <= i < |evs| && replies[i].Some? ==> sent[i].value == Wire(replies[i].value)
  {
    hide ServerStep, Wire;
    ss, replies :| IsRun(cfg, ss, evs, replies) && ss[0] == s && ss[|evs|] == s' && AllOnWire(replies, sent);
  }

  lemma NothingLeft(dgs: seq<Datagram>, evs: seq<Event>)
    requires evs + Understood(dgs[|dgs|..]) == Understood(dgs)
    ensures evs == Understood(dgs)
  {
    assert evs + [] == evs;
  }

  lemma RunGrows(
      cfg: Config, ss: seq<State>, evs: seq<Event>, replies: seq<Option<Packet>>,
      e: Event, s': State, reply: Option<Packet>)
    requires IsRun(cfg, ss, evs, replies) && ServerStep(cfg, ss[|evs|], e.pkt, e.now, s', reply)
    ensures IsRun(cfg, ss + [s'], evs + [e], replies + [reply])
  {
    hide ServerStep;
  }

  method SendAny(reply: Option<Packet>) returns (bytes: Option<seq<byte>>)
    ensures bytes == OnWire(reply)
  {
    bytes := None;
    if reply.Some? {
      var wire := Send(reply.value);
      bytes := Some(wire);
    }
  }
}
