/**
 The DHCPv6 service: decode a datagram, let it act on the address pool, encode the reply.

 `Handled` is the service's effect on the table and the packet it answers with, given the
 current lease the pool found for the client; `ServerStep` is one turn of the service loop and
 `IsRun` a whole run of it.
 */
module Dhcpv6Server {
  import opened Wrappers
  import opened Bytes
  import opened Text
  import opened Leases
  import opened DhcpV6Pool
  import opened Codec = Dhcpv6Codec

  datatype Config = Config(
    serverDuid: Duid,
    start: Addr6,
    count: u64,
    leaseSecs: u32,
    dns: seq<u128>,
    rapidCommit: bool)

  /** One received datagram and the two clock readings its handling may take. */
  datatype Datagram = Datagram(bytes: Received, readAt: Time, commitAt: Time)

  const STATUS_NO_ADDRS_AVAIL: u16 := 2
  const NANOS_PER_SEC: nat := 1_000_000_000
  const SLOT_LIMIT: nat := 100_000

  function PolicyOf(cfg: Config): Policy {
    Policy(cfg.start, cfg.count, cfg.start + cfg.count < ADDRESS_SPACE, false)
  }

  function DurationOf(cfg: Config): nat {
    cfg.leaseSecs * NANOS_PER_SEC
  }

  // ----- Replies -----

  function IaidOf(req: Packet): u32 {
    match FirstIana(req.options)
    case Some(ia) => ia.iaid
    case None => 0
  }

  /** T1 is half the lease time, T2 seven eighths of it, rounded up. */
  function T1T2(secs: u32): (u32, u32) {
    (secs / 2, secs - secs / 8)
  }

  function Addressed(cfg: Config, req: Packet, duid: Duid, msgType: MsgType, ip: Addr6): Packet {
    var (t1, t2) := T1T2(cfg.leaseSecs);
    Packet(msgType, req.transactionId,
      [ServerId(cfg.serverDuid),
       ClientId(duid),
       IaNaOption(IaNa(IaidOf(req), t1, t2, [IaAddr(ip, cfg.leaseSecs, cfg.leaseSecs)]))]
      + if cfg.dns == [] then [] else [DnsServers(cfg.dns)])
  }

  function NoAddress(cfg: Config, req: Packet, duid: Duid, msgType: MsgType): Packet {
    Packet(msgType, req.transactionId,
      [ServerId(cfg.serverDuid),
       ClientId(duid),
       IaNaOption(IaNa(IaidOf(req), 0, 0, [])),
       StatusCode(STATUS_NO_ADDRS_AVAIL, Ascii("NoAddrsAvail"))])
  }

  /** What goes out: a reply that cannot be encoded is not sent. */
  function OnWire(reply: Option<Packet>): Option<seq<byte>> {
    match reply
    case None => None
    case Some(p) =>
      match Encoded(p)
      case Ok(bytes) => Some(bytes)
      case Err(_) => None
  }

  // ----- One packet -----

  function ClientOf(p: Packet): Option<Duid> {
    match FirstWithCode(p.options, OPT_CLIENTID)
    case Some(ClientId(d)) => Some(d)
    case _ => None
  }

  predicate IsRapid(cfg: Config, p: Packet) {
    cfg.rapidCommit && FirstWithCode(p.options, OPT_RAPID_COMMIT).Some?
  }

  function Wanted(p: Packet): Option<Addr6> {
    match FirstIana(p.options)
    case None => None
    case Some(ia) => if ia.addrs == [] then None else Some(ia.addrs[0].addr)
  }

  /** The answer for the address the pool gave, if any; the pool only gives addresses below 2^128. */
  function AnswerTo(cfg: Config, p: Packet, duid: Duid, msgType: MsgType, ip: Option<nat>): Packet {
    match ip
    case Some(a) => if a < ADDRESS_SPACE then Addressed(cfg, p, duid, msgType, a) else NoAddress(cfg, p, duid, msgType)
    case None => NoAddress(cfg, p, duid, msgType)
  }

  function Granted(r: Result<nat, PoolError>): Option<nat> {
    match r
    case Ok(a) => Some(a)
    case Err(_) => None
  }

  ghost function OnSolicit(
      cfg: Config, t: Table6, cur: Option<nat>, p: Packet, duid: Duid, dg: Datagram): (Table6, Option<Packet>)
  {
    var (t1, offer) := DiscoverSpec(PolicyOf(cfg), t, cur, dg.readAt);
    if !IsRapid(cfg, p) then (t1, Some(AnswerTo(cfg, p, duid, Advertise, offer)))
    else
      match offer
      case None => (t1, Some(NoAddress(cfg, p, duid, Reply)))
      case Some(a) =>
        var (t2, r) := RequestSpec(PolicyOf(cfg), DurationOf(cfg), t1, cur, duid, a, dg.commitAt);
        (t2, Some(AnswerTo(cfg, p, duid, Reply, Granted(r))))
  }

  ghost function OnRequest(
      cfg: Config, t: Table6, cur: Option<nat>, p: Packet, duid: Duid, dg: Datagram): (Table6, Option<Packet>)
  {
    match Wanted(p)
    case None => (t, None)
    case Some(a) =>
      var (t', r) := RequestSpec(PolicyOf(cfg), DurationOf(cfg), t, cur, duid, a, dg.readAt);
      (t', Some(AnswerTo(cfg, p, duid, Reply, Granted(r))))
  }

  ghost function OnRelease(cfg: Config, t: Table6, cur: Option<nat>, p: Packet): (Table6, Option<Packet>) {
    if IsForServer(cfg.serverDuid, p) then (ReleaseSpec(t, cur).0, None) else (t, None)
  }

  ghost function Handled(
      cfg: Config, t: Table6, cur: Option<nat>, p: Packet, duid: Duid, dg: Datagram): (Table6, Option<Packet>)
  {
    match p.msgType
    case Solicit => OnSolicit(cfg, t, cur, p, duid, dg)
    case Request => OnRequest(cfg, t, cur, p, duid, dg)
    case Renew => OnRequest(cfg, t, cur, p, duid, dg)
    case Rebind => OnRequest(cfg, t, cur, p, duid, dg)
    case Release => OnRelease(cfg, t, cur, p)
    case Decline => OnRelease(cfg, t, cur, p)
    case _ => (t, None)
  }

  /** The packet and client of a datagram the service acts on; anything else is ignored. */
  function Understood(dg: Datagram): Option<(Packet, Duid)> {
    match Decoded(dg.bytes)
    case Err(_) => None
    case Ok(p) =>
      match ClientOf(p)
      case None => None
      case Some(d) => Some((p, d))
  }

  /** One turn of the service loop, when the pool's lookup of the client gives `cur`. */
  ghost predicate StepWith(cfg: Config, t: Table6, dg: Datagram, cur: Option<nat>, t': Table6, reply: Option<Packet>) {
    match Understood(dg)
    case None => t' == t && reply == None
    case Some((p, d)) =>
      && IsCurrent(t.leases, d, cur)
      && (t', reply) == Handled(cfg, t, cur, p, d, dg)
  }

  ghost predicate ServerStep(cfg: Config, t: Table6, dg: Datagram, t': Table6, reply: Option<Packet>) {
    exists cur :: StepWith(cfg, t, dg, cur, t', reply)
  }

  /** Tables before, between and after the datagrams of a run, and the replies to them. */
  ghost predicate IsRun(cfg: Config, ts: seq<Table6>, dgs: seq<Datagram>, replies: seq<Option<Packet>>) {
    && |ts| == |dgs| + 1 && |replies| == |dgs|
    && forall i :: 0 <= i < |dgs| ==> ServerStep(cfg, ts[i], dgs[i], ts[i + 1], replies[i])
  }

  /** The table the reservations file gives: later lines win at an address, empty DUIDs are skipped. */
  function Reserved(lines: seq<(Duid, Addr6)>): Table6 {
    if lines == [] then Table(map[], 0)
    else
      var (duid, ip) := lines[|lines| - 1];
      var t := Reserved(lines[..|lines| - 1]);
      if duid == [] then t else InsertSpec(t, ip, duid, None)
  }

  // ----- The service -----

  ghost predicate Serves(pool: V6Pool, cfg: Config)
    reads pool, pool.slots
  {
    && pool.Valid()
    && pool.Managed() == PolicyOf(cfg)
    && pool.leaseDuration == DurationOf(cfg)
  }

  method HandleSolicit(pool: V6Pool, cfg: Config, p: Packet, duid: Duid, dg: Datagram) returns (reply: Option<Packet>)
    requires Serves(pool, cfg)
    modifies pool, pool.slots
    ensures Serves(pool, cfg)
    ensures (pool.Contents(), reply) == OnSolicit(cfg, old(pool.Contents()), old(pool.CurrentOf(duid)), p, duid, dg)
  {
    var offer := pool.Discover(duid, dg.readAt);
    if IsRapid(cfg, p) {
      match offer {
        case None => reply := Some(NoAddress(cfg, p, duid, Reply));
        case Some(a) =>
          var r := pool.Request(duid, a, dg.commitAt);
          reply := Some(AnswerTo(cfg, p, duid, Reply, Granted(r)));
      }
    } else {
      reply := Some(AnswerTo(cfg, p, duid, Advertise, offer));
    }
  }

  method HandleMessage(pool: V6Pool, cfg: Config, p: Packet, duid: Duid, dg: Datagram) returns (reply: Option<Packet>)
    requires Serves(pool, cfg)
    modifies pool, pool.slots
    ensures Serves(pool, cfg)
    ensures (pool.Contents(), reply) == Handled(cfg, old(pool.Contents()), old(pool.CurrentOf(duid)), p, duid, dg)
  {
    hide V6Pool.Sound, V6Pool.CurrentOf, RequestSpec, OnSolicit, IsForServer, AnswerTo, Wanted;
    reply := None;
    match p.msgType {
      case Solicit => reply := HandleSolicit(pool, cfg, p, duid, dg);
      case Request | Renew | Rebind =>
        var wanted := Wanted(p);
        if wanted.Some? {
          var r := pool.Request(duid, wanted.value, dg.readAt);
          reply := Some(AnswerTo(cfg, p, duid, Reply, Granted(r)));
        }
      case Release | Decline =>
        if IsForServer(cfg.serverDuid, p) {
          var released, _ := pool.Release(duid);
        }
      case _ =>
    }
  }

  method HandleDatagram(pool: V6Pool, cfg: Config, dg: Datagram) returns (reply: Option<Packet>)
    requires Serves(pool, cfg)
    modifies pool, pool.slots
    ensures Serves(pool, cfg)
    ensures ServerStep(cfg, old(pool.Contents()), dg, pool.Contents(), reply)
  {
    hide V6Pool.Sound, V6Pool.CurrentOf, Handled, IsCurrent, ClientOf, Decoded;
    var decoded := Decode(dg.bytes);
    if decoded.Err? {
      assert StepWith(cfg, pool.Contents(), dg, None, pool.Contents(), None);
      return None;
    }
    var client := ClientOf(decoded.value);
    if client.None? {
      assert StepWith(cfg, pool.Contents(), dg, None, pool.Contents(), None);
      return None;
    }
    ghost var cur, before := pool.CurrentOf(client.value), pool.Contents();
    reply := HandleMessage(pool, cfg, decoded.value, client.value, dg);
    assert StepWith(cfg, before, dg, cur, pool.Contents(), reply);
  }

  method LoadReservations(pool: V6Pool, lines: seq<(Duid, Addr6)>)
    requires pool.Valid() && pool.Contents() == Table(map[], 0)
    modifies pool, pool.slots
    ensures pool.Valid() && pool.Contents() == Reserved(lines)
  {
    for i := 0 to |lines|
      invariant pool.Valid() && pool.Contents() == Reserved(lines[..i])
    {
      assert lines[..i + 1][..i] == lines[..i];
      var (duid, ip) := lines[i];
      if duid != [] {
        pool.Insert(ip, duid, None);
      }
    }
    assert lines[..|lines|] == lines;
  }

  /** `sent` is what a run of the service over `dgs`, from the reservations `lines`, sends for each datagram. */
  ghost predicate Sends(cfg: Config, lines: seq<(Duid, Addr6)>, dgs: seq<Datagram>, sent: seq<Option<seq<byte>>>) {
    exists ts: seq<Table6>, replies: seq<Option<Packet>> ::
      IsRun(cfg, ts, dgs, replies) && ts[0] == Reserved(lines) && AllOnWire(replies, sent)
  }

  ghost predicate AllOnWire(replies: seq<Option<Packet>>, sent: seq<Option<seq<byte>>>) {
    |sent| == |replies| && forall i :: 0 <= i < |replies| ==> sent[i] == OnWire(replies[i])
  }

  /** The service loop over the datagrams received. */
  method Serve(cfg: Config, lines: seq<(Duid, Addr6)>, dgs: seq<Datagram>) returns (sent: seq<Option<seq<byte>>>)
    ensures Sends(cfg, lines, dgs, sent)
  {
    hide V6Pool.Valid, ServerStep, Reserved, OnWire;
    var pool := new V6Pool(cfg.start, cfg.count, DurationOf(cfg), SLOT_LIMIT);
    LoadReservations(pool, lines);
    sent := [];
    ghost var ts, replies: seq<Option<Packet>> := [pool.Contents()], [];
    for i := 0 to |dgs|
      invariant fresh(pool) && fresh(pool.slots) && Serves(pool, cfg)
      invariant |ts| == i + 1 && |replies| == |sent| == i
      invariant ts[0] == Reserved(lines) && ts[i] == pool.Contents()
      invariant forall k :: 0 <= k < i ==> ServerStep(cfg, ts[k], dgs[k], ts[k + 1], replies[k])
      invariant AllOnWire(replies, sent)
    {
      var reply := HandleDatagram(pool, cfg, dgs[i]);
      var bytes := Send(reply);
      sent, ts, replies := sent + [bytes], ts + [pool.Contents()], replies + [reply];
    }
    assert IsRun(cfg, ts, dgs, replies);
  }

  method Send(reply: Option<Packet>) returns (bytes: Option<seq<byte>>)
    ensures bytes == OnWire(reply)
  {
    bytes := None;
    if reply.Some? {
      var encoded := Encode(reply.value);
      bytes := match encoded case Ok(b) => Some(b) case Err(_) => None;
    }
  }
}
