/** DHCPv4 options: their codes, payload octets and the in-place writer (section 2 of RFC 2132). */
module Dhcpv4Options {
  import opened Bytes
  import opened Text

  type Ip4 = u32

  datatype MessageType = Discover | Offer | Request | Decline | Ack | Nak | Release | Inform

  datatype RawOption = RawOption(code: byte, data: seq<byte>)

  datatype DhcpOption =
    | DhcpMessageType(kind: MessageType)
    | ServerIdentifier(addr: Ip4)
    | ParameterRequestList(codes: seq<byte>)
    | RequestedIpAddress(addr: Ip4)
    | HostName(name: Utf8)
    | Router(addrs: seq<Ip4>)
    | DomainNameServer(addrs: seq<Ip4>)
    | IpAddressLeaseTime(secs: u32)
    | SubnetMask(addr: Ip4)
    | Message(text: Utf8)
    | Unrecognized(raw: RawOption)

  const SUBNET_MASK: byte := 1
  const ROUTER: byte := 3
  const DOMAIN_NAME_SERVER: byte := 6
  const HOST_NAME: byte := 12
  const NETWORK_TIME_PROTOCOL_SERVERS: byte := 42
  const REQUESTED_IP_ADDRESS: byte := 50
  const IP_ADDRESS_LEASE_TIME: byte := 51
  const DHCP_MESSAGE_TYPE: byte := 53
  const SERVER_IDENTIFIER: byte := 54
  const PARAMETER_REQUEST_LIST: byte := 55
  const MESSAGE: byte := 56
  const RAPID_COMMIT: byte := 80

  function TypeCode(m: MessageType): byte {
    match m
    case Discover => 1 case Offer => 2 case Request => 3 case Decline => 4
    case Ack => 5 case Nak => 6 case Release => 7 case Inform => 8
  }

  predicate IsType(val: byte) {
    1 <= val <= 8
  }

  function TypeFrom(val: byte): MessageType
    requires IsType(val)
  {
    if val == 1 then Discover else if val == 2 then Offer else if val == 3 then Request
    else if val == 4 then Decline else if val == 5 then Ack else if val == 6 then Nak
    else if val == 7 then Release else Inform
  }

  function Code(o: DhcpOption): byte {
    match o
    case DhcpMessageType(_) => DHCP_MESSAGE_TYPE
    case ServerIdentifier(_) => SERVER_IDENTIFIER
    case ParameterRequestList(_) => PARAMETER_REQUEST_LIST
    case RequestedIpAddress(_) => REQUESTED_IP_ADDRESS
    case HostName(_) => HOST_NAME
    case Router(_) => ROUTER
    case DomainNameServer(_) => DOMAIN_NAME_SERVER
    case IpAddressLeaseTime(_) => IP_ADDRESS_LEASE_TIME
    case SubnetMask(_) => SUBNET_MASK
    case Message(_) => MESSAGE
    case Unrecognized(raw) => raw.code
  }

  function AddrsData(addrs: seq<Ip4>): (s: seq<byte>)
    ensures |s| == 4 * |addrs|
  {
    if addrs == [] then [] else BigEndian(addrs[0], 4) + AddrsData(addrs[1..])
  }

  /** The payload octets of an option. */
  function Data(o: DhcpOption): seq<byte> {
    match o
    case DhcpMessageType(m) => [TypeCode(m)]
    case ServerIdentifier(a) => BigEndian(a, 4)
    case ParameterRequestList(p) => p
    case RequestedIpAddress(a) => BigEndian(a, 4)
    case HostName(s) => s
    case Router(a) => AddrsData(a)
    case DomainNameServer(a) => AddrsData(a)
    case IpAddressLeaseTime(s) => BigEndian(s, 4)
    case SubnetMask(a) => BigEndian(a, 4)
    case Message(s) => s
    case Unrecognized(raw) => raw.data
  }

  /** Payload length without building the payload. */
  function DataLen(o: DhcpOption): (n: nat)
    ensures n == |Data(o)|
  {
    match o
    case DhcpMessageType(_) => 1
    case ServerIdentifier(_) => 4
    case RequestedIpAddress(_) => 4
    case SubnetMask(_) => 4
    case ParameterRequestList(p) => |p|
    case HostName(s) => |s|
    case Message(s) => |s|
    case Router(a) => |a| * 4
    case DomainNameServer(a) => |a| * 4
    case IpAddressLeaseTime(_) => 4
    case Unrecognized(raw) => |raw.data|
  }

  lemma {:induction false} AppendAddr(addrs: seq<Ip4>, last: Ip4)
    ensures AddrsData(addrs + [last]) == AddrsData(addrs) + BigEndian(last, 4)
  {
    if addrs != [] {
      assert (addrs + [last])[1..] == addrs[1..] + [last];
      AppendAddr(addrs[1..], last);
    } else {
      assert AddrsData([last]) == BigEndian(last, 4) + AddrsData([]);
    }
  }

  method ToRaw(o: DhcpOption) returns (raw: RawOption)
    ensures raw == RawOption(Code(o), Data(o))
  {
    match o {
      case Router(a) => var data := Concatenated(a); raw := RawOption(ROUTER, data);
      case DomainNameServer(a) => var data := Concatenated(a); raw := RawOption(DOMAIN_NAME_SERVER, data);
      case DhcpMessageType(m) => raw := RawOption(DHCP_MESSAGE_TYPE, [TypeCode(m)]);
      case ServerIdentifier(a) => raw := RawOption(SERVER_IDENTIFIER, BigEndian(a, 4));
      case ParameterRequestList(p) => raw := RawOption(PARAMETER_REQUEST_LIST, p);
      case RequestedIpAddress(a) => raw := RawOption(REQUESTED_IP_ADDRESS, BigEndian(a, 4));
      case HostName(s) => raw := RawOption(HOST_NAME, s);
      case IpAddressLeaseTime(s) => raw := RawOption(IP_ADDRESS_LEASE_TIME, BigEndian(s, 4));
      case SubnetMask(a) => raw := RawOption(SUBNET_MASK, BigEndian(a, 4));
      case Message(s) => raw := RawOption(MESSAGE, s);
      case Unrecognized(x) => raw := x;
    }
  }

  method Concatenated(addrs: seq<Ip4>) returns (data: seq<byte>)
    ensures data == AddrsData(addrs)
  {
    data := [];
    for i := 0 to |addrs|
      invariant data == AddrsData(addrs[..i])
    {
      AppendAddr(addrs[..i], addrs[i]);
      assert addrs[..i + 1] == addrs[..i] + [addrs[i]];
      data := data + BigEndian(addrs[i], 4);
    }
    assert addrs[..|addrs|] == addrs;
  }

  // ----- Writing in place -----

  // Each writer extends the octets already written, `p[..at]`, and leaves the rest of the buffer.

  method CopyAt(p: array<byte>, at: nat, s: seq<byte>)
    requires at + |s| <= p.Length
    modifies p
    ensures p[..at + |s|] == old(p[..at]) + s
    ensures p[at + |s|..] == old(p[at + |s|..])
  {
    forall i | 0 <= i < |s| {
      p[at + i] := s[i];
    }
  }

  /** Write the payload of `o` into `p` at `at`; the number of octets written. */
  method WriteData(o: DhcpOption, p: array<byte>, at: nat) returns (n: nat)
    requires at + |Data(o)| <= p.Length
    modifies p
    ensures n == |Data(o)|
    ensures p[..at + n] == old(p[..at]) + Data(o) && p[at + n..] == old(p[at + n..])
  {
    hide BigEndian, AddrsData, ValidUtf8;
    match o {
      case Router(a) => n := WriteAddrs(a, p, at);
      case DomainNameServer(a) => n := WriteAddrs(a, p, at);
      case _ =>
        CopyAt(p, at, FixedData(o));
        n := DataLen(o);
    }
  }

  /** Payload of the options that are copied as one slice. */
  function FixedData(o: DhcpOption): (s: seq<byte>)
    requires !o.Router? && !o.DomainNameServer?
    ensures s == Data(o)
  {
    match o
    case DhcpMessageType(m) => [TypeCode(m)]
    case ServerIdentifier(a) => BigEndian(a, 4)
    case RequestedIpAddress(a) => BigEndian(a, 4)
    case SubnetMask(a) => BigEndian(a, 4)
    case ParameterRequestList(p) => p
    case HostName(s) => s
    case Message(s) => s
    case IpAddressLeaseTime(s) => BigEndian(s, 4)
    case Unrecognized(raw) => raw.data
  }

  method WriteAddrs(addrs: seq<Ip4>, p: array<byte>, at: nat) returns (n: nat)
    requires at + 4 * |addrs| <= p.Length
    modifies p
    ensures n == 4 * |addrs|
    ensures p[..at + n] == old(p[..at]) + AddrsData(addrs) && p[at + n..] == old(p[at + n..])
  {
    hide BigEndian;
    n := 0;
    ghost var before := p[..];
    assert p[..at] == before[..at] + AddrsData(addrs[..0]);
    for i := 0 to |addrs|
      invariant n == 4 * i
      invariant p[..at + n] == before[..at] + AddrsData(addrs[..i])
      invariant p[at + n..] == before[at + n..]
    {
      AppendAddr(addrs[..i], addrs[i]);
      assert addrs[..i + 1] == addrs[..i] + [addrs[i]];
      assert p[at + n..][4..] == p[at + n + 4..] && before[at + n..][4..] == before[at + n + 4..];
      CopyAt(p, at + n, BigEndian(addrs[i], 4));
      n := n + 4;
    }
    assert addrs[..|addrs|] == addrs;
  }
}
