/**
 The DHCPv4 message (section 2 of RFC 2131): a fixed header, a magic cookie and options.

 Encoding keeps the longest prefix of the option list that leaves the message under the BOOTP
 size of 300 octets, then writes END and pads the buffer. Decoding reads options until one fails
 or END follows, so it forgives a damaged tail.
 */
module Dhcpv4Packet {
  import opened Wrappers
  import opened Bytes
  import opened Text
  import opened Dhcpv4Options

  type Mac = s: seq<byte> | |s| == 6 witness [0, 0, 0, 0, 0, 0]

  datatype Packet = Packet(
    reply: bool, hops: byte, xid: u32, secs: u16, broadcast: bool,
    ciaddr: Ip4, yiaddr: Ip4, siaddr: Ip4, giaddr: Ip4, chaddr: Mac,
    options: seq<DhcpOption>)

  datatype DecodeError = InvalidHlen | BadCookie | NonUtf8String | UnrecognizedMessageType

  /** `Aborted` is the decoder stopping at one of its own checks instead of returning. */
  datatype Outcome = Parsed(packet: Packet) | Rejected(error: DecodeError) | Aborted

  const WIRE_MAX: nat := 300
  const HEADER_LEN: nat := 240
  const END: byte := 255
  const PAD: byte := 0
  const BOOT_REQUEST: byte := 1
  const BOOT_REPLY: byte := 2

  function Cookie(): seq<byte> {
    [99, 130, 83, 99]
  }

  function Zeros(n: nat): (s: seq<byte>)
    ensures |s| == n && forall i :: 0 <= i < n ==> s[i] == 0
  {
    seq(n, _ => 0)
  }

  // ----- What goes on the wire -----

  function FixedHeader(p: Packet): (s: seq<byte>)
    ensures |s| == 34
  {
    [if p.reply then BOOT_REPLY else BOOT_REQUEST, 1, 6, p.hops]
    + BigEndian(p.xid, 4) + BigEndian(p.secs, 2) + [if p.broadcast then 128 else 0, 0]
    + BigEndian(p.ciaddr, 4) + BigEndian(p.yiaddr, 4) + BigEndian(p.siaddr, 4) + BigEndian(p.giaddr, 4)
    + p.chaddr
  }

  function Header(p: Packet): (s: seq<byte>)
    ensures |s| == HEADER_LEN
  {
    FixedHeader(p) + Zeros(202) + Cookie()
  }

  function OptionBytes(o: DhcpOption): seq<byte>
    requires |Data(o)| < 256
  {
    [Code(o), |Data(o)|] + Data(o)
  }

  /** Octets an option list takes. */
  function Size(os: seq<DhcpOption>): nat {
    if os == [] then 0 else 2 + |Data(os[0])| + Size(os[1..])
  }

  /** The list fits a message of WIRE_MAX octets with its END octet. */
  predicate FitsWire(os: seq<DhcpOption>) {
    HEADER_LEN + Size(os) < WIRE_MAX
  }

  lemma {:induction false} SizeSplits(a: seq<DhcpOption>, b: seq<DhcpOption>)
    ensures Size(a + b) == Size(a) + Size(b)
  {
    if a == [] {
      assert a + b == b;
    } else {
      assert (a + b)[1..] == a[1..] + b;
      SizeSplits(a[1..], b);
    }
  }

  lemma PrefixSize(os: seq<DhcpOption>, k: nat)
    requires k <= |os|
    ensures Size(os[..k]) <= Size(os)
    ensures k < |os| ==> Size(os[..k + 1]) == Size(os[..k]) + 2 + |Data(os[k])| <= Size(os)
  {
    hide Data;
    assert os == os[..k] + os[k..];
    SizeSplits(os[..k], os[k..]);
    if k < |os| {
      assert os[..k + 1] == os[..k] + [os[k]] && os == os[..k + 1] + os[k + 1..];
      SizeSplits(os[..k], [os[k]]);
      SizeSplits(os[..k + 1], os[k + 1..]);
    }
  }

  /** `k` options are emitted: that many fit, and one more would not. */
  ghost predicate IsEmitted(os: seq<DhcpOption>, k: nat) {
    k <= |os| && FitsWire(os[..k]) && (k < |os| ==> !FitsWire(os[..k + 1]))
  }

  function EmittedFrom(os: seq<DhcpOption>, k: nat): (n: nat)
    requires k <= |os| && FitsWire(os[..k])
    ensures IsEmitted(os, n)
    decreases |os| - k
  {
    if k < |os| && FitsWire(os[..k + 1]) then EmittedFrom(os, k + 1) else k
  }

  function Emitted(os: seq<DhcpOption>): (e: seq<DhcpOption>)
    ensures e <= os && FitsWire(e)
  {
    assert os[..0] == [];
    os[..EmittedFrom(os, 0)]
  }

  /** The emitted list is the longest prefix that fits: longer prefixes do not, shorter ones do. */
  lemma EmittedIsLongest(os: seq<DhcpOption>, k: nat)
    requires k <= |os|
    ensures FitsWire(os[..k]) <==> k <= |Emitted(os)|
  {
    assert os[..0] == [];
    var n := EmittedFrom(os, 0);
    if k <= n {
      PrefixSize(os[..n], k);
      assert os[..n][..k] == os[..k];
    } else {
      PrefixSize(os[..k], n + 1);
      assert os[..k][..n + 1] == os[..n + 1];
    }
  }

  /** Every payload fits its length octet. */
  predicate Short(os: seq<DhcpOption>) {
    forall i :: 0 <= i < |os| ==> |Data(os[i])| < 256
  }

  lemma FitIsShort(os: seq<DhcpOption>)
    requires FitsWire(os)
    ensures Short(os)
  {
    forall i | 0 <= i < |os|
      ensures |Data(os[i])| < 256
    {
      PrefixSize(os, i);
    }
  }

  function OptionsBytes(os: seq<DhcpOption>): (s: seq<byte>)
    requires Short(os)
    ensures |s| == Size(os)
  {
    if os == [] then [] else OptionBytes(os[0]) + OptionsBytes(os[1..])
  }

  /** The octets sent. */
  function Wire(p: Packet): (s: seq<byte>)
    ensures HEADER_LEN < |s| <= WIRE_MAX
  {
    FitIsShort(Emitted(p.options));
    Header(p) + OptionsBytes(Emitted(p.options)) + [END]
  }

  // ----- What a message means -----

  /** The address an option payload starts with, if it is long enough. */
  function AddrOf(data: seq<byte>): Result<Ip4, DecodeError> {
    if |data| < 4 then Err(InvalidHlen) else Ok(U32Of(data[..4]))
  }

  function OptionOf(code: byte, data: seq<byte>): Result<DhcpOption, DecodeError> {
    if code == DHCP_MESSAGE_TYPE then
      if data == [] then Err(InvalidHlen)
      else if IsType(data[0]) then Ok(DhcpMessageType(TypeFrom(data[0])))
      else Err(UnrecognizedMessageType)
    else if code == PARAMETER_REQUEST_LIST then Ok(ParameterRequestList(data))
    else if code == SERVER_IDENTIFIER then
      (match AddrOf(data) case Ok(a) => Ok(ServerIdentifier(a)) case Err(e) => Err(e))
    else if code == REQUESTED_IP_ADDRESS then
      (match AddrOf(data) case Ok(a) => Ok(RequestedIpAddress(a)) case Err(e) => Err(e))
    else if code == HOST_NAME then if ValidUtf8(data) then Ok(HostName(data)) else Err(NonUtf8String)
    else if code == ROUTER || code == DOMAIN_NAME_SERVER then Err(InvalidHlen)
    else if code == IP_ADDRESS_LEASE_TIME then
      (match AddrOf(data) case Ok(a) => Ok(IpAddressLeaseTime(a)) case Err(e) => Err(e))
    else if code == SUBNET_MASK then
      (match AddrOf(data) case Ok(a) => Ok(SubnetMask(a)) case Err(e) => Err(e))
    else if code == MESSAGE then if ValidUtf8(data) then Ok(Message(data)) else Err(NonUtf8String)
    else Ok(Unrecognized(RawOption(code, data)))
  }

  predicate AtEnd(rest: seq<byte>) {
    rest != [] && rest[0] == END
  }

  function FirstOption(input: seq<byte>): (r: Result<(seq<byte>, DhcpOption), DecodeError>)
    requires !AtEnd(input)
    ensures r.Ok? ==> |r.value.0| < |input|
  {
    if |input| < 2 then Err(InvalidHlen)
    else
      var len := input[1];
      if |input| - 2 < len then Err(InvalidHlen)
      else
        match OptionOf(input[0], input[2..2 + len])
        case Err(e) => Err(e)
        case Ok(o) => Ok((input[2 + len..], o))
  }

  /** Options up to the first failure or END, and what is left from there. */
  function ReadOptions(rest: seq<byte>): (r: (seq<DhcpOption>, seq<byte>))
    requires !AtEnd(rest)
    decreases |rest|
  {
    match FirstOption(rest)
    case Err(_) => ([], rest)
    case Ok((rest', o)) =>
      if AtEnd(rest') then ([o], rest')
      else var (os, left) := ReadOptions(rest'); ([o] + os, left)
  }

  function PacketOf(input: seq<byte>, os: seq<DhcpOption>): Packet
    requires |input| >= HEADER_LEN
  {
    Packet(
      input[0] == BOOT_REPLY, input[3], U32Of(input[4..8]), U16Of(input[8..10]), input[11] / 128 % 2 == 1,
      U32Of(input[12..16]), U32Of(input[16..20]), U32Of(input[20..24]), U32Of(input[24..28]), input[28..34],
      os)
  }

  function Decoded(input: seq<byte>): Outcome {
    if |input| < 236 || input[2] != 6 then Rejected(InvalidHlen)
    else if |input| < HEADER_LEN || input[236..240] != Cookie() then Rejected(BadCookie)
    else if AtEnd(input[240..]) then Aborted
    else
      var (os, left) := ReadOptions(input[240..]);
      if left == [] then Aborted else Parsed(PacketOf(input, os))
  }

  // ----- Round trip -----

  predicate Typed(code: byte) {
    code in {DHCP_MESSAGE_TYPE, PARAMETER_REQUEST_LIST, SERVER_IDENTIFIER, REQUESTED_IP_ADDRESS, HOST_NAME, ROUTER,
             DOMAIN_NAME_SERVER, IP_ADDRESS_LEASE_TIME, SUBNET_MASK, MESSAGE}
  }

  /** No raw option in the place of a typed one or of END. */
  predicate Canonical(o: DhcpOption) {
    o.Unrecognized? ==> !Typed(o.raw.code) && o.raw.code != END
  }

  /** The options the decoder refuses. */
  predicate Refused(o: DhcpOption) {
    o.Router? || o.DomainNameServer?
  }

  /** The part of a list before its first Router or DNS option. */
  function Readable(os: seq<DhcpOption>): seq<DhcpOption> {
    if os == [] || Refused(os[0]) then [] else [os[0]] + Readable(os[1..])
  }

  lemma OptionRoundTrip(o: DhcpOption)
    requires Canonical(o)
    ensures OptionOf(Code(o), Data(o)) == if Refused(o) then Err(InvalidHlen) else Ok(o)
  {
    hide BigEndian, AddrsData, ValidUtf8, AddrOf;
    match o
    case ServerIdentifier(a) => AddrRoundTrip(a);
    case RequestedIpAddress(a) => AddrRoundTrip(a);
    case SubnetMask(a) => AddrRoundTrip(a);
    case IpAddressLeaseTime(s) => AddrRoundTrip(s);
    case _ =>
  }

  lemma U32RoundTrip(n: u32)
    ensures U32Of(BigEndian(n, 4)) == n
  {
    DecodeEncode(n, 4);
    Widths();
  }

  lemma U16RoundTrip(n: u16)
    ensures U16Of(BigEndian(n, 2)) == n
  {
    DecodeEncode(n, 2);
    Widths();
  }

  lemma AddrRoundTrip(a: u32)
    ensures AddrOf(BigEndian(a, 4)) == Ok(a)
  {
    hide BigEndian, U32Of;
    assert BigEndian(a, 4)[..4] == BigEndian(a, 4);
    U32RoundTrip(a);
  }

  /** An option list followed by END reads back up to its first Router or DNS option. */
  lemma {:induction false} OptionsRoundTrip(os: seq<DhcpOption>)
    requires os != [] && Short(os) && forall i :: 0 <= i < |os| ==> Canonical(os[i])
    ensures var s := OptionsBytes(os) + [END];
            !AtEnd(s) && ReadOptions(s).0 == Readable(os) && ReadOptions(s).1 != []
  {
    var s := OptionsBytes(os) + [END];
    var rest := OptionsBytes(os[1..]) + [END];
    assert s == OptionBytes(os[0]) + rest;
    assert s[0] == Code(os[0]) && s[1] == |Data(os[0])|;
    assert s[2..2 + s[1]] == Data(os[0]) && s[2 + s[1]..] == rest;
    OptionRoundTrip(os[0]);
    if !Refused(os[0]) {
      if |os| > 1 {
        OptionsRoundTrip(os[1..]);
      } else {
        assert rest == [END];
      }
    }
  }

  lemma HeaderRoundTrip(p: Packet, tail: seq<byte>, os: seq<DhcpOption>)
    ensures var s := Header(p) + tail;
            s[2] == 6 && s[236..240] == Cookie() && s[240..] == tail
            && PacketOf(s, os) == p.(broadcast := false, options := os)
  {
    var s := Header(p) + tail;
    var h := FixedHeader(p);
    hide BigEndian, U32Of, U16Of;
    assert s[..34] == h;
    assert s[4..8] == h[4..8] == BigEndian(p.xid, 4);
    assert s[8..10] == h[8..10] == BigEndian(p.secs, 2);
    assert s[12..16] == h[12..16] == BigEndian(p.ciaddr, 4);
    assert s[16..20] == h[16..20] == BigEndian(p.yiaddr, 4);
    assert s[20..24] == h[20..24] == BigEndian(p.siaddr, 4);
    assert s[24..28] == h[24..28] == BigEndian(p.giaddr, 4);
    assert s[28..34] == h[28..34] == p.chaddr;
    U32RoundTrip(p.xid);
    U16RoundTrip(p.secs);
    U32RoundTrip(p.ciaddr);
    U32RoundTrip(p.yiaddr);
    U32RoundTrip(p.siaddr);
    U32RoundTrip(p.giaddr);
  }

  /**
   Decoding what was encoded gives back every header field except the broadcast flag, which
   always reads false, and the emitted options up to the first Router or DNS option.
   */
  lemma RoundTrip(p: Packet)
    requires forall i :: 0 <= i < |Emitted(p.options)| ==> Canonical(Emitted(p.options)[i])
    ensures Decoded(Wire(p)) ==
            if Emitted(p.options) == [] then Aborted
            else Parsed(p.(broadcast := false, options := Readable(Emitted(p.options))))
  {
    hide PacketOf, Header, ReadOptions, Readable, Emitted, OptionsBytes;
    var os := Emitted(p.options);
    FitIsShort(os);
    var tail := OptionsBytes(os) + [END];
    assert Wire(p) == Header(p) + tail;
    HeaderRoundTrip(p, tail, Readable(os));
    if os != [] {
      OptionsRoundTrip(os);
    } else {
      NoOptions();
    }
  }

  lemma NoOptions()
    ensures OptionsBytes([]) == []
  {
  }

  // ----- What the decoder accepts -----

  lemma OptionIsCanonical(code: byte, data: seq<byte>)
    requires code != END && OptionOf(code, data).Ok?
    ensures Canonical(OptionOf(code, data).value) && !Refused(OptionOf(code, data).value)
  {
  }

  lemma FirstOptionParts(input: seq<byte>)
    requires !AtEnd(input) && FirstOption(input).Ok?
    ensures var (rest, o) := FirstOption(input).value;
            && Canonical(o) && !Refused(o)
            && rest == input[|input| - |rest|..]
  {
    OptionIsCanonical(input[0], input[2..2 + input[1]]);
  }

  /** Decoded options are canonical, and reading stops only at the end, at END or at a damaged option. */
  lemma {:induction false} ReadOptionsStop(rest: seq<byte>)
    requires !AtEnd(rest)
    ensures var (os, left) := ReadOptions(rest);
            && (forall i :: 0 <= i < |os| ==> Canonical(os[i]) && !Refused(os[i]))
            && |left| <= |rest| && left == rest[|rest| - |left|..]
            && (left == [] || AtEnd(left) || FirstOption(left).Err?)
            && (os == [] ==> left == rest)
    decreases |rest|
  {
    hide FirstOption, Canonical, Refused;
    if FirstOption(rest).Ok? {
      FirstOptionParts(rest);
      var (rest', o) := FirstOption(rest).value;
      if !AtEnd(rest') {
        ReadOptionsStop(rest');
        var left := ReadOptions(rest').1;
        assert rest'[|rest'| - |left|..] == rest[|rest| - |left|..];
      }
    }
  }

  // ----- Where the decoder stops the program -----

  /** What the decoder asks of the payload of each option. */
  predicate GoodPayload(code: byte, data: seq<byte>) {
    if code == 53 then data != [] && 1 <= data[0] <= 8
    else if code == 54 || code == 50 || code == 51 || code == 1 then |data| >= 4
    else if code == 12 || code == 56 then ValidUtf8(data)
    else code != 3 && code != 6
  }

  /** One whole option: code, length octet, and a payload of that length that the decoder takes. */
  predicate WellFormed(tlv: seq<byte>) {
    |tlv| >= 2 && tlv[0] != END && tlv[1] == |tlv| - 2 && GoodPayload(tlv[0], tlv[2..])
  }

  function Joined(parts: seq<seq<byte>>): seq<byte> {
    if parts == [] then [] else parts[0] + Joined(parts[1..])
  }

  /** `area` is nothing but the options `parts`: no END, no damage. */
  ghost predicate Tlvs(area: seq<byte>, parts: seq<seq<byte>>) {
    area == Joined(parts) && forall i :: 0 <= i < |parts| ==> WellFormed(parts[i])
  }

  lemma FirstOptionIff(input: seq<byte>)
    requires !AtEnd(input)
    ensures FirstOption(input).Ok? <==> |input| >= 2 && |input| - 2 >= input[1] && WellFormed(input[..2 + input[1]])
    ensures FirstOption(input).Ok? ==> FirstOption(input).value.0 == input[2 + input[1]..]
  {
    if |input| >= 2 && |input| - 2 >= input[1] {
      assert input[..2 + input[1]][2..] == input[2..2 + input[1]];
    }
  }

  /** Reading uses up the whole area iff the area is a run of well-formed options. */
  lemma {:induction false} ReadsAllIff(area: seq<byte>)
    requires !AtEnd(area)
    ensures ReadOptions(area).1 == [] <==> exists parts :: Tlvs(area, parts)
    decreases |area|
  {
    hide WellFormed, FirstOption;
    FirstOptionIff(area);
    if parts :| Tlvs(area, parts) && parts != [] {
      SplitFirst(area, parts);
    }
    if FirstOption(area).Ok? {
      var len: nat := area[1];
      var n := 2 + len;
      var rest := area[n..];
      if !AtEnd(rest) {
        ReadsAllIff(rest);
        if parts :| Tlvs(rest, parts) {
          assert area == area[..n] + rest;
          assert ([area[..n]] + parts)[1..] == parts;
          assert Tlvs(area, [area[..n]] + parts);
        }
      }
    } else if area == [] {
      assert Tlvs(area, []);
    }
  }

  lemma SplitFirst(area: seq<byte>, parts: seq<seq<byte>>)
    requires Tlvs(area, parts) && parts != []
    ensures |area| >= 2 && |area| - 2 >= area[1] && area[..2 + area[1]] == parts[0] && WellFormed(parts[0])
    ensures Tlvs(area[2 + area[1]..], parts[1..]) && !AtEnd(area[2 + area[1]..])
  {
    assert WellFormed(parts[0]);
    assert area[1] == parts[0][1];
    assert area[2 + area[1]..] == Joined(parts[1..]);
    if |parts| > 1 {
      assert WellFormed(parts[1]);
    }
  }

  /** A message that gets as far as its options. */
  predicate Headed(input: seq<byte>) {
    |input| >= HEADER_LEN && input[2] == 6 && input[236..240] == Cookie()
  }

  /**
   The exact condition: decoding stops the program iff the header is good and the option area
   starts with END, or consists of well-formed options with nothing behind them.
   */
  lemma AbortedIff(input: seq<byte>)
    ensures Decoded(input).Aborted? <==>
            Headed(input) && (AtEnd(input[240..]) || exists parts :: Tlvs(input[240..], parts))
  {
    hide PacketOf, ReadOptions, AtEnd, Tlvs, Cookie;
    if Headed(input) && !AtEnd(input[240..]) {
      ReadsAllIff(input[240..]);
    }
  }

  /** A good header with no options at all stops the program. */
  lemma BareHeaderAborts(input: seq<byte>)
    requires Headed(input) && |input| == HEADER_LEN
    ensures Decoded(input) == Aborted
  {
    AbortedIff(input);
    assert input[240..] == [];
    assert Tlvs(input[240..], []);
  }

  lemma {:induction false} ReadableIsAll(os: seq<DhcpOption>)
    ensures Readable(os) <= os
    ensures Readable(os) == os <==> forall i :: 0 <= i < |os| ==> !Refused(os[i])
  {
    if os != [] && !Refused(os[0]) {
      ReadableIsAll(os[1..]);
      assert os == [os[0]] + os[1..];
      if forall i :: 0 <= i < |os[1..]| ==> !Refused(os[1..][i]) {
        assert forall i :: 1 <= i < |os| ==> os[i] == os[1..][i - 1];
      } else {
        var i :| 0 <= i < |os[1..]| && Refused(os[1..][i]);
        assert Refused(os[i + 1]);
      }
    }
  }

  /** What the wire carries without loss. */
  predicate Faithful(p: Packet) {
    && !p.broadcast
    && p.options != [] && FitsWire(p.options)
    && forall i :: 0 <= i < |p.options| ==> Canonical(p.options[i]) && !Refused(p.options[i])
  }

  lemma DecodedOptions(p: Packet)
    requires Decoded(Wire(p)) == Parsed(p)
    ensures forall i :: 0 <= i < |p.options| ==> Canonical(p.options[i]) && !Refused(p.options[i])
  {
    hide Wire, PacketOf;
    ReadOptionsStop(Wire(p)[240..]);
    assert PacketOf(Wire(p), ReadOptions(Wire(p)[240..]).0).options == p.options by {
      PacketOfOptions(Wire(p), ReadOptions(Wire(p)[240..]).0);
    }
    PacketOfOptions(Wire(p), ReadOptions(Wire(p)[240..]).0);
  }

  lemma PacketOfOptions(input: seq<byte>, os: seq<DhcpOption>)
    requires |input| >= HEADER_LEN
    ensures PacketOf(input, os).options == os
  {
  }

  /** The exact condition: a packet survives the wire iff it is faithful. */
  lemma RoundTripExact(p: Packet)
    ensures Decoded(Wire(p)) == Parsed(p) <==> Faithful(p)
  {
    hide Wire, Decoded, Emitted, Readable, FitsWire, Canonical, Refused;
    var e := Emitted(p.options);
    EmittedIsLongest(p.options, |p.options|);
    assert p.options[..|p.options|] == p.options;
    if Faithful(p) {
      assert e == p.options;
      RoundTrip(p);
      ReadableIsAll(e);
    } else if Decoded(Wire(p)) == Parsed(p) {
      DecodedOptions(p);
      assert forall i :: 0 <= i < |e| ==> e[i] == p.options[i];
      RoundTrip(p);
      ReadableIsAll(e);
    }
  }

  // ----- The loops -----

  /** Extend the header octets written so far; the octets after the header stay. */
  method CopyHeader(p: array<byte>, at: nat, s: seq<byte>)
    requires at + |s| <= HEADER_LEN <= p.Length
    modifies p
    ensures p[..at + |s|] == old(p[..at]) + s
    ensures p[HEADER_LEN..] == old(p[HEADER_LEN..])
  {
    ghost var before := p[..];
    CopyAt(p, at, s);
    Tails(p[..], before, at + |s|, HEADER_LEN);
  }

  method WriteHeader(pkt: Packet, p: array<byte>)
    requires p.Length >= HEADER_LEN
    modifies p
    ensures p[..HEADER_LEN] == Header(pkt) && p[HEADER_LEN..] == old(p[HEADER_LEN..])
  {
    hide BigEndian;
    var first := [if pkt.reply then BOOT_REPLY else BOOT_REQUEST, 1, 6, pkt.hops]
               + BigEndian(pkt.xid, 4) + BigEndian(pkt.secs, 2) + [if pkt.broadcast then 128 else 0, 0];
    CopyHeader(p, 0, first);
    CopyHeader(p, 12, BigEndian(pkt.ciaddr, 4));
    CopyHeader(p, 16, BigEndian(pkt.yiaddr, 4));
    CopyHeader(p, 20, BigEndian(pkt.siaddr, 4));
    CopyHeader(p, 24, BigEndian(pkt.giaddr, 4));
    CopyHeader(p, 28, pkt.chaddr);
    assert p[..34] == FixedHeader(pkt);
    CopyHeader(p, 34, Zeros(202));
    CopyHeader(p, 236, Cookie());
  }

  lemma {:induction false} AppendOption(os: seq<DhcpOption>, o: DhcpOption)
    requires Short(os) && |Data(o)| < 256
    ensures Short(os + [o]) && OptionsBytes(os + [o]) == OptionsBytes(os) + OptionBytes(o)
  {
    hide Data;
    if os != [] {
      assert (os + [o])[1..] == os[1..] + [o];
      AppendOption(os[1..], o);
      assert forall i :: 0 <= i < |os| ==> (os + [o])[i] == os[i];
      Associates(OptionBytes(os[0]), OptionsBytes(os[1..]), OptionBytes(o));
    } else {
      assert OptionsBytes([o]) == OptionBytes(o) + OptionsBytes([]);
    }
  }

  lemma Associates(a: seq<byte>, b: seq<byte>, c: seq<byte>)
    ensures a + (b + c) == a + b + c
  {
  }

  /** Where the writing loop stands after `k` options. */
  ghost predicate Written(pkt: Packet, k: nat, sent: seq<byte>) {
    && k <= |pkt.options| && FitsWire(pkt.options[..k]) && Short(pkt.options[..k])
    && sent == Header(pkt) + OptionsBytes(pkt.options[..k])
  }

  lemma WritingStarts(pkt: Packet)
    ensures Written(pkt, 0, Header(pkt))
  {
    assert pkt.options[..0] == [];
  }

  lemma WritingContinues(pkt: Packet, k: nat, sent: seq<byte>)
    requires k < |pkt.options| && Written(pkt, k, sent)
    ensures var o := pkt.options[k];
            FitsWire(pkt.options[..k + 1]) <==> |sent| + 2 + |Data(o)| < WIRE_MAX
    ensures var o := pkt.options[k];
            |sent| + 2 + |Data(o)| < WIRE_MAX ==> |Data(o)| < 256 && Written(pkt, k + 1, sent + OptionBytes(o))
  {
    hide Data, Header, OptionBytes, Size, OptionsBytes, Short;
    var o := pkt.options[k];
    PrefixSize(pkt.options, k);
    assert pkt.options[..k + 1] == pkt.options[..k] + [o];
    if |sent| + 2 + |Data(o)| < WIRE_MAX {
      AppendOption(pkt.options[..k], o);
      Associates(Header(pkt), OptionsBytes(pkt.options[..k]), OptionBytes(o));
    }
  }

  lemma WritingEnds(pkt: Packet, k: nat, sent: seq<byte>)
    requires Written(pkt, k, sent) && (k < |pkt.options| ==> !FitsWire(pkt.options[..k + 1]))
    ensures sent + [END] == Wire(pkt) && |sent| < WIRE_MAX
  {
    EmittedIsLongest(pkt.options, k);
    if k < |pkt.options| {
      EmittedIsLongest(pkt.options, k + 1);
    }
    assert Emitted(pkt.options) == pkt.options[..k];
  }

  /**
   Encode into a buffer of at least WIRE_MAX octets: the message, END included, then padding up
   to WIRE_MAX; octets beyond stay. The length of the message.
   */
  method Encode(pkt: Packet, p: array<byte>) returns (length: nat)
    requires p.Length >= WIRE_MAX
    modifies p
    ensures length <= WIRE_MAX && p[..length] == Wire(pkt)
    ensures forall i :: length <= i < WIRE_MAX ==> p[i] == PAD
    ensures p[WIRE_MAX..] == old(p[WIRE_MAX..])
  {
    hide Written, Wire, Header, FitsWire;
    WriteHeader(pkt, p);
    length := HEADER_LEN;
    WritingStarts(pkt);
    assert p[HEADER_LEN..][60..] == p[WIRE_MAX..] && old(p[HEADER_LEN..])[60..] == old(p[WIRE_MAX..]);
    var k := 0;
    while k < |pkt.options|
      invariant k <= |pkt.options| && length < WIRE_MAX
      invariant Written(pkt, k, p[..length])
      invariant p[WIRE_MAX..] == old(p[WIRE_MAX..])
    {
      var o := pkt.options[k];
      WritingContinues(pkt, k, p[..length]);
      if length + 2 + DataLen(o) >= WIRE_MAX {
        break;
      }
      WriteOption(o, p, length);
      length := length + 2 + DataLen(o);
      k := k + 1;
    }
    WritingEnds(pkt, k, p[..length]);
    p[length] := END;
    length := length + 1;
    forall i | length <= i < WIRE_MAX {
      p[i] := PAD;
    }
  }

  method WriteOption(o: DhcpOption, p: array<byte>, at: nat)
    requires |Data(o)| < 256 && at + 2 + |Data(o)| < WIRE_MAX <= p.Length
    modifies p
    ensures p[..at + 2 + |Data(o)|] == old(p[..at]) + OptionBytes(o)
    ensures p[WIRE_MAX..] == old(p[WIRE_MAX..])
  {
    hide Data;
    p[at] := Code(o);
    p[at + 1] := DataLen(o);
    assert p[..at + 2] == old(p[..at]) + [Code(o), |Data(o)|];
    ghost var before := p[..];
    var n := WriteData(o, p, at + 2);
    Tails(p[..], before, at + 2 + n, WIRE_MAX);
  }

  lemma Tails(b: seq<byte>, a: seq<byte>, from: nat, to: nat)
    requires from <= to <= |a| == |b| && b[from..] == a[from..]
    ensures b[to..] == a[to..]
  {
    assert b[to..] == b[from..][to - from..] && a[to..] == a[from..][to - from..];
  }

  lemma Unread(rest: seq<byte>)
    requires !AtEnd(rest)
    ensures ReadOptions(rest) == ([] + ReadOptions(rest).0, ReadOptions(rest).1)
  {
    var (os, left) := ReadOptions(rest);
    assert [] + os == os;
  }

  method Decode(input: seq<byte>) returns (r: Outcome)
    ensures r == Decoded(input)
  {
    if |input| < 236 || input[2] != 6 {
      return Rejected(InvalidHlen);
    }
    if |input| < HEADER_LEN || input[236..240] != Cookie() {
      return Rejected(BadCookie);
    }
    var rest, options := input[240..], [];
    if AtEnd(rest) {
      return Aborted;
    }
    var reading := true;
    Unread(input[240..]);
    while reading
      invariant reading ==> !AtEnd(rest)
      invariant ReadOptions(input[240..]) ==
                if reading then (options + ReadOptions(rest).0, ReadOptions(rest).1) else (options, rest)
      decreases if reading then |rest| + 1 else 0
    {
      match FirstOption(rest) {
        case Err(_) =>
          assert options + [] == options;
          reading := false;
        case Ok((newRest, option)) =>
          assert options + ([option] + ReadOptions(rest).0[1..]) == options + [option] + ReadOptions(rest).0[1..];
          rest, options := newRest, options + [option];
          reading := !AtEnd(rest);
      }
    }
    if rest == [] {
      return Aborted;
    }
    r := Parsed(PacketOf(input, options));
  }

  // ----- Accessors -----

  function FirstWithCode(os: seq<DhcpOption>, code: byte): Option<DhcpOption> {
    if os == [] then None
    else if Code(os[0]) == code then Some(os[0])
    else FirstWithCode(os[1..], code)
  }

  /** Position `i` is the first with this code. */
  predicate FirstAt(os: seq<DhcpOption>, code: byte, i: nat) {
    i < |os| && Code(os[i]) == code && forall k :: 0 <= k < i ==> Code(os[k]) != code
  }

  /** `o` is the first option with this code. */
  ghost predicate IsFirst(os: seq<DhcpOption>, code: byte, o: DhcpOption) {
    exists i: nat :: FirstAt(os, code, i) && os[i] == o
  }

  predicate Lacks(os: seq<DhcpOption>, code: byte) {
    forall i :: 0 <= i < |os| ==> Code(os[i]) != code
  }

  /** A lookup finds the first option with the code, wherever it stands, and nothing iff there is none. */
  lemma LookupIff(os: seq<DhcpOption>, code: byte)
    ensures FirstWithCode(os, code) == None <==> Lacks(os, code)
    ensures forall o :: FirstWithCode(os, code) == Some(o) <==> IsFirst(os, code, o)
  {
    hide Code, FirstWithCode;
    if i: nat :| FirstAt(os, code, i) {
      LookupAt(os, code, i);
      assert IsFirst(os, code, os[i]);
      forall j: nat | FirstAt(os, code, j)
        ensures j == i
      {
      }
    } else {
      NowhereFirst(os, code);
      LookupNone(os, code);
    }
  }

  lemma {:induction false} LookupAt(os: seq<DhcpOption>, code: byte, i: nat)
    requires FirstAt(os, code, i)
    ensures FirstWithCode(os, code) == Some(os[i])
  {
    if i > 0 {
      LookupAt(os[1..], code, i - 1);
    }
  }

  lemma {:induction false} LookupNone(os: seq<DhcpOption>, code: byte)
    requires Lacks(os, code)
    ensures FirstWithCode(os, code) == None
  {
    if os != [] {
      LookupNone(os[1..], code);
    }
  }

  lemma {:induction false} NowhereFirst(os: seq<DhcpOption>, code: byte)
    requires forall i: nat :: !FirstAt(os, code, i)
    ensures Lacks(os, code)
  {
    if os != [] {
      var n := |os| - 1;
      var front := os[..n];
      if i: nat :| FirstAt(front, code, i) {
        assert FirstAt(os, code, i);
      }
      NowhereFirst(front, code);
      assert forall k :: 0 <= k < n ==> os[k] == front[k];
      assert !FirstAt(os, code, n);
    }
  }

  /** The message type, from the first option with its code; None if that is missing or raw. */
  function TypeOf(os: seq<DhcpOption>): Option<MessageType> {
    match FirstWithCode(os, DHCP_MESSAGE_TYPE)
    case Some(DhcpMessageType(m)) => Some(m)
    case _ => None
  }

  /** The first option with code 53 decides the type of a message. */
  lemma TypeIff(os: seq<DhcpOption>, m: MessageType)
    ensures TypeOf(os) == Some(m) <==> IsFirst(os, 53, DhcpMessageType(m))
  {
    hide FirstWithCode, IsFirst;
    LookupIff(os, 53);
  }
}
