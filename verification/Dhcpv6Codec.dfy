/**
 The DHCPv6 wire format (sections 8, 21.1, 21.4, 21.6 and 21.13 of RFC 8415): options are a
 two-octet code, a two-octet length and the payload, strictly framed; IA_NA nests IA Address
 sub-options. Decoding is specified by recursive functions on the datagram, encoding by the
 concatenation of the option encodings; the loops are proved against these.
 */
module Dhcpv6Codec {
  import opened Wrappers
  import opened Bytes
  import opened Text

  datatype MsgType =
    | Solicit | Advertise | Request | Confirm | Renew | Rebind | Reply | Release | Decline
    | Reconfigure | InformationRequest | RelayForward | RelayReply

  datatype DecodeError = Truncated | BadMessageType(code: byte) | BadUtf8 | Malformed

  datatype EncodeError = OptionTooLarge

  datatype IaAddr = IaAddr(addr: u128, preferred: u32, valid: u32)

  datatype IaNa = IaNa(iaid: u32, t1: u32, t2: u32, addrs: seq<IaAddr>)

  datatype RawOption = RawOption(code: u16, data: seq<byte>)

  datatype Dhcpv6Option =
    | ClientId(duid: seq<byte>)
    | ServerId(duid: seq<byte>)
    | IaNaOption(ia: IaNa)
    | DnsServers(servers: seq<u128>)
    | StatusCode(status: u16, message: Utf8)
    | Unrecognized(raw: RawOption)

  datatype Packet = Packet(msgType: MsgType, transactionId: u32, options: seq<Dhcpv6Option>)

  const OPT_CLIENTID: u16 := 1
  const OPT_SERVERID: u16 := 2
  const OPT_IA_NA: u16 := 3
  const OPT_IAADDR: u16 := 5
  const OPT_STATUS_CODE: u16 := 13
  const OPT_RAPID_COMMIT: u16 := 14
  const OPT_DNS_SERVERS: u16 := 23

  const MAX_PAYLOAD: nat := 0xFFFF

  function MsgCode(m: MsgType): byte {
    match m
    case Solicit => 1 case Advertise => 2 case Request => 3 case Confirm => 4 case Renew => 5
    case Rebind => 6 case Reply => 7 case Release => 8 case Decline => 9 case Reconfigure => 10
    case InformationRequest => 11 case RelayForward => 12 case RelayReply => 13
  }

  function MsgTypeFrom(val: byte): Result<MsgType, DecodeError> {
    match val
    case 1 => Ok(Solicit) case 2 => Ok(Advertise) case 3 => Ok(Request) case 4 => Ok(Confirm)
    case 5 => Ok(Renew) case 6 => Ok(Rebind) case 7 => Ok(Reply) case 8 => Ok(Release)
    case 9 => Ok(Decline) case 10 => Ok(Reconfigure) case 11 => Ok(InformationRequest)
    case 12 => Ok(RelayForward) case 13 => Ok(RelayReply)
    case _ => Err(BadMessageType(val))
  }

  function Code(o: Dhcpv6Option): u16 {
    match o
    case ClientId(_) => OPT_CLIENTID
    case ServerId(_) => OPT_SERVERID
    case IaNaOption(_) => OPT_IA_NA
    case DnsServers(_) => OPT_DNS_SERVERS
    case StatusCode(_, _) => OPT_STATUS_CODE
    case Unrecognized(raw) => raw.code
  }

  predicate Typed(code: u16) {
    code in {OPT_CLIENTID, OPT_SERVERID, OPT_IA_NA, OPT_DNS_SERVERS, OPT_STATUS_CODE}
  }

  // ----- What goes on the wire -----

  function Tlv(code: u16, payload: seq<byte>): seq<byte> {
    BigEndian(code, 2) + BigEndian(|payload|, 2) + payload
  }

  function IaAddrBody(a: IaAddr): (s: seq<byte>)
    ensures |s| == 24
  {
    BigEndian(a.addr, 16) + BigEndian(a.preferred, 4) + BigEndian(a.valid, 4)
  }

  function IaAddrsBytes(addrs: seq<IaAddr>): (s: seq<byte>)
    ensures |s| == 28 * |addrs|
  {
    if addrs == [] then [] else Tlv(OPT_IAADDR, IaAddrBody(addrs[0])) + IaAddrsBytes(addrs[1..])
  }

  function ServersBytes(servers: seq<u128>): (s: seq<byte>)
    ensures |s| == 16 * |servers|
  {
    if servers == [] then [] else BigEndian(servers[0], 16) + ServersBytes(servers[1..])
  }

  function IaHeader(ia: IaNa): (s: seq<byte>)
    ensures |s| == 12
  {
    BigEndian(ia.iaid, 4) + BigEndian(ia.t1, 4) + BigEndian(ia.t2, 4)
  }

  function Payload(o: Dhcpv6Option): seq<byte> {
    match o
    case ClientId(d) => d
    case ServerId(d) => d
    case IaNaOption(ia) => IaHeader(ia) + IaAddrsBytes(ia.addrs)
    case DnsServers(a) => ServersBytes(a)
    case StatusCode(c, m) => BigEndian(c, 2) + m
    case Unrecognized(raw) => raw.data
  }

  function OptionsBytes(os: seq<Dhcpv6Option>): seq<byte> {
    if os == [] then [] else Tlv(Code(os[0]), Payload(os[0])) + OptionsBytes(os[1..])
  }

  predicate Fits(os: seq<Dhcpv6Option>) {
    forall i :: 0 <= i < |os| ==> |Payload(os[i])| <= MAX_PAYLOAD
  }

  function Header(p: Packet): (s: seq<byte>)
    ensures |s| == 4
  {
    [MsgCode(p.msgType)] + BigEndian(p.transactionId, 3)
  }

  function Encoded(p: Packet): Result<seq<byte>, EncodeError> {
    if Fits(p.options) then Ok(Header(p) + OptionsBytes(p.options)) else Err(OptionTooLarge)
  }

  // ----- What a datagram means -----

  function SubOptions(rest: seq<byte>): Result<seq<IaAddr>, DecodeError>
    decreases |rest|
  {
    if rest == [] then Ok([])
    else if |rest| < 4 then Err(Malformed)
    else
      var slen := FromBigEndian(rest[2..4]);
      if |rest| - 4 < slen then Err(Malformed)
      else
        var body := rest[4..4 + slen];
        if FromBigEndian(rest[..2]) == OPT_IAADDR && slen < 24 then Err(Malformed)
        else
          match SubOptions(rest[4 + slen..])
          case Err(e) => Err(e)
          case Ok(addrs) => Ok(AddrIn(FromBigEndian(rest[..2]), body) + addrs)
  }

  /** The address a sub-option adds: none for unknown codes; octets past the 24th are ignored. */
  function AddrIn(code: nat, body: seq<byte>): seq<IaAddr>
    requires code == OPT_IAADDR ==> |body| >= 24
  {
    if code == OPT_IAADDR then [IaAddrOf(body)] else []
  }

  function U24Of(s: seq<byte>): (n: u32)
    requires |s| == 3
    ensures n < 0x100_0000
  {
    FromBigEndianBound(s);
    Widths();
    FromBigEndian(s)
  }

  function U128Of(s: seq<byte>): u128
    requires |s| == 16
  {
    FromBigEndianBound(s);
    Widths();
    FromBigEndian(s)
  }

  function IaAddrOf(body: seq<byte>): IaAddr
    requires |body| >= 24
  {
    IaAddr(U128Of(body[..16]), U32Of(body[16..20]), U32Of(body[20..24]))
  }

  function IaNaOf(data: seq<byte>): Result<IaNa, DecodeError> {
    if |data| < 12 then Err(Malformed)
    else
      match SubOptions(data[12..])
      case Err(e) => Err(e)
      case Ok(addrs) => Ok(IaNa(U32Of(data[..4]), U32Of(data[4..8]), U32Of(data[8..12]), addrs))
  }

  function ServersOf(data: seq<byte>): seq<u128>
    requires |data| % 16 == 0
  {
    if data == [] then [] else [U128Of(data[..16])] + ServersOf(data[16..])
  }

  function OptionOf(code: u16, data: seq<byte>): Result<Dhcpv6Option, DecodeError> {
    if code == OPT_CLIENTID then Ok(ClientId(data))
    else if code == OPT_SERVERID then Ok(ServerId(data))
    else if code == OPT_IA_NA then
      match IaNaOf(data)
      case Err(e) => Err(e)
      case Ok(ia) => Ok(IaNaOption(ia))
    else if code == OPT_DNS_SERVERS then
      if |data| % 16 != 0 then Err(Malformed) else Ok(DnsServers(ServersOf(data)))
    else if code == OPT_STATUS_CODE then
      if |data| < 2 then Err(Malformed)
      else if !ValidUtf8(data[2..]) then Err(BadUtf8)
      else Ok(StatusCode(U16Of(data[..2]), data[2..]))
    else Ok(Unrecognized(RawOption(code, data)))
  }

  /** The first option of `input` and what follows it. */
  function FirstOption(input: seq<byte>): (r: Result<(seq<byte>, Dhcpv6Option), DecodeError>)
    ensures r.Ok? ==> |r.value.0| < |input|
  {
    if |input| < 4 then Err(Truncated)
    else
      var len := U16Of(input[2..4]);
      if |input| - 4 < len then Err(Truncated)
      else
        match OptionOf(U16Of(input[..2]), input[4..4 + len])
        case Err(e) => Err(e)
        case Ok(o) => Ok((input[4 + len..], o))
  }

  function AllOptions(rest: seq<byte>): Result<seq<Dhcpv6Option>, DecodeError>
    decreases |rest|
  {
    if rest == [] then Ok([])
    else
      match FirstOption(rest)
      case Err(e) => Err(e)
      case Ok((rest', o)) =>
        match AllOptions(rest')
        case Err(e) => Err(e)
        case Ok(os) => Ok([o] + os)
  }

  function Decoded(input: seq<byte>): Result<Packet, DecodeError> {
    if |input| < 4 then Err(Truncated)
    else
      match MsgTypeFrom(input[0])
      case Err(e) => Err(e)
      case Ok(t) =>
        match AllOptions(input[4..])
        case Err(e) => Err(e)
        case Ok(os) => Ok(Packet(t, U24Of(input[1..4]), os))
  }

  // ----- Round trip -----

  /** An option the decoder can produce: no raw option in the place of a typed one. */
  predicate Canonical(o: Dhcpv6Option) {
    o.Unrecognized? ==> !Typed(o.raw.code)
  }

  lemma TlvParts(code: u16, payload: seq<byte>, rest: seq<byte>)
    requires |payload| <= MAX_PAYLOAD
    ensures var s := Tlv(code, payload) + rest;
            && |s| == 4 + |payload| + |rest|
            && FromBigEndian(s[..2]) == code
            && FromBigEndian(s[2..4]) == |payload|
            && s[4..4 + |payload|] == payload
            && s[4 + |payload|..] == rest
  {
    var s := Tlv(code, payload) + rest;
    assert s[..2] == BigEndian(code, 2);
    assert s[2..4] == BigEndian(|payload|, 2);
    DecodeEncode(code, 2);
    DecodeEncode(|payload|, 2);
    Widths();
  }

  lemma FieldRoundTrip(n: nat, width: nat)
    requires n < Power256(width)
    ensures FromBigEndian(BigEndian(n, width)) == n
  {
    DecodeEncode(n, width);
  }

  lemma IaAddrRoundTrip(a: IaAddr)
    ensures IaAddrOf(IaAddrBody(a)) == a
  {
    var s := IaAddrBody(a);
    Widths();
    assert s[..16] == BigEndian(a.addr, 16);
    assert s[16..20] == BigEndian(a.preferred, 4);
    assert s[20..24] == BigEndian(a.valid, 4);
    FieldRoundTrip(a.addr, 16);
    FieldRoundTrip(a.preferred, 4);
    FieldRoundTrip(a.valid, 4);
  }

  lemma {:induction false} SubOptionsRoundTrip(addrs: seq<IaAddr>)
    ensures SubOptions(IaAddrsBytes(addrs)) == Ok(addrs)
  {
    if addrs != [] {
      SubOptionsRoundTrip(addrs[1..]);
      TlvParts(OPT_IAADDR, IaAddrBody(addrs[0]), IaAddrsBytes(addrs[1..]));
      IaAddrRoundTrip(addrs[0]);
      assert [addrs[0]] + addrs[1..] == addrs;
    }
  }

  lemma IaNaRoundTrip(ia: IaNa)
    ensures IaNaOf(IaHeader(ia) + IaAddrsBytes(ia.addrs)) == Ok(ia)
  {
    var s := IaHeader(ia) + IaAddrsBytes(ia.addrs);
    Widths();
    assert s[..4] == BigEndian(ia.iaid, 4);
    assert s[4..8] == BigEndian(ia.t1, 4);
    assert s[8..12] == BigEndian(ia.t2, 4);
    assert s[12..] == IaAddrsBytes(ia.addrs);
    FieldRoundTrip(ia.iaid, 4);
    FieldRoundTrip(ia.t1, 4);
    FieldRoundTrip(ia.t2, 4);
    SubOptionsRoundTrip(ia.addrs);
  }

  lemma {:induction false} ServersRoundTrip(servers: seq<u128>)
    ensures ServersOf(ServersBytes(servers)) == servers
  {
    if servers != [] {
      var s := ServersBytes(servers);
      assert s[..16] == BigEndian(servers[0], 16);
      assert s[16..] == ServersBytes(servers[1..]);
      Widths();
      FieldRoundTrip(servers[0], 16);
      ServersRoundTrip(servers[1..]);
      assert [servers[0]] + servers[1..] == servers;
    }
  }

  lemma OptionRoundTrip(o: Dhcpv6Option)
    requires Canonical(o)
    ensures OptionOf(Code(o), Payload(o)) == Ok(o)
  {
    match o
    case IaNaOption(ia) => IaNaRoundTrip(ia);
    case DnsServers(a) => ServersRoundTrip(a);
    case StatusCode(c, m) =>
      var s := Payload(o);
      assert s[..2] == BigEndian(c, 2) && s[2..] == m;
      Widths();
      FieldRoundTrip(c, 2);
    case _ =>
  }

  lemma FirstOptionRoundTrip(o: Dhcpv6Option, rest: seq<byte>)
    requires Canonical(o) && |Payload(o)| <= MAX_PAYLOAD
    ensures FirstOption(Tlv(Code(o), Payload(o)) + rest) == Ok((rest, o))
  {
    TlvParts(Code(o), Payload(o), rest);
    OptionRoundTrip(o);
  }

  lemma {:induction false} OptionsRoundTrip(os: seq<Dhcpv6Option>)
    requires Fits(os) && forall i :: 0 <= i < |os| ==> Canonical(os[i])
    ensures AllOptions(OptionsBytes(os)) == Ok(os)
  {
    if os != [] {
      OptionsRoundTrip(os[1..]);
      FirstOptionRoundTrip(os[0], OptionsBytes(os[1..]));
      assert [os[0]] + os[1..] == os;
    }
  }

  /** What the wire can carry without loss. */
  predicate Encodable(p: Packet) {
    && p.transactionId < 0x100_0000
    && Fits(p.options)
    && forall i :: 0 <= i < |p.options| ==> Canonical(p.options[i])
  }

  lemma HeaderRoundTrip(p: Packet)
    requires p.transactionId < 0x100_0000
    ensures U24Of(Header(p)[1..4]) == p.transactionId && MsgTypeFrom(Header(p)[0]) == Ok(p.msgType)
  {
    assert Header(p)[1..4] == BigEndian(p.transactionId, 3);
    Widths();
    FieldRoundTrip(p.transactionId, 3);
  }

  lemma RoundTrip(p: Packet)
    requires Encodable(p)
    ensures Encoded(p).Ok? && Decoded(Encoded(p).value) == Ok(p)
  {
    hide AllOptions, OptionsBytes, Header;
    var s := Header(p) + OptionsBytes(p.options);
    assert s[4..] == OptionsBytes(p.options);
    assert s[1..4] == Header(p)[1..4] && s[0] == Header(p)[0];
    HeaderRoundTrip(p);
    OptionsRoundTrip(p.options);
  }

  // ----- Normalisation -----

  lemma {:induction false} SubOptionsShrink(rest: seq<byte>)
    requires SubOptions(rest).Ok?
    ensures 28 * |SubOptions(rest).value| <= |rest|
    decreases |rest|
  {
    if rest != [] {
      SubOptionsShrink(rest[4 + FromBigEndian(rest[2..4])..]);
    }
  }

  lemma {:induction false} ServersSize(data: seq<byte>)
    requires |data| % 16 == 0
    ensures 16 * |ServersOf(data)| == |data|
  {
    if data != [] {
      ServersSize(data[16..]);
    }
  }

  lemma OptionShrinks(code: u16, data: seq<byte>)
    requires OptionOf(code, data).Ok?
    ensures var o := OptionOf(code, data).value;
            Canonical(o) && Code(o) == code && |Payload(o)| <= |data|
  {
    if code == OPT_IA_NA {
      SubOptionsShrink(data[12..]);
    } else if code == OPT_DNS_SERVERS {
      ServersSize(data);
    }
  }

  lemma {:induction false} OptionsShrink(rest: seq<byte>)
    requires AllOptions(rest).Ok?
    ensures var os := AllOptions(rest).value;
            && Fits(os)
            && (forall i :: 0 <= i < |os| ==> Canonical(os[i]))
            && |OptionsBytes(os)| <= |rest|
    decreases |rest|
  {
    if rest != [] {
      var (rest', o) := FirstOption(rest).value;
      OptionShrinks(U16Of(rest[..2]), rest[4..4 + U16Of(rest[2..4])]);
      OptionsShrink(rest');
      var os := AllOptions(rest').value;
      assert ([o] + os)[0] == o && ([o] + os)[1..] == os;
    }
  }

  /**
   Every accepted datagram has an encodable meaning: encoding it again succeeds, gives no more
   octets than were received, and decodes to the same packet.
   */
  lemma Normalises(input: seq<byte>)
    requires Decoded(input).Ok?
    ensures var p := Decoded(input).value;
            && Encodable(p)
            && Encoded(p).Ok?
            && |Encoded(p).value| <= |input|
            && Decoded(Encoded(p).value) == Ok(p)
  {
    OptionsShrink(input[4..]);
    RoundTrip(Decoded(input).value);
  }

  // ----- What decoding loses -----

  lemma IaAddrBack(body: seq<byte>)
    requires |body| == 24
    ensures IaAddrBody(IaAddrOf(body)) == body
  {
    hide BigEndian, FromBigEndian;
    EncodeDecode(body[..16]);
    EncodeDecode(body[16..20]);
    EncodeDecode(body[20..24]);
    assert body == body[..16] + body[16..20] + body[20..24];
  }

  /** A type-length-value unit is put together again from its parts. */
  lemma TlvBack(input: seq<byte>, payload: seq<byte>)
    requires |input| >= 4 && input[4..] == payload && FromBigEndian(input[2..4]) == |payload|
    requires FromBigEndian(input[..2]) < 0x1_0000
    ensures Tlv(FromBigEndian(input[..2]), payload) == input
  {
    hide BigEndian, FromBigEndian;
    EncodeDecode(input[..2]);
    EncodeDecode(input[2..4]);
    assert input == input[..2] + input[2..4] + input[4..];
  }

  /** Where no octet is lost, the first sub-option is an address and nothing else. */
  lemma FirstIsAddress(rest: seq<byte>)
    requires SubOptions(rest).Ok? && 28 * |SubOptions(rest).value| == |rest| && rest != []
    ensures |rest| >= 28 && FromBigEndian(rest[..2]) == OPT_IAADDR && FromBigEndian(rest[2..4]) == 24
    ensures var tail := SubOptions(rest[28..]);
            && tail.Ok? && 28 * |tail.value| == |rest[28..]|
            && SubOptions(rest).value == [IaAddrOf(rest[4..28])] + tail.value
  {
    hide FromBigEndian, IaAddrOf;
    SubOptionsShrink(rest[4 + FromBigEndian(rest[2..4])..]);
  }

  lemma {:induction false} SubOptionsBack(rest: seq<byte>)
    requires SubOptions(rest).Ok? && 28 * |SubOptions(rest).value| == |rest|
    ensures IaAddrsBytes(SubOptions(rest).value) == rest
    decreases |rest|
  {
    hide BigEndian, FromBigEndian, IaAddrOf, IaAddrBody, Tlv, SubOptions;
    if rest == [] {
      NoSubOptions();
    } else {
      FirstIsAddress(rest);
      var unit, tail := rest[..28], rest[28..];
      SubOptionsBack(tail);
      IaAddrBack(rest[4..28]);
      assert unit[..2] == rest[..2] && unit[2..4] == rest[2..4] && unit[4..] == rest[4..28];
      TlvBack(unit, rest[4..28]);
      assert SubOptions(rest).value[1..] == SubOptions(tail).value;
      assert rest == unit + tail;
    }
  }

  lemma NoSubOptions()
    ensures SubOptions([]) == Ok([])
  {
  }

  lemma IaNaBack(data: seq<byte>)
    requires IaNaOf(data).Ok? && 12 + 28 * |IaNaOf(data).value.addrs| == |data|
    ensures var ia := IaNaOf(data).value; IaHeader(ia) + IaAddrsBytes(ia.addrs) == data
  {
    hide BigEndian, FromBigEndian, SubOptions, IaAddrsBytes;
    EncodeDecode(data[..4]);
    EncodeDecode(data[4..8]);
    EncodeDecode(data[8..12]);
    SubOptionsBack(data[12..]);
    assert data == data[..4] + data[4..8] + data[8..12] + data[12..];
  }

  lemma {:induction false} ServersBack(data: seq<byte>)
    requires |data| % 16 == 0
    ensures ServersBytes(ServersOf(data)) == data
  {
    hide BigEndian, FromBigEndian;
    if data != [] {
      EncodeDecode(data[..16]);
      ServersBack(data[16..]);
      assert ServersOf(data)[1..] == ServersOf(data[16..]);
      assert data == data[..16] + data[16..];
    }
  }

  /** A payload read without loss of octets is written back as it was. */
  lemma OptionBack(code: u16, data: seq<byte>)
    requires OptionOf(code, data).Ok? && |Payload(OptionOf(code, data).value)| == |data|
    ensures Payload(OptionOf(code, data).value) == data && Code(OptionOf(code, data).value) == code
  {
    hide BigEndian, FromBigEndian, ValidUtf8, ServersOf, ServersBytes, IaNaOf, IaAddrsBytes, IaHeader;
    if code == OPT_IA_NA {
      IaNaBack(data);
    } else if code == OPT_DNS_SERVERS {
      ServersBack(data);
    } else if code == OPT_STATUS_CODE {
      EncodeDecode(data[..2]);
      assert data == data[..2] + data[2..];
    }
  }

  lemma {:induction false} OptionsBack(rest: seq<byte>)
    requires AllOptions(rest).Ok? && |OptionsBytes(AllOptions(rest).value)| == |rest|
    ensures OptionsBytes(AllOptions(rest).value) == rest
    decreases |rest|
  {
    hide BigEndian, FromBigEndian, OptionOf, Payload, Code, Tlv;
    if rest != [] {
      var n := 4 + FromBigEndian(rest[2..4]);
      var code, data, tail := U16Of(rest[..2]), rest[4..n], rest[n..];
      var o, os := OptionOf(code, data).value, AllOptions(tail).value;
      assert ([o] + os)[0] == o && ([o] + os)[1..] == os;
      OptionShrinks(code, data);
      OptionsShrink(tail);
      TlvSize(Code(o), Payload(o));
      OptionBack(code, data);
      OptionsBack(tail);
      assert rest[..n][..2] == rest[..2] && rest[..n][2..4] == rest[2..4] && rest[..n][4..] == data;
      TlvBack(rest[..n], data);
      assert rest == rest[..n] + tail;
    }
  }

  lemma TlvSize(code: u16, payload: seq<byte>)
    ensures |Tlv(code, payload)| == 4 + |payload|
  {
  }

  /**
   The exact condition: encoding an accepted datagram again gives the same octets iff it gives as many,
   that is, unless an unknown IA_NA sub-option or octets behind an address were dropped.
   */
  lemma ReencodesIff(input: seq<byte>)
    requires Decoded(input).Ok?
    ensures var p := Decoded(input).value;
            Encoded(p) == Ok(input) <==> Encoded(p).Ok? && |Encoded(p).value| == |input|
  {
    hide BigEndian, FromBigEndian, AllOptions, OptionsBytes, Fits;
    var p := Decoded(input).value;
    if Encoded(p).Ok? && |Encoded(p).value| == |input| {
      OptionsBack(input[4..]);
      EncodeDecode(input[1..4]);
      assert Header(p) == [input[0]] + input[1..4];
      assert input == [input[0]] + input[1..4] + input[4..];
    }
  }

  /** The exact condition: a packet survives the wire iff it is encodable. */
  lemma RoundTripExact(p: Packet)
    ensures Encodable(p) <==> Encoded(p).Ok? && Decoded(Encoded(p).value) == Ok(p)
  {
    if Encodable(p) {
      RoundTrip(p);
    } else if Encoded(p).Ok? && Decoded(Encoded(p).value) == Ok(p) {
      Normalises(Encoded(p).value);
    }
  }

  // ----- The loops -----

  /** Wire length of an option without building it. */
  function WireLen(o: Dhcpv6Option): (n: nat)
    ensures n == |Tlv(Code(o), Payload(o))|
  {
    4 + match o
        case ClientId(d) => |d|
        case ServerId(d) => |d|
        case Unrecognized(raw) => |raw.data|
        case DnsServers(a) => |a| * 16
        case StatusCode(_, m) => 2 + |m|
        case IaNaOption(ia) => 12 + |ia.addrs| * 28
  }

  lemma {:induction false} AppendServer(servers: seq<u128>, last: u128)
    ensures ServersBytes(servers + [last]) == ServersBytes(servers) + BigEndian(last, 16)
  {
    if servers != [] {
      assert (servers + [last])[1..] == servers[1..] + [last];
      AppendServer(servers[1..], last);
    } else {
      assert ServersBytes([last]) == BigEndian(last, 16) + ServersBytes([]);
    }
  }

  lemma {:induction false} AppendIaAddr(addrs: seq<IaAddr>, last: IaAddr)
    ensures IaAddrsBytes(addrs + [last]) == IaAddrsBytes(addrs) + Tlv(OPT_IAADDR, IaAddrBody(last))
  {
    if addrs != [] {
      assert (addrs + [last])[1..] == addrs[1..] + [last];
      AppendIaAddr(addrs[1..], last);
    } else {
      assert IaAddrsBytes([last]) == Tlv(OPT_IAADDR, IaAddrBody(last)) + IaAddrsBytes([]);
    }
  }

  lemma {:induction false} AppendOption(os: seq<Dhcpv6Option>, last: Dhcpv6Option)
    ensures OptionsBytes(os + [last]) == OptionsBytes(os) + Tlv(Code(last), Payload(last))
  {
    if os != [] {
      assert (os + [last])[1..] == os[1..] + [last];
      AppendOption(os[1..], last);
    } else {
      assert OptionsBytes([last]) == Tlv(Code(last), Payload(last)) + OptionsBytes([]);
    }
  }

  method AppendServers(servers: seq<u128>, out: seq<byte>) returns (r: seq<byte>)
    ensures r == out + ServersBytes(servers)
  {
    r := out;
    for i := 0 to |servers|
      invariant r == out + ServersBytes(servers[..i])
    {
      AppendServer(servers[..i], servers[i]);
      assert servers[..i + 1] == servers[..i] + [servers[i]];
      r := r + BigEndian(servers[i], 16);
    }
    assert servers[..|servers|] == servers;
  }

  method AppendIaNa(ia: IaNa, out: seq<byte>) returns (r: seq<byte>)
    ensures r == out + IaHeader(ia) + IaAddrsBytes(ia.addrs)
  {
    hide BigEndian, IaAddrsBytes;
    r := out + BigEndian(ia.iaid, 4) + BigEndian(ia.t1, 4) + BigEndian(ia.t2, 4);
    Regroup(out, BigEndian(ia.iaid, 4), BigEndian(ia.t1, 4), BigEndian(ia.t2, 4));
    assert r == out + IaHeader(ia);
    ghost var head := r;
    NoAddrsYet(ia.addrs);
    for i := 0 to |ia.addrs|
      invariant r == head + IaAddrsBytes(ia.addrs[..i])
    {
      var a := ia.addrs[i];
      AppendIaAddr(ia.addrs[..i], a);
      assert ia.addrs[..i + 1] == ia.addrs[..i] + [a];
      r := r + IaAddrOption(a);
    }
    assert ia.addrs[..|ia.addrs|] == ia.addrs;
  }

  lemma NoAddrsYet(addrs: seq<IaAddr>)
    ensures IaAddrsBytes(addrs[..0]) == []
  {
  }

  /** The fixed 28 octets of one IA Address sub-option. */
  function IaAddrOption(a: IaAddr): (s: seq<byte>)
    ensures s == Tlv(OPT_IAADDR, IaAddrBody(a))
  {
    BigEndian(OPT_IAADDR, 2) + BigEndian(24, 2)
    + BigEndian(a.addr, 16) + BigEndian(a.preferred, 4) + BigEndian(a.valid, 4)
  }

  method ToRaw(o: Dhcpv6Option) returns (raw: RawOption)
    ensures raw == RawOption(Code(o), Payload(o))
  {
    match o {
      case ClientId(d) => raw := RawOption(OPT_CLIENTID, d);
      case ServerId(d) => raw := RawOption(OPT_SERVERID, d);
      case IaNaOption(ia) =>
        var data := AppendIaNa(ia, []);
        raw := RawOption(OPT_IA_NA, data);
      case DnsServers(a) =>
        var data := AppendServers(a, []);
        raw := RawOption(OPT_DNS_SERVERS, data);
      case StatusCode(c, m) => raw := RawOption(OPT_STATUS_CODE, BigEndian(c, 2) + m);
      case Unrecognized(x) => raw := x;
    }
  }

  lemma Regroup(out: seq<byte>, a: seq<byte>, b: seq<byte>, c: seq<byte>)
    ensures out + a + b + c == out + (a + b + c)
  {
  }

  /** Append one option to `out`; an oversized payload is refused before anything is written. */
  method EncodeInto(o: Dhcpv6Option, out: seq<byte>) returns (r: seq<byte>, ok: bool)
    ensures ok <==> |Payload(o)| <= MAX_PAYLOAD
    ensures r == if ok then out + Tlv(Code(o), Payload(o)) else out
  {
    hide BigEndian, IaHeader, IaAddrsBytes, ServersBytes, WireLen;
    var payload := WireLen(o) - 4;
    if payload > MAX_PAYLOAD {
      return out, false;
    }
    Regroup(out, BigEndian(Code(o), 2), BigEndian(payload, 2), Payload(o));
    r := out + BigEndian(Code(o), 2) + BigEndian(payload, 2);
    r := AppendPayload(o, r);
    ok := true;
  }

  method AppendPayload(o: Dhcpv6Option, out: seq<byte>) returns (r: seq<byte>)
    ensures r == out + Payload(o)
  {
    hide BigEndian, IaHeader, IaAddrsBytes, ServersBytes;
    match o {
      case ClientId(d) => r := out + d;
      case ServerId(d) => r := out + d;
      case Unrecognized(raw) => r := out + raw.data;
      case DnsServers(a) => r := AppendServers(a, out);
      case StatusCode(c, m) =>
        r := out + BigEndian(c, 2) + m;
        assert r == out + (BigEndian(c, 2) + m);
      case IaNaOption(ia) =>
        r := AppendIaNa(ia, out);
        assert r == out + (IaHeader(ia) + IaAddrsBytes(ia.addrs));
    }
  }

  lemma FitsOneMore(os: seq<Dhcpv6Option>, i: nat)
    requires i < |os| && Fits(os[..i])
    ensures |Payload(os[i])| <= MAX_PAYLOAD ==> Fits(os[..i + 1])
    ensures |Payload(os[i])| > MAX_PAYLOAD ==> !Fits(os)
    ensures OptionsBytes(os[..i + 1]) == OptionsBytes(os[..i]) + Tlv(Code(os[i]), Payload(os[i]))
  {
    AppendOption(os[..i], os[i]);
    assert os[..i + 1] == os[..i] + [os[i]];
  }

  method Encode(p: Packet) returns (r: Result<seq<byte>, EncodeError>)
    ensures r == Encoded(p)
  {
    hide OptionsBytes, Fits, Payload, Tlv, BigEndian;
    LowOctets(p.transactionId);
    var out := [MsgCode(p.msgType)] + BigEndian(p.transactionId % 0x100_0000, 3);
    NothingYet(p, out);
    for i := 0 to |p.options|
      invariant Fits(p.options[..i])
      invariant out == Header(p) + OptionsBytes(p.options[..i])
    {
      FitsOneMore(p.options, i);
      var ok;
      out, ok := EncodeInto(p.options[i], out);
      if !ok {
        return Err(OptionTooLarge);
      }
    }
    assert p.options[..|p.options|] == p.options;
    r := Ok(out);
  }

  lemma NothingYet(p: Packet, out: seq<byte>)
    requires out == Header(p)
    ensures Fits(p.options[..0]) && out == Header(p) + OptionsBytes(p.options[..0])
  {
  }

  /** The transaction id is cut to its low 24 bits. */
  lemma LowOctets(t: u32)
    ensures BigEndian(t % 0x100_0000, 3) == BigEndian(t, 3)
  {
    var u := t % 0x100_0000;
    var k := t / 0x100_0000;
    assert t == k * 0x100_0000 + u;
    assert t / 256 == k * 0x1_0000 + u / 256 && t % 256 == u % 256;
    assert t / 256 / 256 == k * 256 + u / 256 / 256 && t / 256 % 256 == u / 256 % 256;
    assert t / 256 / 256 % 256 == u / 256 / 256 % 256;
    ThreeOctets(t);
    ThreeOctets(u);
  }

  lemma ThreeOctets(n: nat)
    ensures BigEndian(n, 3) == [n / 256 / 256 % 256, n / 256 % 256, n % 256]
  {
    assert BigEndian(n / 256 / 256, 1) == [n / 256 / 256 % 256];
    assert BigEndian(n / 256, 2) == [n / 256 / 256 % 256, n / 256 % 256];
  }

  /** The outcome of a loop that has already read `front`. */
  ghost function Prefixed<T>(front: seq<T>, r: Result<seq<T>, DecodeError>): Result<seq<T>, DecodeError> {
    match r
    case Err(e) => Err(e)
    case Ok(more) => Ok(front + more)
  }

  lemma PrefixedSteps<T>(front: seq<T>, next: seq<T>, r: Result<seq<T>, DecodeError>)
    ensures Prefixed([], r) == r
    ensures Prefixed(front, Prefixed(next, r)) == Prefixed(front + next, r)
  {
    if r.Ok? {
      assert [] + r.value == r.value;
      assert front + (next + r.value) == front + next + r.value;
    }
  }

  method DecodeIana(data: seq<byte>) returns (r: Result<IaNa, DecodeError>)
    ensures r == IaNaOf(data)
  {
    if |data| < 12 {
      return Err(Malformed);
    }
    var rest, addrs := data[12..], [];
    PrefixedSteps(addrs, addrs, SubOptions(rest));
    while rest != []
      invariant SubOptions(data[12..]) == Prefixed(addrs, SubOptions(rest))
      decreases |rest|
    {
      if |rest| < 4 {
        return Err(Malformed);
      }
      var slen := FromBigEndian(rest[2..4]);
      if |rest| - 4 < slen {
        return Err(Malformed);
      }
      var code, body := FromBigEndian(rest[..2]), rest[4..4 + slen];
      ghost var before := addrs;
      if code == OPT_IAADDR {
        if |body| < 24 {
          return Err(Malformed);
        }
        addrs := addrs + [IaAddrOf(body)];
      }
      PrefixedSteps(before, AddrIn(code, body), SubOptions(rest[4 + slen..]));
      assert addrs == before + AddrIn(code, body);
      rest := rest[4 + slen..];
    }
    assert addrs + [] == addrs;
    r := Ok(IaNa(U32Of(data[..4]), U32Of(data[4..8]), U32Of(data[8..12]), addrs));
  }

  method DecodeServers(data: seq<byte>) returns (servers: seq<u128>)
    requires |data| % 16 == 0
    ensures servers == ServersOf(data)
  {
    var rest := data;
    servers := [];
    while rest != []
      invariant |rest| % 16 == 0 && servers + ServersOf(rest) == ServersOf(data)
      decreases |rest|
    {
      servers := servers + [U128Of(rest[..16])];
      rest := rest[16..];
    }
  }

  method DecodeOption(input: seq<byte>) returns (r: Result<(seq<byte>, Dhcpv6Option), DecodeError>)
    ensures r == FirstOption(input)
  {
    if |input| < 4 {
      return Err(Truncated);
    }
    var code, len := U16Of(input[..2]), U16Of(input[2..4]);
    if |input| - 4 < len {
      return Err(Truncated);
    }
    var data, rest := input[4..4 + len], input[4 + len..];
    if code == OPT_IA_NA {
      var ia := DecodeIana(data);
      return match ia case Err(e) => Err(e) case Ok(v) => Ok((rest, IaNaOption(v)));
    }
    if code == OPT_DNS_SERVERS {
      if |data| % 16 != 0 {
        return Err(Malformed);
      }
      var servers := DecodeServers(data);
      return Ok((rest, DnsServers(servers)));
    }
    r := match OptionOf(code, data) case Err(e) => Err(e) case Ok(o) => Ok((rest, o));
  }

  method Decode(input: seq<byte>) returns (r: Result<Packet, DecodeError>)
    ensures r == Decoded(input)
  {
    if |input| < 4 {
      return Err(Truncated);
    }
    var msgType := MsgTypeFrom(input[0]);
    if msgType.Err? {
      return Err(msgType.error);
    }
    var rest, options := input[4..], [];
    PrefixedSteps(options, options, AllOptions(rest));
    while rest != []
      invariant AllOptions(input[4..]) == Prefixed(options, AllOptions(rest))
      decreases |rest|
    {
      var first := DecodeOption(rest);
      if first.Err? {
        return Err(first.error);
      }
      PrefixedSteps(options, [first.value.1], AllOptions(first.value.0));
      options := options + [first.value.1];
      rest := first.value.0;
    }
    assert options + [] == options;
    r := Ok(Packet(msgType.value, U24Of(input[1..4]), options));
  }

  // ----- Accessors -----

  function FirstWithCode(os: seq<Dhcpv6Option>, code: u16): Option<Dhcpv6Option> {
    if os == [] then None
    else if Code(os[0]) == code then Some(os[0])
    else FirstWithCode(os[1..], code)
  }

  function FirstIana(os: seq<Dhcpv6Option>): Option<IaNa> {
    if os == [] then None
    else if os[0].IaNaOption? then Some(os[0].ia)
    else FirstIana(os[1..])
  }

  /** Position `i` is the first with this code. */
  predicate FirstAt(os: seq<Dhcpv6Option>, code: u16, i: nat) {
    i < |os| && Code(os[i]) == code && forall k :: 0 <= k < i ==> Code(os[k]) != code
  }

  /** `o` is the first option with this code. */
  ghost predicate IsFirst(os: seq<Dhcpv6Option>, code: u16, o: Dhcpv6Option) {
    exists i: nat :: FirstAt(os, code, i) && os[i] == o
  }

  predicate Lacks(os: seq<Dhcpv6Option>, code: u16) {
    forall i :: 0 <= i < |os| ==> Code(os[i]) != code
  }

  /** A lookup finds the first option with the code, wherever it stands, and nothing iff there is none. */
  lemma LookupIff(os: seq<Dhcpv6Option>, code: u16)
    ensures FirstWithCode(os, code) == None <==> Lacks(os, code)
    ensures forall o :: FirstWithCode(os, code) == Some(o) <==> IsFirst(os, code, o)
  {
    hide Code, FirstWithCode;
    if i: nat :| FirstAt(os, code, i) {
      LookupAt(os, code, i);
      assert IsFirst(os, code, os[i]);
      forall j: nat | FirstAt(os, code, j)
        ensures j == i
      {
      }
    } else {
      NowhereFirst(os, code);
      LookupNone(os, code);
    }
  }

  lemma {:induction false} LookupAt(os: seq<Dhcpv6Option>, code: u16, i: nat)
    requires FirstAt(os, code, i)
    ensures FirstWithCode(os, code) == Some(os[i])
  {
    if i > 0 {
      LookupAt(os[1..], code, i - 1);
    }
  }

  lemma {:induction false} LookupNone(os: seq<Dhcpv6Option>, code: u16)
    requires Lacks(os, code)
    ensures FirstWithCode(os, code) == None
  {
    if os != [] {
      LookupNone(os[1..], code);
    }
  }

  lemma {:induction false} NowhereFirst(os: seq<Dhcpv6Option>, code: u16)
    requires forall i: nat :: !FirstAt(os, code, i)
    ensures Lacks(os, code)
  {
    if os != [] {
      var n := |os| - 1;
      var front := os[..n];
      if i: nat :| FirstAt(front, code, i) {
        assert FirstAt(os, code, i);
      }
      NowhereFirst(front, code);
      assert forall k :: 0 <= k < n ==> os[k] == front[k];
      assert !FirstAt(os, code, n);
    }
  }

  /** Among decoded options the first association is the first option with code 3. */
  lemma {:induction false} FirstIanaIff(os: seq<Dhcpv6Option>)
    requires forall i :: 0 <= i < |os| ==> Canonical(os[i])
    ensures FirstIana(os) == None <==> Lacks(os, 3)
    ensures forall ia :: FirstIana(os) == Some(ia) <==> FirstWithCode(os, 3) == Some(IaNaOption(ia))
  {
    if os != [] {
      FirstIanaIff(os[1..]);
      assert os[0].IaNaOption? <==> Code(os[0]) == 3;
    }
  }

  /** The packet carries exactly this server's DUID as its first Server Identifier. */
  predicate IsForServer(ourDuid: seq<byte>, p: Packet) {
    match FirstWithCode(p.options, OPT_SERVERID)
    case Some(ServerId(d)) => d == ourDuid
    case _ => false
  }

  /** A packet names a server iff its first Server Identifier is the server's DUID. */
  lemma IsForServerIff(ourDuid: seq<byte>, p: Packet)
    ensures IsForServer(ourDuid, p) <==> IsFirst(p.options, 2, ServerId(ourDuid))
  {
    hide FirstWithCode, IsFirst;
    LookupIff(p.options, 2);
  }
}
