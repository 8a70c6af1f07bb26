/**
 What the DHCPv4 decoder accepts, and what it makes of it, in terms of the octets received: the
 header at its fixed offsets, then a run of code, length and payload (section 2 of RFC 2132).
 */
module Dhcpv4Messages {
  import opened Bytes
  import opened Text
  import opened Dhcpv4Options
  import opened Dhcpv4Packet

  // ----- What the decoder makes of a message -----

  /** The option a well-formed unit stands for: addresses and the type are read off its first octets. */
  predicate Means(tlv: seq<byte>, o: DhcpOption)
    requires WellFormed(tlv)
  {
    var data := tlv[2..];
    match tlv[0]
    case 53 => 1 <= data[0] <= 8 && o == DhcpMessageType(Types()[data[0] - 1])
    case 54 => o == ServerIdentifier(U32Of(data[..4]))
    case 50 => o == RequestedIpAddress(U32Of(data[..4]))
    case 51 => o == IpAddressLeaseTime(U32Of(data[..4]))
    case 1 => o == SubnetMask(U32Of(data[..4]))
    case 55 => o == ParameterRequestList(data)
    case 12 => o.HostName? && o.name == data
    case 56 => o.Message? && o.text == data
    case code => o == Unrecognized(RawOption(code, data))
  }

  function Types(): seq<MessageType> {
    [Discover, Offer, Request, Decline, Ack, Nak, Release, Inform]
  }

  lemma OptionMeans(tlv: seq<byte>)
    requires WellFormed(tlv)
    ensures OptionOf(tlv[0], tlv[2..]).Ok? && Means(tlv, OptionOf(tlv[0], tlv[2..]).value)
  {
    hide ValidUtf8, U32Of;
  }

  /** No option can be read here: END, or damage. */
  ghost predicate Ends(rest: seq<byte>) {
    rest != [] && (AtEnd(rest) || forall n: nat :: n <= |rest| ==> !WellFormed(rest[..n]))
  }

  /** `area` starts with the options `parts`, does not start with END, and no option can be read at `rest`. */
  ghost predicate Splits(area: seq<byte>, parts: seq<seq<byte>>, rest: seq<byte>) {
    && area == Joined(parts) + rest && !AtEnd(area) && Ends(rest)
    && forall i :: 0 <= i < |parts| ==> WellFormed(parts[i])
  }

  predicate AllMean(parts: seq<seq<byte>>, os: seq<DhcpOption>) {
    |os| == |parts| && forall i :: 0 <= i < |parts| ==> WellFormed(parts[i]) && Means(parts[i], os[i])
  }

  lemma UnitAhead(tlv: seq<byte>, rest: seq<byte>)
    requires WellFormed(tlv)
    ensures !AtEnd(tlv + rest) && FirstOption(tlv + rest).Ok?
    ensures FirstOption(tlv + rest).value.0 == rest && Means(tlv, FirstOption(tlv + rest).value.1)
  {
    hide Means, OptionOf, GoodPayload;
    var input := tlv + rest;
    OptionMeans(tlv);
    assert input[2..2 + input[1]] == tlv[2..] && input[2 + input[1]..] == rest;
  }

  lemma NoUnitAhead(rest: seq<byte>)
    requires Ends(rest) && !AtEnd(rest)
    ensures FirstOption(rest).Err?
  {
    hide WellFormed;
    FirstOptionIff(rest);
  }

  /** Reading takes exactly the well-formed options in front, each for what it means. */
  lemma {:induction false} ReadsParts(area: seq<byte>, parts: seq<seq<byte>>, rest: seq<byte>)
    requires Splits(area, parts, rest)
    ensures ReadOptions(area).1 == rest && AllMean(parts, ReadOptions(area).0)
    decreases |parts|
  {
    hide WellFormed, FirstOption, Means;
    if parts == [] {
      assert area == rest;
      NoUnitAhead(rest);
    } else {
      var tail := Joined(parts[1..]) + rest;
      assert area == parts[0] + tail;
      UnitAhead(parts[0], tail);
      if AtEnd(tail) {
        EndsHere(parts[1..], rest);
      } else {
        ReadsParts(tail, parts[1..], rest);
        var os := ReadOptions(tail).0;
        assert ReadOptions(area).0 == [FirstOption(area).value.1] + os;
      }
    }
  }

  lemma StartsWithUnit(parts: seq<seq<byte>>, rest: seq<byte>)
    requires parts != [] && forall i :: 0 <= i < |parts| ==> WellFormed(parts[i])
    ensures !AtEnd(Joined(parts) + rest)
  {
    assert WellFormed(parts[0]);
    assert (Joined(parts) + rest)[0] == parts[0][0];
  }

  lemma EndsHere(parts: seq<seq<byte>>, rest: seq<byte>)
    requires AtEnd(Joined(parts) + rest) && forall i :: 0 <= i < |parts| ==> WellFormed(parts[i])
    ensures parts == [] && Joined(parts) + rest == rest
  {
    if parts != [] {
      StartsWithUnit(parts, rest);
    }
  }

  /** Whatever is left when reading stops, something was read in front of it. */
  lemma {:induction false} HasParts(area: seq<byte>) returns (parts: seq<seq<byte>>)
    requires !AtEnd(area) && ReadOptions(area).1 != []
    ensures Splits(area, parts, ReadOptions(area).1)
    decreases |area|
  {
    hide WellFormed, FirstOption;
    FirstOptionIff(area);
    if FirstOption(area).Err? {
      parts := [];
      DamagedEnds(area);
    } else {
      var len: nat := area[1];
      var unit, tail := area[..2 + len], area[2 + len..];
      assert area == unit + tail;
      if AtEnd(tail) {
        parts := [unit];
      } else {
        var more := HasParts(tail);
        parts := [unit] + more;
        assert parts[1..] == more;
      }
      assert parts[0] == unit;
      assert Joined(parts) + ReadOptions(area).1 == unit + (Joined(parts[1..]) + ReadOptions(area).1);
    }
  }

  lemma DamagedEnds(area: seq<byte>)
    requires !AtEnd(area) && area != [] && FirstOption(area).Err?
    ensures Ends(area)
  {
    hide FirstOption, WellFormed;
    FirstOptionIff(area);
    forall n: nat | n <= |area|
      ensures !WellFormed(area[..n])
    {
      UnitLength(area, n);
    }
  }

  lemma UnitLength(area: seq<byte>, n: nat)
    requires n <= |area|
    ensures WellFormed(area[..n]) ==> |area| >= 2 && area[1] == n - 2
  {
  }

  /** The exact condition: a message is rejected iff its header is not good; the two reasons. */
  lemma RejectedIff(input: seq<byte>)
    ensures Decoded(input).Rejected? <==> !Headed(input)
    ensures Decoded(input) == Rejected(InvalidHlen) <==> |input| < 236 || input[2] != 6
    ensures Decoded(input) == Rejected(BadCookie) <==>
            |input| >= 236 && input[2] == 6 && (|input| < 240 || input[236..240] != [99, 130, 83, 99])
  {
    hide PacketOf, ReadOptions, AtEnd;
  }

  /**
   The exact condition: a message is accepted iff its header is good and its option area is a run of
   well-formed options followed by END or by something that is no option; its options are theirs.
   */
  lemma AcceptedIff(input: seq<byte>)
    ensures Decoded(input).Parsed? <==> Headed(input) && exists parts, rest :: Splits(input[240..], parts, rest)
    ensures forall parts, rest :: Headed(input) && Splits(input[240..], parts, rest) ==>
                                    Decoded(input).Parsed? && AllMean(parts, Decoded(input).packet.options)
  {
    hide PacketOf, ReadOptions, Splits, Cookie, AllMean, WellFormed;
    if Headed(input) {
      forall parts, rest | Splits(input[240..], parts, rest)
        ensures Decoded(input).Parsed? && AllMean(parts, Decoded(input).packet.options)
      {
        SplitsStarts(input[240..], parts, rest);
        ReadsParts(input[240..], parts, rest);
        PacketOfOptions(input, ReadOptions(input[240..]).0);
      }
      if Decoded(input).Parsed? {
        var parts := HasParts(input[240..]);
      }
    }
  }

  lemma SplitsStarts(area: seq<byte>, parts: seq<seq<byte>>, rest: seq<byte>)
    requires Splits(area, parts, rest)
    ensures !AtEnd(area) && rest != [] && forall i :: 0 <= i < |parts| ==> WellFormed(parts[i])
  {
  }

  /** Octets behind END change nothing: padded and unpadded messages mean the same. */
  lemma PaddingIsIgnored(header: seq<byte>, parts: seq<seq<byte>>, padding: seq<byte>)
    requires |header| == HEADER_LEN && Headed(header)
    requires parts != [] && forall i :: 0 <= i < |parts| ==> WellFormed(parts[i])
    ensures Decoded(header + Joined(parts) + [255] + padding) == Decoded(header + Joined(parts) + [255])
    ensures Decoded(header + Joined(parts) + [255] + padding).Parsed?
  {
    hide Decoded, WellFormed, Joined, Splits, AllMean, Ends;
    var short, long := header + Joined(parts) + [255], header + Joined(parts) + [255] + padding;
    Placed(header, Joined(parts), [255]);
    Placed(header, Joined(parts), [255] + padding);
    assert long == header + Joined(parts) + ([255] + padding);
    EndSplits(parts, []);
    EndSplits(parts, padding);
    assert [255] + [] == [255];
    AcceptedIff(short);
    AcceptedIff(long);
    SameMeaning(parts, Decoded(short).packet.options, Decoded(long).packet.options);
    HeaderDecides(short, long);
  }

  lemma Placed(header: seq<byte>, units: seq<byte>, rest: seq<byte>)
    requires |header| == HEADER_LEN && Headed(header)
    ensures var s := header + units + rest; Headed(s) && s[240..] == units + rest && s[..240] == header
  {
    var s := header + units + rest;
    assert s[236..240] == header[236..240];
  }

  lemma EndSplits(parts: seq<seq<byte>>, padding: seq<byte>)
    requires parts != [] && forall i :: 0 <= i < |parts| ==> WellFormed(parts[i])
    ensures Splits(Joined(parts) + ([255] + padding), parts, [255] + padding)
  {
    StartsWithUnit(parts, [255] + padding);
  }

  lemma OneMeaning(tlv: seq<byte>, o: DhcpOption, o': DhcpOption)
    requires WellFormed(tlv) && Means(tlv, o) && Means(tlv, o')
    ensures o == o'
  {
    hide ValidUtf8, U32Of;
  }

  lemma SameMeaning(parts: seq<seq<byte>>, os: seq<DhcpOption>, os': seq<DhcpOption>)
    requires forall i :: 0 <= i < |parts| ==> WellFormed(parts[i])
    requires AllMean(parts, os) && AllMean(parts, os')
    ensures os == os'
  {
    hide WellFormed, Means;
    forall i | 0 <= i < |parts|
      ensures os[i] == os'[i]
    {
      OneMeaning(parts[i], os[i], os'[i]);
    }
  }

  /** The first 240 octets and the options decide an accepted message. */
  lemma HeaderDecides(a: seq<byte>, b: seq<byte>)
    requires Decoded(a).Parsed? && Decoded(b).Parsed? && a[..HEADER_LEN] == b[..HEADER_LEN]
    requires Decoded(a).packet.options == Decoded(b).packet.options
    ensures Decoded(a) == Decoded(b)
  {
    hide ReadOptions, Weighed;
    DecodedFields(a);
    DecodedFields(b);
    forall i, j | 0 <= i <= j <= HEADER_LEN
      ensures a[i..j] == b[i..j]
    {
      Inside(a, HEADER_LEN, i, j);
      Inside(b, HEADER_LEN, i, j);
    }
    forall i | 0 <= i < HEADER_LEN
      ensures a[i] == b[i]
    {
      assert a[i] == a[..HEADER_LEN][i] && b[i] == b[..HEADER_LEN][i];
    }
  }

  lemma Inside(a: seq<byte>, n: nat, i: nat, j: nat)
    requires i <= j <= n <= |a|
    ensures a[i..j] == a[..n][i..j]
  {
  }

  /** The header fields of an accepted message, octet by octet (section 2 of RFC 2131). */
  lemma DecodedFields(input: seq<byte>)
    requires Decoded(input).Parsed?
    ensures var p := Decoded(input).packet;
            && (p.reply <==> input[0] == 2) && p.hops == input[3]
            && p.xid == Weighed(input[4..8]) && p.secs == Weighed([0, 0] + input[8..10])
            && (p.broadcast <==> input[11] >= 128)
            && p.ciaddr == Weighed(input[12..16]) && p.yiaddr == Weighed(input[16..20])
            && p.siaddr == Weighed(input[20..24]) && p.giaddr == Weighed(input[24..28])
            && p.chaddr == input[28..34]
  {
    hide ReadOptions, U32Of, U16Of, Weighed;
    WeighedIs(input[4..8]);
    WeighedIs(input[12..16]);
    WeighedIs(input[16..20]);
    WeighedIs(input[20..24]);
    WeighedIs(input[24..28]);
    WeighedTwo(input[8..10]);
  }

  function Weighed(s: seq<nat>): nat
    requires |s| == 4
  {
    0x100_0000 * s[0] + 0x1_0000 * s[1] + 0x100 * s[2] + s[3]
  }

  lemma WeighedIs(s: seq<byte>)
    requires |s| == 4
    ensures U32Of(s) == Weighed(s)
  {
    var a, b, c := s[..3], s[..2], s[..1];
    assert a[..2] == b && b[..1] == c && c[..0] == [];
    assert FromBigEndian(c) == c[0];
    assert FromBigEndian(b) == FromBigEndian(c) * 256 + b[1];
    assert FromBigEndian(a) == FromBigEndian(b) * 256 + a[2];
  }

  lemma WeighedTwo(s: seq<byte>)
    requires |s| == 2
    ensures U16Of(s) == Weighed([0, 0] + s)
  {
    var c := s[..1];
    assert c[..0] == [];
    assert FromBigEndian(c) == c[0];
  }

  lemma {:induction false} AddressAt(addrs: seq<Ip4>, i: nat)
    requires i < |addrs|
    ensures AddrsData(addrs)[4 * i..4 * i + 4] == BigEndian(addrs[i], 4)
  {
    hide BigEndian;
    if i > 0 {
      AddressAt(addrs[1..], i - 1);
      assert AddrsData(addrs)[4..] == AddrsData(addrs[1..]);
      assert AddrsData(addrs)[4 * i..4 * i + 4] == AddrsData(addrs)[4..][4 * (i - 1)..4 * (i - 1) + 4];
    }
  }

  /** The options only ever sent: their codes and, in order, the octets of their addresses. */
  lemma ListsOnWire(addrs: seq<Ip4>, i: nat)
    requires i < |addrs|
    ensures Code(Router(addrs)) == 3 && Code(DomainNameServer(addrs)) == 6
    ensures U32Of(Data(Router(addrs))[4 * i..4 * i + 4]) == addrs[i]
    ensures U32Of(Data(DomainNameServer(addrs))[4 * i..4 * i + 4]) == addrs[i]
  {
    AddressAt(addrs, i);
    U32RoundTrip(addrs[i]);
  }

  /** The octets of an encoded message that decoding does not look at, or reads differently. */
  lemma WireLayout(p: Packet)
    ensures var w := Wire(p);
            && |w| <= 300 && w[|w| - 1] == 255
            && w[0] == (if p.reply then 2 else 1) && w[1] == 1 && w[2] == 6
            && w[10] == (if p.broadcast then 128 else 0) && w[11] == 0
            && (forall i :: 34 <= i < 236 ==> w[i] == 0)
            && w[236..240] == [99, 130, 83, 99]
  {
    hide BigEndian, OptionsBytes, Emitted;
    var w, h := Wire(p), Header(p);
    assert w[..240] == h && w[236..240] == h[236..240] == Cookie();
    assert h[..34] == FixedHeader(p);
    assert w[10] == h[10] == FixedHeader(p)[10] && w[11] == h[11] == FixedHeader(p)[11];
    forall i | 34 <= i < 236
      ensures w[i] == 0
    {
      assert w[i] == h[i] == Zeros(202)[i - 34];
    }
  }

  /** The bound in octets: the first `k` options are emitted iff with header and END they take at most 300. */
  lemma EmittedIffRoom(os: seq<DhcpOption>, k: nat)
    requires k <= |os| && Short(os[..k])
    ensures k <= |Emitted(os)| <==> 240 + |OptionsBytes(os[..k])| + 1 <= 300
  {
    EmittedIsLongest(os, k);
  }
}
