/**
 What the DHCPv6 decoder accepts, and what it makes of it, in terms of the octets received: a message
 type, a transaction id, and a run of framed options, IA_NA holding a run of framed sub-options
 (sections 8, 21.1, 21.4 and 21.6 of RFC 8415).
 */
module Dhcpv6Messages {
  import opened Wrappers
  import opened Bytes
  import opened Text
  import opened Codec = Dhcpv6Codec

  function Joined(parts: seq<seq<byte>>): seq<byte> {
    if parts == [] then [] else parts[0] + Joined(parts[1..])
  }

  /** A two-octet code, a two-octet length, and a payload of that length. */
  predicate Framed(part: seq<byte>) {
    |part| >= 4 && FromBigEndian(part[2..4]) == |part| - 4
  }

  function CodeOf(part: seq<byte>): nat
    requires Framed(part)
  {
    FromBigEndian(part[..2])
  }

  // ----- Sub-options of IA_NA -----

  /** Any framed sub-option will do; one with code 5 holds an address and its two lifetimes. */
  predicate GoodSub(part: seq<byte>) {
    Framed(part) && (CodeOf(part) == 5 ==> |part| >= 28)
  }

  ghost predicate Subs(rest: seq<byte>, parts: seq<seq<byte>>) {
    rest == Joined(parts) && forall i :: 0 <= i < |parts| ==> GoodSub(parts[i])
  }

  function AddrOf(part: seq<byte>): IaAddr
    requires |part| >= 28
  {
    IaAddr(U128Of(part[4..20]), U32Of(part[20..24]), U32Of(part[24..28]))
  }

  /** The addresses of the sub-options with code 5, in order. */
  function AddrsOf(parts: seq<seq<byte>>): seq<IaAddr>
    requires forall i :: 0 <= i < |parts| ==> GoodSub(parts[i])
  {
    if parts == [] then []
    else
      assert GoodSub(parts[0]);
      (if CodeOf(parts[0]) == 5 then [AddrOf(parts[0])] else []) + AddrsOf(parts[1..])
  }

  lemma Ahead(part: seq<byte>, rest: seq<byte>)
    requires |part| >= 4
    ensures var s := part + rest;
            s[..2] == part[..2] && s[2..4] == part[2..4] && s[4..|part|] == part[4..] && s[|part|..] == rest
  {
  }

  lemma AddrAgrees(part: seq<byte>)
    requires |part| >= 28
    ensures IaAddrOf(part[4..]) == AddrOf(part)
  {
    assert part[4..][..16] == part[4..20] && part[4..][16..20] == part[20..24] && part[4..][20..24] == part[24..28];
  }

  /** A run of good sub-options is accepted, unknown ones are skipped by their length. */
  lemma {:induction false} SubsAccepted(rest: seq<byte>, parts: seq<seq<byte>>)
    requires Subs(rest, parts)
    ensures SubOptions(rest) == Ok(AddrsOf(parts))
    decreases |parts|
  {
    hide FromBigEndian, IaAddrOf, AddrOf;
    if parts != [] {
      var tail := Joined(parts[1..]);
      assert GoodSub(parts[0]);
      Ahead(parts[0], tail);
      SubsAccepted(tail, parts[1..]);
      if CodeOf(parts[0]) == 5 {
        AddrAgrees(parts[0]);
      }
    }
  }

  lemma {:induction false} SubsNeeded(rest: seq<byte>) returns (parts: seq<seq<byte>>)
    requires SubOptions(rest).Ok?
    ensures Subs(rest, parts)
    decreases |rest|
  {
    hide FromBigEndian, IaAddrOf;
    parts := [];
    if rest != [] {
      var n := 4 + FromBigEndian(rest[2..4]);
      var part, tail := rest[..n], rest[n..];
      var more := SubsNeeded(tail);
      assert part[2..4] == rest[2..4] && part[..2] == rest[..2];
      parts := [part] + more;
      assert parts[1..] == more && rest == part + tail;
    }
  }

  /** The exact condition: sub-options are accepted iff they are a run of good ones; the addresses are theirs. */
  lemma SubOptionsIff(rest: seq<byte>)
    ensures SubOptions(rest).Ok? <==> exists parts :: Subs(rest, parts)
    ensures forall parts :: Subs(rest, parts) ==> SubOptions(rest) == Ok(AddrsOf(parts))
  {
    hide Subs, SubOptions;
    if SubOptions(rest).Ok? {
      var parts := SubsNeeded(rest);
    }
    forall parts | Subs(rest, parts)
      ensures (forall i :: 0 <= i < |parts| ==> GoodSub(parts[i])) && SubOptions(rest) == Ok(AddrsOf(parts))
    {
      SubsAreGood(rest, parts);
      SubsAccepted(rest, parts);
    }
  }

  lemma SubsAreGood(rest: seq<byte>, parts: seq<seq<byte>>)
    requires Subs(rest, parts)
    ensures forall i :: 0 <= i < |parts| ==> GoodSub(parts[i])
  {
  }

  // ----- Options -----

  /** What the decoder asks of the payload of each option. */
  ghost predicate GoodOption(part: seq<byte>) {
    && Framed(part)
    && var data := part[4..];
       match CodeOf(part)
       case 3 => |data| >= 12 && exists parts :: Subs(data[12..], parts)
       case 23 => |data| % 16 == 0
       case 13 => |data| >= 2 && ValidUtf8(data[2..])
       case _ => true
  }

  /** The option a good part stands for. */
  ghost predicate Means(part: seq<byte>, o: Dhcpv6Option)
    requires GoodOption(part)
  {
    var data := part[4..];
    match CodeOf(part)
    case 1 => o == ClientId(data)
    case 2 => o == ServerId(data)
    case 3 =>
      && o.IaNaOption?
      && o.ia.iaid == U32Of(data[..4]) && o.ia.t1 == U32Of(data[4..8]) && o.ia.t2 == U32Of(data[8..12])
      && forall parts :: Subs(data[12..], parts) ==> o.ia.addrs == AddrsOf(parts)
    case 23 =>
      && o.DnsServers? && 16 * |o.servers| == |data|
      && forall i :: 0 <= i < |o.servers| ==> o.servers[i] == U128Of(data[16 * i..16 * i + 16])
    case 13 => o.StatusCode? && o.status == U16Of(data[..2]) && o.message == data[2..]
    case code => o.Unrecognized? && o.raw.code == code && o.raw.data == data
  }

  lemma {:induction false} ServerAt(data: seq<byte>, i: nat)
    requires |data| % 16 == 0 && 16 * i + 16 <= |data|
    ensures i < |ServersOf(data)| && ServersOf(data)[i] == U128Of(data[16 * i..16 * i + 16])
  {
    hide U128Of;
    if i > 0 {
      ServerAt(data[16..], i - 1);
      assert data[16..][16 * (i - 1)..16 * (i - 1) + 16] == data[16 * i..16 * i + 16];
    }
  }

  lemma ServersMean(data: seq<byte>)
    requires |data| % 16 == 0
    ensures var servers := ServersOf(data);
            && 16 * |servers| == |data|
            && forall i :: 0 <= i < |servers| ==> servers[i] == U128Of(data[16 * i..16 * i + 16])
  {
    hide U128Of, ServersOf;
    ServersSize(data);
    forall i | 0 <= i < |ServersOf(data)|
      ensures ServersOf(data)[i] == U128Of(data[16 * i..16 * i + 16])
    {
      ServerAt(data, i);
    }
  }

  /** The exact condition on one option: its payload is accepted iff it is good, and means what it should. */
  lemma OptionIff(part: seq<byte>)
    requires Framed(part) && CodeOf(part) < 0x1_0000
    ensures OptionOf(CodeOf(part), part[4..]).Ok? <==> GoodOption(part)
    ensures GoodOption(part) ==> Means(part, OptionOf(CodeOf(part), part[4..]).value)
  {
    hide FromBigEndian, ServersOf, SubOptions, U32Of, U16Of, U128Of, ValidUtf8, Subs;
    var code, data := CodeOf(part), part[4..];
    if code == 3 && |data| >= 12 {
      SubOptionsIff(data[12..]);
    } else if code == 23 && |data| % 16 == 0 {
      ServersMean(data);
    }
  }

  ghost predicate Options(rest: seq<byte>, parts: seq<seq<byte>>) {
    rest == Joined(parts) && forall i :: 0 <= i < |parts| ==> GoodOption(parts[i])
  }

  ghost predicate AllMean(parts: seq<seq<byte>>, os: seq<Dhcpv6Option>) {
    |os| == |parts| && forall i :: 0 <= i < |parts| ==> GoodOption(parts[i]) && Means(parts[i], os[i])
  }

  lemma CodeFits(part: seq<byte>)
    requires Framed(part)
    ensures U16Of(part[..2]) == CodeOf(part) && U16Of(part[2..4]) == |part| - 4
  {
  }

  lemma {:induction false} OptionsAccepted(rest: seq<byte>, parts: seq<seq<byte>>)
    requires Options(rest, parts)
    ensures AllOptions(rest).Ok? && AllMean(parts, AllOptions(rest).value)
    decreases |parts|
  {
    hide U16Of, GoodOption, Means, OptionOf, FromBigEndian;
    if parts != [] {
      var part, tail := parts[0], Joined(parts[1..]);
      GoodIsFramed(part);
      CodeFits(part);
      OptionIff(part);
      Ahead(part, tail);
      OptionsAccepted(tail, parts[1..]);
      assert FirstOption(rest) == Ok((tail, OptionOf(CodeOf(part), part[4..]).value));
    }
  }

  lemma GoodIsFramed(part: seq<byte>)
    requires GoodOption(part)
    ensures Framed(part)
  {
  }

  lemma {:induction false} OptionsNeeded(rest: seq<byte>) returns (parts: seq<seq<byte>>)
    requires AllOptions(rest).Ok?
    ensures Options(rest, parts)
    decreases |rest|
  {
    hide GoodOption, OptionOf, FromBigEndian;
    parts := [];
    if rest != [] {
      var n: nat := 4 + U16Of(rest[2..4]);
      var part, tail := rest[..n], rest[n..];
      var more := OptionsNeeded(tail);
      assert part[2..4] == rest[2..4] && part[..2] == rest[..2] && part[4..] == rest[4..n];
      CodeFits(part);
      OptionIff(part);
      parts := [part] + more;
      assert parts[1..] == more && rest == part + tail;
    }
  }

  // ----- Datagrams -----

  function Types(): seq<MsgType> {
    [Solicit, Advertise, Request, Confirm, Renew, Rebind, Reply, Release, Decline, Reconfigure, InformationRequest,
     RelayForward, RelayReply]
  }

  ghost predicate Splits(input: seq<byte>, parts: seq<seq<byte>>) {
    |input| >= 4 && 1 <= input[0] <= 13 && Options(input[4..], parts)
  }

  /**
   The exact condition: a datagram is accepted iff it has a known message type, a transaction id and
   nothing behind them but a run of good options; its fields and options are theirs.
   */
  lemma AcceptedIff(input: seq<byte>)
    ensures Decoded(input).Ok? <==> exists parts :: Splits(input, parts)
    ensures forall parts :: Splits(input, parts) ==> Decoded(input).Ok? && AllMean(parts, Decoded(input).value.options)
    ensures Decoded(input).Ok? ==>
              var p := Decoded(input).value;
              && |input| >= 4 && 1 <= input[0] <= 13 && p.msgType == Types()[input[0] - 1]
              && p.transactionId == Weighed(input[1..4])
  {
    hide AllOptions, Options, AllMean, U24Of;
    if Decoded(input).Ok? {
      var parts := OptionsNeeded(input[4..]);
      assert Splits(input, parts);
      WeighedIs(input[1..4]);
    }
    forall parts | Splits(input, parts)
      ensures Decoded(input).Ok? && AllMean(parts, Decoded(input).value.options)
    {
      OptionsAccepted(input[4..], parts);
    }
  }

  /** An unknown message type is reported as such; too few octets for a header as truncation. */
  lemma HeaderErrors(input: seq<byte>)
    ensures |input| < 4 ==> Decoded(input) == Err(Truncated)
    ensures |input| >= 4 && !(1 <= input[0] <= 13) <==> Decoded(input).Err? && Decoded(input).error.BadMessageType?
    ensures Decoded(input).Err? && Decoded(input).error.BadMessageType? ==> Decoded(input).error.code == input[0]
  {
    if |input| >= 4 {
      NoOtherBadType(input[4..]);
    }
  }

  lemma {:induction false} NoOtherBadType(rest: seq<byte>)
    ensures AllOptions(rest).Err? ==> !AllOptions(rest).error.BadMessageType?
    decreases |rest|
  {
    hide FromBigEndian;
    if rest != [] {
      if FirstOption(rest).Ok? {
        NoOtherBadType(FirstOption(rest).value.0);
      } else if |rest| >= 4 && |rest| - 4 >= U16Of(rest[2..4]) {
        NoBadTypeInside(U16Of(rest[..2]), rest[4..4 + U16Of(rest[2..4])]);
      }
    }
  }

  lemma NoBadTypeInside(code: u16, data: seq<byte>)
    ensures OptionOf(code, data).Err? ==> !OptionOf(code, data).error.BadMessageType?
  {
    if |data| >= 12 {
      NoBadTypeDeeper(data[12..]);
    }
  }

  lemma {:induction false} NoBadTypeDeeper(rest: seq<byte>)
    ensures SubOptions(rest).Err? ==> !SubOptions(rest).error.BadMessageType?
    decreases |rest|
  {
    hide FromBigEndian, IaAddrOf;
    if |rest| >= 4 && |rest| - 4 >= FromBigEndian(rest[2..4]) {
      NoBadTypeDeeper(rest[4 + FromBigEndian(rest[2..4])..]);
    }
  }

  function Weighed(s: seq<nat>): nat
    requires |s| == 3
  {
    0x1_0000 * s[0] + 0x100 * s[1] + s[2]
  }

  lemma WeighedIs(s: seq<byte>)
    requires |s| == 3
    ensures U24Of(s) == Weighed(s)
  {
    var b, c := s[..2], s[..1];
    assert b[..1] == c && c[..0] == [];
    assert FromBigEndian(c) == c[0];
    assert FromBigEndian(b) == FromBigEndian(c) * 256 + b[1];
  }
}
