# RustyDHCP: verified model of the lease tables, wire formats and reply assembly

This project models, in Dafny, the parts of RustyDHCP that decide who holds which address and what
goes over the wire:

- **Lease tables.** `V6Pool` (DHCPv6) and `MyServer` (DHCPv4) are classes with the fields of the
  original: a slot array, an overflow hash table, a counter of filled slots, a reverse index and a
  round-robin cursor. Every method is proved to act as one finite map from addresses to leases
  would (`DhcpV6Pool`, `Dhcpv4Server`, over the shared `Leases`, `SlotStore`, `RoundRobin`).
- **Services.** One step of each service maps a table, a packet and the clock to a new table and a
  reply (`Dhcpv6Server`, `Dhcpv4Server`). Statements about whole runs of these steps are in
  `Dhcpv6Runs`, `Dhcpv4Runs` and `DhcpV6PoolRuns`; `Dhcpv6Lifetimes` and `Dhcpv4Lifetimes` compare
  the lease time a reply advertises with what the run then keeps, `Dhcpv6Reservations` and
  `Dhcpv4Reservations` say what clients with permanent addresses receive, `Dhcpv6Exchange` and
  `Dhcpv4Exchange` follow an offer to the request for it.
- **Wire formats.** DHCPv6 (`Dhcpv6Codec`) and DHCPv4 (`Dhcpv4Options`, `Dhcpv4Packet`): what is
  encoded, what decoding means, the loops that compute both, and exactly which packets survive the
  wire. `Dhcpv6Messages` and `Dhcpv4Messages` say, octet by octet, which messages are accepted and what
  they mean.
- **Replies.** What every reply says, option by option (`Dhcpv6Replies`, `Dhcpv4Replies`), the
  parameter-request filter (`OptionFilter`), reply construction and the exact number of servers for
  which nothing is cut off (`Dhcpv4Reply`).
- **Arithmetic and text.** The calendar algorithm of the request log (`Calendar`), DUIDs as text
  (`DuidText`), configuration limits (`ConfigRules`).

`V6Pool` and `MyServer` repeat the same storage code because the source does; what they share in meaning
is stated once, in `Leases` and `SlotStore`.

`dafny verify dfyconfig.toml` checks everything.

## How to read it

Time is a natural number of nanoseconds; handling a packet takes its clock readings as parameters,
and statements about runs assume that they do not decrease. Addresses, MACs and counters have the
widths of the original; `usize` is taken to be 64 bits wide.

A hash table is a map together with `order`, the order in which an iteration meets its keys. The
order may be any enumeration of the keys and may change with every update; between updates it stays.
Where a client holds several addresses, the address a lookup finds therefore depends on the stored
fields; `CurrentOf` is that answer, and the specifications take it as `cur`. The relation `IsCurrent`
says which answers are right; in DHCPv4 an index entry that checks out also decides the answer
(`Dhcpv4Server.Hinted`).

Both services receive into a buffer of 1500 octets (`Bytes.Received`). Wherever a statement says that some
client can do something, the datagram that does it is constructed and fits that buffer.

The invariants `Sound` and `Valid` say that the fields stand for the map `leases`
(`SlotStore.Represents`): no address is both in the slots and in the overflow table, `filled` is the
number of occupied slots, and `filled` plus the overflow size is the size of the map.

A lease is `Firm` while no other client can be given its address: it lies outside the managed range,
or it has not lapsed. Infinite leases lapse at once in DHCPv4 and never in DHCPv6.

In the DHCPv4 decoder two library calls stop the program instead of returning: the assertion that an
option list does not begin with END, and skipping the END octet of an empty remainder. The decoder's
outcome `Aborted` stands for both, so that decoding is specified on every input;
`Dhcpv4Packet.AbortedIff` says on exactly which messages it happens, and `Dhcpv4Server.Serve` ends there.

## Where the code differs from its documentation

- `README.md:30` of the repository says a client with a permanent IPv4 lease always receives the same
  address. The code treats an infinite IPv4 lease in the pool as available to every client
  (`src/main.rs:655-679`). For a client that holds one address the promise is kept, over every run, iff the
  address lies outside the pool (`Dhcpv4Reservations.SameAddressIff`, and `ReservationIsKeptIff` for
  unambiguous leases files). A client named at several addresses may receive different ones even if the
  first lies outside the pool (`Dhcpv4Reservations.TwoAddresses`). For IPv6 a client with one address
  always receives it iff it is permanent or outside the range (`Dhcpv6Reservations.SameAddressIff`); which of
  several addresses a DUID receives can depend on the iteration order of a hash table, so nothing is
  promised then. `TakeoverIffLapsed` of both protocols says when an address can be taken at all.
- A renewal advertises a full lease time but leaves the recorded expiry as it was, for both protocols
  (`src/main.rs:503-513`, `src/dhcpv6.rs:812-817`), so an address can be given to another client before the
  advertised time is over: `Dhcpv4Lifetimes.RenewalIsNotRecorded` and `Dhcpv6Lifetimes.RenewalIsNotRecorded`
  show it from every such state, and `PromiseKeptIff` of both modules gives the exact condition under
  which the advertised time is kept.
- A leases file may name one MAC at several addresses; the index then may or may not match the table.
  `Dhcpv4Runs.ReservedIsExactIff` gives the exact condition on the file.
- `encode` sets the DHCPv4 broadcast flag in the high octet of the flags, `decode` looks in the low one,
  so the flag reads back false; Router and DNS options are always refused by the decoder. Hence
  `Dhcpv4Packet.RoundTrip` returns the list up to the first such option, and
  `Dhcpv4Packet.RoundTripExact` gives the exact condition for a loss-free round trip.
- The comment at `src/server.rs:294-296` counts the padding as part of the message; the slice that is
  sent ends with END, and the padding only fills the buffer behind it (`Dhcpv4Packet.Encode`).

## Model

| member | source | states |
|---|---|---|
| Leases.DiscoverComplete | src/dhcpv6.rs:770-810 | an offer to a client without a lease is an address available to it; refused iff none is, and then the table, cursor included, is as before |
| Leases.DiscoverIsCyclicallyFirst | src/dhcpv6.rs:794-809 | no available address lies cyclically between the cursor and the offer |
| Leases.DiscoverNeverRefusesWithRoom | src/dhcpv6.rs:778-809 | a usable range holding fewer leases than addresses never refuses |
| RoundRobin.Next | src/dhcpv6.rs:794-809 | the cyclically next member of a set of free offsets, defined without the scan |
| RoundRobin.Fairness | src/dhcpv6.rs:794-809 | any window of as many offers as there are free offsets gives each exactly once, then repeats |
| RoundRobin.FairRun | src/main.rs:422-431 | the same for the addresses given inside a run whose other steps leave the cursor alone |
| SlotStore.CurrentIsExact | src/dhcpv6.rs:729-760 | hint, slot scan and overflow scan together find a lease the client holds, or None iff it holds none, for any index contents |
| SlotStore.PutSlot | src/dhcpv6.rs:673-677 | filling a slot moves the represented map at that address only and keeps the counts right |
| SlotStore.ClearSlot | src/dhcpv6.rs:839-841 | emptying a slot removes that address from the represented map and keeps the counts right |
| SlotStore.PutListed | src/dhcpv6.rs:690-698 | the same for an insert into the overflow table |
| SlotStore.DropListed | src/dhcpv6.rs:842-844 | the same for a removal from the overflow table |
| DhcpV6Pool.V6Pool.constructor | src/dhcpv6.rs:577-599 | an empty pool; slots iff the count is within the limit; the range is usable iff its end is a 128-bit number |
| DhcpV6Pool.V6Pool.Len | src/dhcpv6.rs:610-612 | the size of the one map |
| DhcpV6Pool.V6Pool.Lookup | src/dhcpv6.rs:644-649 | slot and overflow lookup is the lookup in the one map |
| DhcpV6Pool.V6Pool.AvailableAt | src/dhcpv6.rs:652-722 | in range and unleased, own, or past its expiry; infinite leases never lapse; in both storage modes |
| DhcpV6Pool.V6Pool.CurrentOf | src/dhcpv6.rs:729-760 | the lookup answers with an address the DUID holds, or None iff it holds none, however stale the hint |
| DhcpV6Pool.V6Pool.CurrentLease | src/dhcpv6.rs:729-760 | computes that answer |
| DhcpV6Pool.V6Pool.Insert | src/dhcpv6.rs:667-700 | sets the lease at one address of the map; drops the previous holder's hint for it |
| DhcpV6Pool.V6Pool.Discover | src/dhcpv6.rs:770-810 | current lease, else the cyclically next free address; the leases stay as they are |
| DhcpV6Pool.V6Pool.Request | src/dhcpv6.rs:814-834 | current lease unchanged, else a timed lease if available, else refused; a previous holder's hint is left behind |
| DhcpV6Pool.V6Pool.Release | src/dhcpv6.rs:837-874 | drops exactly the current lease and moves the hint to another lease of the DUID |
| DhcpV6PoolRuns.DoAll | src/dhcpv6.rs:576-875 | any sequence of insert, discover, request and release on a pool is a run of the one-map machine |
| DhcpV6PoolRuns.RunsAgree | src/dhcpv6.rs:572-574 | with one address per client the map alone decides every later answer, cursor and table |
| DhcpV6PoolRuns.DoOnBoth | src/dhcpv6.rs:572-599 | a slot-backed and a hash-only pool give the same answers, cursors and contents |
| Dhcpv6Codec.WireLen | src/dhcpv6.rs:165-174 | the length of the option's TLV |
| Bytes.MostSignificantFirst | src/dhcpv6.rs:182-183 | integers are written with the octet of the highest weight first |
| Dhcpv6Codec.EncodeInto | src/dhcpv6.rs:176-212 | appends the option's TLV; refuses a payload over 65535 octets and then appends nothing |
| Dhcpv6Codec.ToRaw | src/dhcpv6.rs:214-265 | the raw form has the code and payload that are encoded |
| Dhcpv6Codec.Encode | src/dhcpv6.rs:505-516 | the header followed by every option's TLV, or refusal iff one does not fit |
| Dhcpv6Codec.DecodeIana | src/dhcpv6.rs:344-381 | computes the meaning of an IA_NA payload, unknown sub-options skipped |
| Dhcpv6Codec.DecodeOption | src/dhcpv6.rs:383-426 | computes the first option of the input and what follows it, or the error |
| Dhcpv6Codec.Decode | src/dhcpv6.rs:441-460 | computes the meaning of a datagram |
| Dhcpv6Codec.RoundTrip | src/dhcpv6.rs:441-516 | an encodable packet decodes to itself |
| Dhcpv6Codec.RoundTripExact | src/dhcpv6.rs:441-516 | a packet survives the wire iff its id has 24 bits, its payloads fit and no raw option uses a typed code |
| Dhcpv6Codec.Normalises | src/dhcpv6.rs:344-426 | every accepted datagram encodes again, in no more octets, to something with the same meaning |
| Dhcpv6Codec.ReencodesIff | src/dhcpv6.rs:344-516 | an accepted datagram encodes to the same octets again iff to as many: decoding loses octets only, never changes any |
| Dhcpv6Messages.SubOptionsIff | src/dhcpv6.rs:358-380 | sub-options of an IA_NA are accepted iff they are a run of framed ones in which those with code 5 have 24 octets at least; the addresses are those of the code-5 ones in order, all others are skipped by their length |
| Dhcpv6Messages.OptionIff | src/dhcpv6.rs:383-426 | an option is accepted iff its payload is good for its number, and stands for the values at fixed offsets of the payload |
| Dhcpv6Messages.AcceptedIff | src/dhcpv6.rs:441-460 | a datagram is accepted iff it is a message type from 1 to 13, a transaction id and a run of good options; type, id and options are theirs |
| Dhcpv6Messages.HeaderErrors | src/dhcpv6.rs:43-62 | an unknown message type is reported with its number, a missing header as truncated |
| Dhcpv6Codec.LookupIff | src/dhcpv6.rs:463-471 | a lookup finds the first option with the number, at any position, and nothing iff there is none |
| Dhcpv6Codec.FirstIanaIff | src/dhcpv6.rs:473-482 | among decoded options the first association is the first option 3 |
| Dhcpv6Codec.IsForServerIff | src/dhcpv6.rs:518-528 | a packet names a server iff its first option 2 is the server's DUID |
| Text.Utf8Iff | src/dhcpv6.rs:417 | an octet string is text iff it is the UTF-8 encoding of a string of characters |
| Dhcpv6Server.HandleDatagram | src/main.rs:868-1089 | one turn of the service is a step of the model, from datagram to reply packet |
| Dhcpv6Server.LoadReservations | src/main.rs:844-857 | the reservations file gives infinite leases, the last line winning at an address |
| Dhcpv6Server.Serve | src/main.rs:834-1091 | the service loop is a run from the reserved table; what is sent is the encoded reply |
| Dhcpv6Runs.StepKeeps | src/main.rs:896-1089 | a firm lease comes through any datagram unchanged unless its own client releases it here |
| Dhcpv6Runs.LeaseSafety | src/dhcpv6.rs:652-658 | over every run: a lease that is infinite, unexpired or outside the range keeps client and expiry until its own Release or Decline carrying this server's ID |
| Dhcpv6Runs.ReleaseDropsOne | src/main.rs:1056-1082 | such a Release or Decline drops exactly one lease of its sender, and nothing else |
| Dhcpv6Runs.LeasesUntouched | src/main.rs:896-1089 | datagrams that are not understood, other message types, a Release or Decline without this server's ID and a Solicit without rapid commit leave every lease alone |
| Dhcpv6Runs.StepExists | src/main.rs:868-1089 | every datagram is handled, whatever the table |
| Dhcpv6Runs.RapidCommitSucceeds | src/main.rs:908-945 | after a successful pick the commit gives the same address at any later instant, so the error arm is never taken |
| Dhcpv6Runs.RepliesAgreeWithTable | src/main.rs:896-1055 | each Reply with an address names one the table assigns to that client afterwards; an Advertise or a reply without address leaves the leases alone |
| Dhcpv6Runs.NothingGivenIff | src/main.rs:908-1053 | no address is given iff the client holds none and none, or not the wanted one, is available |
| Dhcpv6Runs.NewLeaseIsTimed | src/dhcpv6.rs:818-833 | a changed entry is the sender's, expires one lease time after its commit, and was available to it |
| Dhcpv6Runs.StepKeepsOneEach | src/dhcpv6.rs:814-836 | no datagram gives a client a second address |
| Dhcpv6Runs.RunInvariants | src/main.rs:863-1090 | over every run addresses stay 128-bit and one address per client stays one |
| Dhcpv6Runs.StepCursor | src/dhcpv6.rs:794-809 | only offers to clients without a lease move the cursor, to the next free offset, and give that address |
| Dhcpv6Runs.FullCursor | src/dhcpv6.rs:794-809 | while nothing is available to a client without a lease, no datagram moves the cursor |
| Dhcpv6Runs.FairOffers | src/dhcpv6.rs:794-809 | over every run with a fixed set of available addresses, the addresses in the replies to Solicits without a lease go round all of them |
| Dhcpv6Runs.ReplyIdentifiers | src/main.rs:1109-1122 | a reply carries this server's and the client's DUID where the service itself looks for them |
| Dhcpv6Runs.ReplyLifetimes | src/main.rs:1107-1121 | the association is echoed and T1, T2 and the lifetimes are in order |
| Dhcpv6Replies.UnderstoodIff | src/main.rs:868-890 | a datagram counts as a packet of a client iff it decodes and its first option 1 is the client's DUID |
| Dhcpv6Replies.WantedIff | src/main.rs:1003-1006 | the address asked for is the first one of the first association |
| Dhcpv6Replies.AnsweredIff | src/main.rs:896-1089 | a datagram is answered iff it is understood and is a Solicit, or a Request, Renew or Rebind that asks for an address |
| Dhcpv6Replies.RapidCommitIff | src/main.rs:898-945 | a Solicit is answered by a Reply, and the address given is assigned, iff the setting is on and option 14 stands anywhere in it; else by an Advertise that changes no lease |
| Dhcpv6Replies.ReplyCarries | src/main.rs:1096-1160 | options 2, 1 and 3 of every reply, the echoed association, T1, T2 and lifetimes to the second, the DNS servers, or status 2 |
| Dhcpv6Replies.NewLeaseLasts | src/dhcpv6.rs:818-833 | a new lease ends exactly the configured seconds after the clock reading that made it |
| Dhcpv6Runs.ReplyReachesClient | src/main.rs:1126-1133 | the octets sent decode, at the client, to the reply packet |
| Dhcpv6Runs.AddressedIsSentIff | src/main.rs:1123-1132 | a reply with an address is sent iff the server DUID and the DNS list fit their options |
| Dhcpv6Lifetimes.WhatIsGiven | src/main.rs:896-1055 | every reply with an address advertises the full lifetime, for an address the client holds (no lease changes) or one available to it |
| Dhcpv6Lifetimes.TakeoverIffLapsed | src/dhcpv6.rs:652-722 | some received datagram lets a client without a lease, with a DUID up to 1448 octets, take an address iff it lies in the range and its lease has expired |
| Dhcpv6Lifetimes.TakeoverByRequestIff | src/main.rs:862-1053 | for every DUID: a Request, Renew or Rebind can, iff also the DUID leaves room in the receive buffer |
| Dhcpv6Lifetimes.PromiseKeptIff | src/dhcpv6.rs:812-834 | what an Advertise or Reply gives is safe from other clients for the advertised lifetime iff a client without a lease committed it, or the holder's record is infinite, lasts as long or lies outside the range |
| Dhcpv6Lifetimes.RenewalIsNotRecorded | src/dhcpv6.rs:812-817 | the failure from every state: Request, Renew and Rebind of a holder get the full lifetime, every expiry stays, and once it has passed a received Request of another client takes the address |
| Dhcpv6Lifetimes.TimedIsMade | src/dhcpv6.rs:818-833 | every timed lease of a run was made by one of its datagrams, one lifetime after its clock reading |
| Dhcpv6Lifetimes.ServicePromiseIff | src/main.rs:834-1091 | over every run of the service: a holder's promise is kept iff its lease is a reservation, was made at the same clock reading or lies outside the range |
| Dhcpv6Lifetimes.FirmIsExclusive | src/dhcpv6.rs:652-722 | while a lease is firm no reply gives its address to another client |
| Dhcpv6Lifetimes.NewLeaseIsExclusive | src/dhcpv6.rs:814-834 | after a Reply that makes a lease no other client is given the address for its whole lifetime |
| Dhcpv6Reservations.SameAddressIff | src/dhcpv6.rs:652-874 | a client that holds one address is given it whenever it asks, in every run without its own release, iff it is permanent or outside the range |
| Dhcpv6Reservations.LastingIsKept | src/dhcpv6.rs:652-658 | the kept half for DUIDs of any length |
| Dhcpv6Reservations.ReservationIsKept | src/main.rs:844-857 | a reserved client always receives the address of its line, if its other lines decide none |
| Dhcpv6Exchange.OfferIsHonouredIff | src/main.rs:896-1053 | an advertised address is granted to the client that then asks for it iff it is free or expired at that moment |
| Dhcpv6Exchange.OfferIsHonoured | src/main.rs:896-1053 | in particular if no other client came to hold it in between |
| Dhcpv4Options.DataLen | src/options.rs:28-40 | the length of the payload |
| Dhcpv4Options.WriteData | src/options.rs:45-80 | writes exactly the payload in place and nothing else |
| Dhcpv4Options.ToRaw | src/options.rs:86-142 | the raw form has the code and payload that are written |
| Dhcpv4Packet.EmittedIsLongest | src/packet.rs:230-241 | a prefix of the options is emitted iff with header and END it stays within 300 octets |
| Dhcpv4Packet.Encode | src/packet.rs:203-253 | writes header, longest fitting prefix and END, pads to 300 octets, leaves the rest of the buffer |
| Dhcpv4Packet.Decode | src/packet.rs:104-166 | computes the outcome of a message, on every input |
| Dhcpv4Packet.ReadOptionsStop | src/packet.rs:140-146 | decoded options are canonical, and reading stops only at the end, at END or at a damaged option |
| Dhcpv4Packet.AbortedIff | src/packet.rs:46-148 | decoding stops the program iff the header is good and the option area starts with END or is a run of well-formed options with nothing behind it |
| Dhcpv4Messages.RejectedIff | src/packet.rs:104-139 | a message is rejected iff its header is not good: too short or hlen not 6, else no cookie |
| Dhcpv4Messages.AcceptedIff | src/packet.rs:46-166 | a message is accepted iff its header is good and its option area is a run of well-formed options followed by END or by what is no option; its options are the meanings of that run |
| Dhcpv4Messages.PaddingIsIgnored | src/packet.rs:140-148 | octets behind END change nothing |
| Dhcpv4Messages.DecodedFields | src/packet.rs:108-133 | the header fields of an accepted message, octet by octet |
| Dhcpv4Messages.WireLayout | src/packet.rs:203-229 | the octets of an encoded message that decoding does not look at, or reads differently |
| Dhcpv4Messages.EmittedIffRoom | src/packet.rs:230-241 | the bound on the emitted options in octets: 300 with header and END |
| Dhcpv4Messages.ListsOnWire | src/options.rs:45-80 | numbers and octets, in order, of the two options only ever sent |
| Dhcpv4Packet.LookupIff | src/packet.rs:173-182 | a lookup finds the first option with the number, at any position, and nothing iff there is none |
| Dhcpv4Packet.TypeIff | src/packet.rs:184-202 | the first option 53 decides the type of a message |
| Dhcpv4Packet.BareHeaderAborts | src/packet.rs:140-148 | so every message of just a good header stops it |
| Dhcpv4Packet.RoundTrip | src/packet.rs:104-253 | every header field but the broadcast flag comes back, and the emitted options up to the first Router or DNS option |
| Dhcpv4Packet.RoundTripExact | src/packet.rs:104-253 | a packet survives the wire iff the flag is clear and its options are non-empty, fit, are canonical and none is refused |
| OptionFilter.FilterByReq | src/server.rs:32-90 | the cached in-place filter computes the specified selection for lists of any length |
| OptionFilter.FilterSlow | src/server.rs:92-141 | the slow filter computes the same selection |
| OptionFilter.PickAllPermutes | src/server.rs:49-88 | the filter permutes the list and never moves what it has picked |
| OptionFilter.FilterKeeps | src/server.rs:65-89 | an option is kept iff its code is asked for or mandatory, duplicates or not |
| OptionFilter.FilterIsWanted | src/server.rs:32-141 | with distinct codes the result is the asked-for then the mandatory options, each once, in order of first mention |
| OptionFilter.FilterTwice | src/server.rs:32-141 | filtering again changes nothing |
| Dhcpv4Reply.SizeOfOffer | src/main.rs:217-243 | a full Offer or Ack takes 29 octets of options, four for every server listed and two more if NTP servers are |
| Dhcpv4Reply.FullOptionsDistinct | src/main.rs:217-243 | its options have pairwise different codes, so every code is looked up and filtered as one option |
| Dhcpv4Replies.OfferCarries | src/main.rs:217-243 | options 53, 54, 51, 1, 3 and 6 of every Offer and Ack hold the configured values, through the filter; 42 the NTP servers iff there are any, NTP is on, and the client asks for them or sends no list |
| Dhcpv4Replies.NakCarries | src/main.rs:813-817 | options 53 and 54 of every Nak, and the reason in 56 iff asked for or no list was sent |
| Dhcpv4Replies.ReplyHeader | src/server.rs:222-235 | every header field of every reply; a Nak clears the client's address |
| Dhcpv4Replies.PlainOrder | src/main.rs:217-243 | without a parameter request list the options come as 53, 54, 51, 1, 3, 6, 42 |
| Dhcpv4Replies.MandatoryOrder | src/server.rs:65-72 | with an empty list they come as 53, 54, 1, 51, 6, 3 |
| Dhcpv4Replies.RapidCommitIff | src/main.rs:335-406 | an answered Discover gets an Ack, and the address is assigned, iff the setting is on and option 80 stands anywhere in it; else an Offer that changes no owner |
| Dhcpv4Replies.NewLeaseLasts | src/main.rs:374-386 | a new lease ends exactly the configured seconds after the clock reading that made it |
| Dhcpv4Reply.BuildReply | src/server.rs:200-235 | header echoed from the request, options filtered by its parameter request list |
| Dhcpv4Reply.FilterShrinks | src/server.rs:32-90 | filtering never makes a list longer on the wire |
| Dhcpv4Reply.KeptOptionsReachWire | src/packet.rs:230-241 | with at most seven DNS and NTP servers every kept option is sent, whatever was asked for |
| Dhcpv4Reply.ReplyBoundExact | src/packet.rs:256-262 | seven is exact: for every request all kept options are sent iff there are at most seven servers |
| Dhcpv4Reply.MandatoryOptionsReachWire | src/server.rs:65-72 | 53, 54, 51, 1, 3 and 6 are then on the wire in every such reply |
| Dhcpv4Server.MyServer.CurrentOf | src/main.rs:681-707 | the lookup answers with an address the MAC holds, or None iff it holds none |
| Dhcpv4Server.MyServer.CurrentLease | src/main.rs:681-707 | computes that answer |
| Dhcpv4Server.MyServer.Lookup | src/main.rs:644-649 | slot and overflow lookup is the lookup in the one map |
| Dhcpv4Server.MyServer.AvailableAt | src/main.rs:655-679 | in the pool and unleased, own, expired or infinite; in both storage modes |
| Dhcpv4Server.MyServer.InsertLease | src/main.rs:711-741 | sets the lease at one address and updates the index, dropping the previous holder's hint |
| Dhcpv4Server.MyServer.RemoveLease | src/main.rs:742-777 | drops exactly the current lease and moves the index to another lease of the MAC |
| Dhcpv4Server.MyServer.RememberHostname | src/main.rs:781-789 | stores an announced name with the lease and touches nothing else |
| Dhcpv4Server.MyServer.ProbeFrom | src/main.rs:374-386 | the scan finds the cyclically next free address, with no candidate outside the pool or 32 bits |
| Dhcpv4Server.MyServer.HandleRequest | src/main.rs:325-606 | handling a packet is a step of the model |
| Dhcpv4Server.AsksForIff | src/main.rs:463-466 | the address a Request asks for is its first option 50, wherever it stands, else its client address |
| Dhcpv4Server.HostNameIff | src/main.rs:267-272 | the host name of a packet is its first option 12 |
| Dhcpv4Server.RapidIff | src/main.rs:335-336 | rapid commit takes the setting and option 80 at any position |
| Dhcpv4Server.ForThisServerIff | src/server.rs:238-244 | a packet names this server iff its first option 54 is the server's address |
| Dhcpv4Server.MyServer.LoadReservations | src/main.rs:120-177 | the leases file gives infinite, unnamed leases, the last line winning at an address |
| Dhcpv4Server.Send | src/server.rs:286-304 | a reply leaves as its encoding |
| Dhcpv4Server.Serve | src/server.rs:156-192 | over received datagrams: a run from the loaded store over the packets understood; what is sent is the encoded replies |
| Dhcpv4Server.StopsAt | src/server.rs:172-190 | everything before the first datagram that stops the decoder is understood and handled, nothing from it on |
| Dhcpv4Server.UnderstoodSplits | src/server.rs:172-190 | up to there the datagrams are handled one by one, in order |
| Dhcpv4Server.UnderstoodOne | src/server.rs:175-188 | a malformed datagram counts for nothing, any other for its packet |
| Dhcpv4Server.RepliesAreSent | src/server.rs:286-304 | every reply of a run is sent as its encoding, and nothing else is |
| Dhcpv4Runs.StepKeepsExact | src/main.rs:711-777 | every packet keeps the index the exact inverse of the lease table, takeovers included |
| Dhcpv4Runs.ReservedIsExactIff | src/main.rs:135-175 | a leases file gives an exact index iff, whenever a MAC is named again, its earlier address is named again too, for whichever MAC |
| Dhcpv4Runs.ServiceKeepsExact | src/main.rs:120-211 | over every run from such a file: exact index and one address per client after every packet |
| Dhcpv4Runs.StepIsDecided | src/main.rs:681-777 | with an exact index a packet has one outcome |
| Dhcpv4Runs.RunsAgree | src/main.rs:120-211 | from an exact index the packets decide every later state and reply |
| Dhcpv4Runs.ServeOnBoth | src/main.rs:91-211 | servers with any two slot limits, slot-backed or hash-only, send the same and come to hold the same |
| Dhcpv4Runs.ReplyKind | src/server.rs:200-236 | type, server identifier and echoed header fields of a reply, through the filter |
| Dhcpv4Runs.RepliesAgreeWithTable | src/main.rs:325-607 | each Ack names an address the table assigns to its client afterwards; Offer, Nak and silent Discover leave ownership alone |
| Dhcpv4Runs.SilentIffExhausted | src/main.rs:376-406 | a Discover goes unanswered iff its client holds no lease and nothing is available to it |
| Dhcpv4Runs.NakIffUnavailable | src/main.rs:463-534 | a Request is refused iff its client holds no lease and the address it asks for, by option 50 or its own address, is not available; a new Ack gives that address |
| Dhcpv4Runs.ReleaseDropsOne | src/main.rs:547-585 | a Release or Decline naming this server drops exactly one lease of its sender |
| Dhcpv4Runs.ReleaseRepairs | src/main.rs:742-777 | if the index named the dropped address, it then names another one its sender holds, if there is one, and nobody else's entry changes |
| Dhcpv4Runs.OwnersUntouched | src/main.rs:325-606 | other message types, a Release or Decline without this server's identifier and a Discover without rapid commit change no owner and no expiry |
| Dhcpv4Runs.StepExists | src/main.rs:325-606 | every packet is handled, whatever the store |
| Dhcpv4Runs.NewLeaseIsTimed | src/main.rs:374-386 | a new lease is the sender's, expires one lease time from now, and was available to it |
| Dhcpv4Runs.ForeignChangeIsTakeover | src/main.rs:655-679 | a packet changes another client's lease only by taking it over, and only a lapsed one in the pool |
| Dhcpv4Runs.FirmLeaseIsSafe | src/main.rs:655-679 | a timed lease not past its expiry, or any lease outside the pool, is untouched by other clients' packets |
| Dhcpv4Runs.TakeoverIffLapsed | src/main.rs:655-679 | some received datagram lets a client without a lease take an address iff it lies in the pool and its lease has expired or is infinite |
| Dhcpv4Runs.RequestIsReceived | src/packet.rs:104-166 | the octets of that datagram decode to the Request it stands for |
| Dhcpv4Runs.LeaseSafety | src/main.rs:325-607 | over every run a lease keeps owner and expiry, unless its owner releases it here, while it is timed and unexpired, or forever outside the pool |
| Dhcpv4Runs.OffersReachWire | src/main.rs:798-811 | every Offer and Ack of a run sends all its options and the mandatory ones, with at most seven servers |
| Dhcpv4Runs.HostNameHistory | src/main.rs:781-789 | the stored name is the last one the owner announced since its tenure began |
| Dhcpv4Runs.ServiceHostNames | src/main.rs:267-272 | the same over every run of the service from an unambiguous leases file, reservations starting unnamed |
| Dhcpv4Runs.StepCursor | src/main.rs:422-431 | only Discovers of clients without a lease move the cursor, to the next free offset, and give that address |
| Dhcpv4Runs.FullCursor | src/main.rs:422-431 | while nothing is available to a client without a lease, no packet moves the cursor |
| Dhcpv4Runs.FairOffers | src/main.rs:422-431 | over every run with a fixed set of available addresses, the addresses in the replies to Discovers without a lease go round all of them |
| Dhcpv4Lifetimes.WhatIsGiven | src/main.rs:325-545 | every Offer and Ack advertises the full lease time, for an address the client holds (no owner or expiry changes) or one available to it |
| Dhcpv4Lifetimes.PromiseKeptIff | src/main.rs:503-544 | what a reply gives is safe from other clients for the advertised time, over every run on received datagrams without its own release, iff a client without a lease committed it, or the holder's record lasts as long or lies outside the pool |
| Dhcpv4Lifetimes.RenewalIsNotRecorded | src/main.rs:503-513 | the failure from every state: the Ack of a renewal carries the full lease time, the expiry stays, and once it has passed a received Request of a client without a lease takes the address |
| Dhcpv4Lifetimes.TimedIsMade | src/main.rs:374-386 | every timed lease of a run was made by one of its packets, one lease time after its clock reading |
| Dhcpv4Lifetimes.ServicePromiseIff | src/main.rs:120-211 | over every run of the service on received datagrams: a holder's promise is kept iff its lease was made at the same clock reading or lies outside the pool |
| Dhcpv4Lifetimes.FirmIsExclusive | src/main.rs:655-679 | while a lease is firm no Offer or Ack gives its address to another client |
| Dhcpv4Lifetimes.NewLeaseIsExclusive | src/main.rs:535-544 | after an Ack that makes a lease no other client is offered or acknowledged the address for its whole lease time |
| Dhcpv4Reservations.SameAddressIff | src/main.rs:655-741 | a client that holds one address is answered with it in every Discover and Request of every run without its own release, iff it lies outside the pool |
| Dhcpv4Reservations.ReservationIsKeptIff | src/main.rs:120-177 | the same for every line of an unambiguous leases file that decides its address |
| Dhcpv4Reservations.TwoAddresses | src/main.rs:681-741 | a file naming a client outside and inside the pool: it receives the second address, and once a stranger has taken that, the first |
| Dhcpv4Exchange.OfferIsHonouredIff | src/main.rs:422-544 | an offered address is acknowledged to the client that then requests it, by option 50 or its own address, iff it is free or lapsed at that moment |
| Dhcpv4Exchange.OfferIsHonoured | src/main.rs:422-544 | in particular if no other client came to hold it in between |
| ConfigRules.AcceptedPoolsExist | src/config.rs:244-259 | accepted settings give pools whose every address exists |
| ConfigRules.ValidateIff | src/config.rs:244-260 | settings are accepted iff DUID, IPv4 pool and IPv6 range are good; the first that is not is reported |
| ConfigRules.PoolsIff | src/config.rs:244-260 | the pools of the services are the configured ranges, address by address |
| Calendar.EraParts | src/main.rs:297-300 | no unsigned subtraction goes below zero; ranges of year of era and day of year |
| Calendar.MonthParts | src/main.rs:301-302 | month and day of month are in range and place the day exactly |
| Calendar.YmdIsInverse | src/main.rs:294-305 | the result is a date of the Gregorian calendar with the given day number |
| Calendar.DateRoundTrip | src/main.rs:294-305 | every date comes back from its day number |
| Calendar.DaysAdvance | src/main.rs:294-305 | day 0 is 1 January 1970 and the next day number is the next calendar day |
| DuidText.ParseDuidHex | src/config.rs:290-323 | the result depends on the text without separators only; success iff that is a non-empty hex string of even length |
| DuidText.ReadsIff | src/config.rs:290-323 | a text reads as a DUID iff its digits are those the DUID prints with, in either case |
| DuidText.SeparatorsVanish | src/config.rs:294-323 | exactly colon, hyphen, space and tab may be dropped from a text |
| DuidText.DigitValues | src/config.rs:296-306 | the digits and their values, in both cases |
| DuidText.ChaddrLayout | src/main.rs:309-313 | two digits an octet and a colon between octets |
| DuidText.DuidRoundTrip | src/main.rs:309-313 | a printed DUID reads back as itself |

## Left out

- Sockets, threads, file reading and logging: received packets, file lines and clock readings are parameters.
- Text parsing of configuration and leases files: lines arrive as pairs of client and address.
- `title` tables, `onoff`, error texts, `client_iana`, `start_addr`, `get` and the delivery plan `route_dests`: lookups and short case splits.
- `Instant` overflow when a lease time is added: time is unbounded.
- DHCPv4 encoding into buffers under 300 octets, which the source forbids its callers.
- DhcpV6Pool.V6Pool.Discover: the two scan loops of the source, one per storage mode, are one loop whose probe differs by mode.
- Dhcpv4Server.MyServer.RememberHostname: may reorder the hash table, which the source's in-place update does not; the model allows more orders.
- Capacity hints of vectors and hash tables, which do not change results.
