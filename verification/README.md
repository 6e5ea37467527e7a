# A verified model of the era-ocserv data plane

This project models, in Dafny 4.11, the parts of era-ocserv that decide what happens to a packet or a session, and proves
what they promise. `dafny verify dfyconfig.toml` checks all of it.

| part of the system | files |
|---|---|
| Bytes, one's-complement sums, wire formats | `Bytes`, `OnesComplement`, `Wire`, `Wrappers` |
| The stateless IPv4/IPv6 translator, in place in one buffer | `Nat66`, `Siit46*`, `Siit64*`, `Clatxlat` |
| What the translator means end to end | `Nat66Theorems`, `OutboundTheorems`, `Reassembly`, `FragmentTheorems`, `InboundHeaders`, `InboundTheorems`, `InboundFragments`, `ReflectionTheorems`, `QuoteTheorems`, `WalkTheorems`, `EdgeTheorems` |
| What the translator does byte by byte | `OutboundWire`, `InboundWire` |
| Packet Too Big messages | `PacketTooBig` |
| The PROXY v2 UDP flow cache | `ProxyUdp`, `FlowSpec`, `FlowCache`, `FlowLists`, `FlowTheorems`, `FlowRefinement`, `FlowSources`, `FlowHistory` |
| The handoff envelope codec | `Tlv`, `HeaderV2`, `Datagram`, `CodecWire` |
| The client registry and the DTLS session table | `RegistrySpec`, `RegistryRuns`, `Registry`, `RegistryRace`, `SessionTable` |
| CSTP frames and the tunnel read loop | `CstpFrame`, `CstpTunnel`, `CstpWire` |
| The sign-in state machine | `SignInSpec`, `SignIn`, `SignInTheorems`, `SignInLaws` |

How it is built. Code that works in place is a method over an `array` or a class, and is proved equal to a specification
function of what it found (`Translate46`, `Translate64`, `Rewrite`, `Receive`, `Demux`, `HandleAuth`, ...). The theorem files
then prove what those functions mean, without reference to how they compute it: checksums by their residue modulo 65535,
fragments by reassembly, extension headers by the list of headers they encode, codecs by their inverse, the flow cache by an
unbounded reference, the registry and the sign-in by the invariants of every run. Beside that, the `*Wire`, `FlowSources`, `FlowHistory`,
`RegistryRuns` and `SignInLaws` files say the same operations a second time in terms of nothing but bytes, addresses and past events, with every
number written out: which packets leave or arrive and as which bytes, who is delivered under which address, which transport
a device has after a run, what a request answers.

A transport checksum is *valid* when the sum over the pseudo-header and the transport bytes, the stored field included, folds to
0xffff. That says nothing about a stored UDP checksum being non-zero.

## What the proofs found

The code is modelled as it is. Where it does less than its comments or the standards it follows promise, one lemma says exactly
when, and another gives a packet, a message or a run for which it happens.

- `OutboundSource`, `OutboundSourceExists`: ClientToTun is documented to leave the CLAT address as source
  (internal/clatxlat/clatxlat.go:104-105). A TCP, DCCP or UDP packet that ends inside its transport header leaves with the
  prefix-mapped placeholder instead, because NAT66 returns early.
- `InboundDestination`, `InboundDestinationExists`: TunToClient is documented to deliver to 192.0.0.1
  (internal/clatxlat/clatxlat.go:159-160). For the same reason such a packet is delivered to the last four bytes of the CLAT
  address.
- `OverrunNeedsTrailingBytes`, `OverrunExists`: an ICMP error whose packet is followed by bytes in the buffer can pass the
  quote's length test with those bytes and then index past the packet. A buffer that ends with the packet never gets there.
- `OutboundUdpZero`, `OutboundUdpZeroWhole`, `OutboundUdpZeroExists`: no checksum 0x0000 is turned into 0xffff, so a datagram or
  first fragment can leave with the zero checksum that section 8.1 of RFC 8200 forbids.
- `InboundTransport`, `InboundKeepsValidity`, `InboundInvalidExists`, `InboundHiddenExists`: SIIT64 takes no account of the upper
  twelve bytes of the source, and NAT66 looks past no extension header but one leading fragment header. A valid packet
  arrives valid exactly if those twelve bytes, and where NAT66 does not look also the exchange of the destination, sum to a
  multiple of 65535. `InboundIcmp`: for ICMPv6 the latter decides whether the message is translated at all.
- `InboundTotalLength`, `InboundTotalLengthExists`: the IPv4 length field wraps for payloads above 65515 bytes. The bridge never
  hands such a packet to the translator: it drops everything above 1420 bytes (cmd/era-ocserv/bridge.go:206-229).
- `OutboundComesBack`, `InboundComesBack`, `ComesBackNot`: the Parameter Problem made of a Protocol Unreachable carries pointer
  6, and SIIT64 declines a Parameter Problem of that code unless its pointer is 0; only SIIT46 insists on a zero unused word.
- `SecondPromotion`, `SecondPromotionExists`, `ReplacedNeverResolves`, `ExpiredNeverPublished`: a second sign-in on a row leaves
  the old token key in the table. The key still leads to the row, but neither the old token nor an expired row is ever revived
  by it. (The comment at internal/cstp/cookie.go:24-26 says a row is removed by CONNECT; the code keeps and refreshes it.)
- `Interleave`, `SeparatedConnect`, `SeparatedDisconnect`: with each handler as one step the registry keeps its invariant. At the
  granularity of its map operations and locks, a connect or an admission that overlaps with a disconnect or an eviction can
  lose a key of its device, for every interleaving and every state exactly as `Interleave` says.
- `AnnounceOk`, `AdmitAcrossRemove`: a new session enters the table before the bridge hears of it. If it is removed in between,
  and only then, it serves its device although it is detached.

## Model

| member | source | states |
|---|---|---|
| OnesComplement.FoldCanonical | internal/clat/nat.go:114-124 | Folding is canonical modulo 65535: two non-zero sums fold to the same word exactly when they are congruent. |
| OnesComplement.ChecksumCanonical | internal/clat/siit46.go:468-472 | A checksum is 0 only for all-zero bytes and 0xffff exactly for non-zero sums that are multiples of 65535. |
| OnesComplement.PseudoCombine | internal/clat/siit64.go:415-422 | Combining the checksums of addresses, length, protocol and transport bytes folds the plain sum over all of them. |
| OnesComplement.UpdatedIsRecomputed | internal/clat/nat.go:114-124 | The delta update gives what recomputing the checksum gives; the two differ exactly in the one case where the field was 0xffff, every old word 0xffff and every new one 0. |
| OnesComplement.UpdatedSaturates | internal/clat/nat.go:114-124 | An update yields 0xffff exactly in that case. |
| OnesComplement.UpdateRoundTrip | internal/clat/nat.go:114-124 | Updating for A to B and then for B to A restores the field, except that a stored 0xffff comes back as 0x0000. |
| Nat66.NatPartialUpdateChecksum | internal/clat/nat.go:114-124 | The in-place word-by-word loop writes exactly the checksum the one-fold update rule gives, and nothing else. |
| Nat66.RepairTransport | internal/clat/nat.go:15-71 | Repairs the checksum a transport carries over the addresses, if any, and reports a header that is cut off without touching it. |
| Nat66.NAT66InPlaceTranslateAddress | internal/clat/nat.go:9-73 | In the buffer, one address of the packet and the checksum that covers it change; bytes before the packet never do; a packet below 40 bytes is left alone. |
| Nat66Theorems.RewriteKeepsValidity | internal/clat/nat.go:9-73 | Rewriting an address keeps a valid transport checksum valid and an invalid one invalid, and changes only the address and the checksum word. |
| Nat66Theorems.RewriteRoundTrip | internal/clat/nat.go:9-73 | Rewriting an address and rewriting it back restores every byte of any packet, except a touched checksum 0xffff. |
| Nat66Theorems.RewriteTakesEffect | internal/clat/nat.go:17-19 | The address changes exactly when no checksum that is due is cut off. |
| Nat66Theorems.RewriteBytes | internal/clat/nat.go:9-73 | What a rewrite changes, by literal offsets: nothing if the header of a TCP, UDP, DCCP or ICMPv6 payload is cut off below 20, 8, 12 or 8 bytes; else the address and at most bytes 16-17, 6-7, 6-7 or 2-3 of it, which then hold exactly the old word moved by the change of address. |
| Nat66Theorems.RewriteOther | internal/clat/nat.go:42-62 | Behind a fragment header that is not a first one only the address changes; if that header is cut off, nothing does. |
| Siit46.MakeRoomForIPv6Header | internal/clat/siit46.go:381-413 | Fails, changing nothing, exactly when the headroom is short or the 8-bit offset would wrap or the buffer ends; otherwise saves the old header right before the new packet, disjoint from it, with the payload unmoved, so the second guard never fires. |
| Siit46.TranslateHeader | internal/clat/siit46.go:71-103 | Writes the IPv6 header, and the fragment header if there is one, from the saved IPv4 header. |
| Siit46.UpdateTransportChecksum | internal/clat/siit46.go:301-362 | Repairs, fills in or refuses the transport checksum as the payload specification says, and changes nothing else. |
| Siit46Quote.TranslateIcmpErrorQuote | internal/clat/siit46.go:197-299 | The in-place expansion of a quoted packet, with its 20-byte move to the left, equals the specified message, or changes nothing, or is the index out of range. |
| Siit46Icmp.PlateauIsLargest | internal/clat/siit46.go:140-149 | The MTU taken from the table is the largest plateau below the quoted length that is at least the IPv4 minimum, and 0 exactly when there is none. |
| Siit46Icmp.FindPlateau | internal/clat/siit46.go:140-149 | The loop over the table finds it. |
| Siit46Icmp.TranslateIcmpHead | internal/clat/siit46.go:105-182 | The first eight bytes of an ICMPv4 message are rewritten in place to those of the ICMPv6 one. |
| Siit46Packet.SIIT46InPlaceTranslate | internal/clat/siit46.go:39-69 | The whole in-place translation leaves in the buffer, at the returned offset, exactly the packet the specification gives, or is untranslated, dropped or crashed exactly when the specification is. |
| Siit64.WalkExtensionHeaders | internal/clat/siit64.go:457-483 | The loop terminates and equals the recursive walk. |
| Siit64.FastPath | internal/clat/siit64.go:387-413 | Without extension headers the walk is the test for forbidden protocols. |
| Siit64.ParsePacket | internal/clat/siit64.go:366-413 | Decides translatability, by either path, as specified. |
| Siit64.ParseIcmp | internal/clat/siit64.go:415-422 | The combined checksum test is validity over the pseudo-header. |
| Siit64.MakeRoomForIPv4Header | internal/clat/siit64.go:336-364 | Fails, changing nothing, exactly when the headroom is below 20 or the buffer too short; otherwise saves the old headers right before the new packet with the payload unmoved, so the second guard never fires. |
| Siit64.TranslateHeader | internal/clat/siit64.go:87-109 | Writes the IPv4 header although the fragment header it reads lies where that header goes. |
| Siit64.SealHeader | internal/clat/siit64.go:87-109 | Fills in the header checksum. |
| Siit64Icmp.TranslateIcmpHead | internal/clat/siit64.go:115-174 | The first eight bytes of an ICMPv6 message are rewritten in place to those of the ICMPv4 one. |
| Siit64Icmp.TranslateIcmpTransport | internal/clat/siit64.go:115-284 | The message, its quote moved up by 20 bytes in place, equals the specified message. |
| Siit64Packet.UpdateTransportChecksum | internal/clat/siit64.go:286-334 | Repairs the transport checksum for the saved destination prefix, as specified. |
| Siit64Packet.SIIT64InPlaceTranslate | internal/clat/siit64.go:49-85 | The whole in-place translation leaves exactly the packet the specification gives, and touches nothing when it declines. |
| WalkTheorems.WalkComplete | internal/clat/siit64.go:457-483 | Every list of well-formed extension headers, encoded, is walked to its end and its fragment header found. |
| WalkTheorems.WalkSound | internal/clat/siit64.go:457-483 | Whatever the walk accepts is the encoding of such a list, ending at a protocol that is not forbidden. |
| WalkTheorems.ParsedLengths | internal/clat/siit64.go:387-413 | The payload of an accepted packet starts on a multiple of 8 inside it, and headers and payload add up to the declared length. |
| Clatxlat.Translator.ClientToTun | internal/clatxlat/clatxlat.go:115-128 | IPv6 passes unchanged, IPv4 is translated in a scratch buffer, anything else is declined. |
| Clatxlat.Translator.TranslateOutbound | internal/clatxlat/clatxlat.go:131-152 | SIIT46 and then NAT66 in one buffer give the specified packet; what does not translate fails closed. |
| Clatxlat.Translator.TunToClient | internal/clatxlat/clatxlat.go:165-188 | NAT66 and then SIIT64 in one buffer give the specified packet, or nothing. |
| OutboundTheorems.Bumped46Is | internal/clat/siit46.go:364-379 | With the checksum-neutral prefix the delta changes only a stored 0xffff. |
| OutboundTheorems.Repaired46 | internal/clat/siit46.go:301-379 | SIIT46 leaves a checksum that is valid over the IPv6 addresses exactly when it was valid over the IPv4 ones or was missing. |
| OutboundTheorems.OutboundTransport | internal/clatxlat/clatxlat.go:131-152 | An unfragmented TCP, DCCP or UDP packet with a full header leaves with the CLAT source, the mapped destination, TOS and TTL, every transport byte but the checksum unchanged, and, through both updates, a valid checksum exactly when it came valid or without one. |
| OutboundTheorems.OutboundIcmp | internal/clatxlat/clatxlat.go:131-152 | An ICMP message leaves as the specified ICMPv6 message between the right addresses with a valid checksum, of the same length or 20 bytes longer. |
| OutboundTheorems.OverrunNeedsTrailingBytes | internal/clat/siit46.go:258-262 | The index out of range happens exactly for an error whose quote passes the tests but ends with the packet too early; then bytes trail the packet. |
| OutboundTheorems.OutboundSource | internal/clat/nat.go:15-29 | The source becomes the CLAT address exactly when the transport header is not cut off. |
| OutboundWire.ExactlyLeaves | internal/clat/siit46.go:415-569 | Which packets ClientToTun sends, exactly, in the bytes: IPv6, and IPv4 with consistent lengths, the reserved flag clear, none of ten protocols, a valid header checksum, permitted options, whole units in all but a last fragment, a checksum in a first UDP fragment, and for ICMP an unfragmented valid message of the listed types and codes with the listed zero fields. |
| OutboundWire.RoomExact | internal/clat/siit46.go:381-413 | For every headroom: dropped exactly if it is below 40 (or 48 for a fragment) or the saved header would lie beyond offset 255, and otherwise the same packet. |
| OutboundWire.LeavesAs | internal/clatxlat/clatxlat.go:131-152 | The bytes any packet that is not ICMP leaves as: fixed and fragment header byte by byte, mapped destination, CLAT source unless it ends early, and every payload byte but 16-17 of a first TCP and 6-7 of a first UDP or DCCP one. |
| OutboundWire.LeavesSummed | internal/clat/siit46.go:301-379 | The word there: never 0xffff, and the one that came, moved by the change of source; or, if UDP came without one, the one that makes the datagram valid. |
| OutboundWire.LeavesAsMessage | internal/clat/siit46.go:105-299 | The bytes any ICMP message leaves as: type, code, pointer and MTU (with the plateau table) as literals for every type and code, a valid checksum, and the same bytes behind, or the quote as the IPv6 header it becomes, byte by byte, and what it quotes. |
| FragmentTheorems.OutboundPacket | internal/clat/siit46.go:71-103 | The packet a datagram, or any fragment of one, leaves as. |
| Reassembly.ReassemblyUnique | internal/clat/siit46.go:78-97 | Pieces reassemble to at most one datagram, so that reassembly is well defined. |
| FragmentTheorems.FragmentCommutes | internal/clat/siit46.go:78-97 | A fragment leaves with the same addresses as the whole, its offset, more-fragments flag and identification carried over, and the bytes the whole leaves with at that offset. |
| FragmentTheorems.ReassemblyCommutes | internal/clat/siit46.go:301-348 | However a datagram is fragmented, in any order and with any overlap, translating the fragments and reassembling gives the transport bytes of translating the whole. |
| FragmentTheorems.FragmentsMeet | internal/clat/nat.go:15-29 | A first fragment leaves from the same source as the others exactly if its transport header is not cut off (or the two sources are the same). |
| InboundTheorems.SealedHeadValid | internal/clat/siit64.go:87-109 | Every IPv4 header the translator makes has a valid checksum. |
| InboundHeaders.CoverageOf | internal/clat/nat.go:15-71 | Which checksum NAT66 maintains, in terms of the headers SIIT64 walks: that of the transport if it stands behind the fixed header or behind one leading fragment header of a first fragment, else none. |
| InboundHeaders.HeadersAlike | internal/clat/nat.go:9-73 | NAT66 leaves the headers of every packet as SIIT64 reads them. |
| InboundTheorems.TranslateParsed | internal/clat/siit64.go:49-85 | How a packet with any extension headers is translated. |
| InboundTheorems.Bumped64Exact | internal/clat/siit64.go:319-334 | SIIT64's own checksum update for any destination prefix takes what the prefix contributed out of the sum; 0xffff comes out only where it was and the prefix contributes nothing. |
| InboundTheorems.Repaired64 | internal/clat/siit64.go:286-334 | So, for any addresses, the sum over the IPv4 packet is the one over the IPv6 packet without the upper twelve bytes of the source. |
| InboundTheorems.InboundPacket | internal/clatxlat/clatxlat.go:165-188 | Every packet whose headers parse and that is not ICMP arrives, with the stated header and payload. |
| InboundTheorems.InboundDestination | internal/clatxlat/clatxlat.go:157-163 | Whatever arrives comes from the last four bytes of its source, and goes to the placeholder exactly if NAT66 did not find its checksum cut off. |
| InboundTheorems.InboundHeader | internal/clat/siit64.go:87-109 | Its header is valid and carries over traffic class, hop limit, protocol and fragment fields, for every protocol. |
| InboundTheorems.InboundTransport | internal/clatxlat/clatxlat.go:165-188 | An unfragmented TCP, DCCP or UDP packet with any extension headers and a full transport header arrives with a valid header and every transport byte but the checksum unchanged; its checksum is valid exactly when the sum it came with is, less the upper twelve bytes of its source and, where NAT66 does not see the transport, with the destination exchanged. |
| InboundTheorems.InboundKeepsValidity | internal/clat/siit64.go:319-334 | From 64:ff9b::/96, where NAT66 sees the transport, a packet arrives valid exactly when it was sent valid; and any valid one arrives valid exactly when what is lost on the way sums to a multiple of 65535. |
| InboundTheorems.InboundIcmp | internal/clat/siit64.go:415-422 | An ICMPv6 message with any extension headers is translated exactly when it is whole, its type and code translate, and its checksum is valid with the destination exchanged where NAT66 does not see it: where it does, exactly when it came valid. What arrives is the translation of what was sent. |
| InboundWire.SpelledParses | internal/clat/siit64.go:387-413 | Every packet made of well-formed extension headers, a payload that may follow them, and whole units in all but a last fragment, parses, with the fragment fields its bytes say. |
| InboundWire.ParsesSpelled | internal/clat/siit64.go:387-413 | Every packet that parses is so made. |
| InboundWire.ExactlyArrives | internal/clat/siit64.go:366-496 | Which packets TunToClient delivers, exactly: those, and of ICMPv6 the unfragmented messages of the listed types and codes with the listed zero fields whose sum, with the destination exchanged where NAT66 misses it, is a multiple of 65535. |
| InboundWire.RoomExact | internal/clat/siit64.go:336-364 | For every headroom: nothing below 20, and the same packet from there on. |
| InboundWire.ArrivesAs | internal/clatxlat/clatxlat.go:165-188 | The bytes any packet that is not ICMPv6 arrives as: header byte by byte with a valid checksum, addresses, and every payload byte but 16-17 of TCP and 6-7 of UDP and DCCP where NAT66 sees them, which hold exactly the old word moved by the change of destination. |
| InboundWire.ArrivesAsMessage | internal/clat/siit64.go:115-284 | When an ICMPv6 message arrives and the bytes it arrives as: type, code, pointer and MTU as literals for every type and code, a valid checksum, and the same bytes behind, or the quote as the IPv4 header it becomes, byte by byte, what it quotes, and zeros. |
| InboundFragments.FragmentArrives | internal/clat/siit64.go:87-109 | A fragment arrives between the same addresses as the whole, with its offset and flag and the low half of its identification, and the bytes the whole arrives with at that offset. |
| InboundFragments.ReassemblyArrives | internal/clat/siit64.go:286-334 | However a packet with any extension headers is fragmented, in any order and with any overlap, translating the fragments and reassembling gives the transport bytes of translating the whole. |
| InboundFragments.FragmentsMeet | internal/clat/nat.go:15-29 | A first fragment arrives at the same destination as the others exactly if NAT66 finds its checksum (or the two destinations are the same). |
| ReflectionTheorems.RewriteReflected | internal/clat/nat.go:9-73 | Rewriting the source, turning the packet around and rewriting the destination back restores it, up to the checksum alias. |
| ReflectionTheorems.Reflection | internal/clatxlat/clatxlat.go:131-188 | A packet from the placeholder that is not ICMP goes out, and turned around comes back as itself with the addresses swapped: same TOS, TTL, protocol, fragment offset, flag and identification, same payload, for every length of transport header; only options, DF, a fresh identification, a filled-in UDP checksum and the alias differ. |
| ReflectionTheorems.ReflectionEcho | internal/clatxlat/clatxlat.go:131-188 | The same for ICMP echo. |
| QuoteTheorems.OutboundQuote | internal/clat/siit46.go:197-299 | The quote of an outbound error either grows by exactly 20 into the mapped IPv6 packet with the captured TCP or UDP bytes untouched (an echo with its type and a valid checksum), or neither it nor the length changes. |
| QuoteTheorems.InboundQuote | internal/clat/siit64.go:183-284 | The quote of an inbound error becomes the IPv4 packet it stands for, with a valid header, the captured bytes and 20 zeros, or stays; the message's length never changes and its checksum is valid. |
| QuoteTheorems.MtusInverse | internal/clat/siit64.go:136-139 | The two MTU translations undo each other exactly on 1260..1400 and 1280..1420. |
| QuoteTheorems.MtuThereAndBack | internal/clat/siit46.go:130-155 | A Fragmentation Needed message translated there and back reports its MTU moved into 1260..1400. |
| QuoteTheorems.PointersComeBack | internal/clat/siit46.go:160-181 | A pointer comes back pointing at the start of the field it pointed into, in both directions. |
| QuoteTheorems.OutboundComesBack | internal/clat/siit64.go:424-448 | A translated ICMPv4 message would translate back, exactly unless it was a Protocol Unreachable. |
| QuoteTheorems.InboundComesBack | internal/clat/siit46.go:474-528 | A translated ICMPv6 message would translate back, exactly if the unused word of an unreachable or time-exceeded message is zero. |
| QuoteTheorems.ComesBackNot | internal/clat/siit64.go:424-448 | A message each way that does not come back. |
| InboundWire.CodesOutAndBack | internal/clat/siit46.go:105-182 | The type and code of every ICMPv4 message after leaving and coming back: no-route unreachables come back as host unreachable, prohibited ones as 3/10, Port Unreachable, Fragmentation Needed, Time Exceeded and echoes as themselves, and only a Protocol Unreachable does not. |
| InboundWire.CodesInAndBack | internal/clat/siit64.go:115-174 | The same for every ICMPv6 message: as itself, but for 1/2 and 1/3, which come back as 1/0, provided an unused word was zero. |
| EdgeTheorems.OutboundSourceExists | internal/clat/nat.go:15-29 | A packet that leaves with another source than the CLAT address. |
| EdgeTheorems.OutboundUdpZero | internal/clat/siit46.go:301-379 | No datagram or first fragment leaves with the checksum 0xffff; it leaves with 0x0000 exactly when its checksum word and the change of source sum to a multiple of 65535. |
| EdgeTheorems.OutboundUdpZeroWhole | internal/clat/siit46.go:301-379 | For a whole datagram that came valid or without a checksum: exactly when its other words do, as it leaves. |
| EdgeTheorems.OutboundUdpZeroExists | internal/clat/siit46.go:301-379 | A concrete datagram for which it does. |
| EdgeTheorems.OverrunExists | internal/clat/siit46.go:258-262 | A concrete packet for which the translator indexes out of range. |
| EdgeTheorems.InboundLength | cmd/era-ocserv/bridge.go:206-238 | What reaches the client is as long as what came, less the headers that go, plus 20. |
| EdgeTheorems.InboundTotalLength | internal/clat/siit64.go:90 | The IPv4 length field of whatever arrives is right exactly up to a payload of 65515 bytes, and wraps above. |
| EdgeTheorems.InboundTotalLengthExists | internal/clat/siit64.go:90 | A packet for which it wraps. |
| EdgeTheorems.InboundInvalidExists | internal/clat/siit64.go:319-334 | A valid datagram from outside the prefix that arrives invalid. |
| EdgeTheorems.InboundHiddenExists | internal/clat/nat.go:15-71 | A valid datagram from the prefix behind a hop-by-hop header that arrives invalid. |
| EdgeTheorems.InboundDestinationExists | internal/clat/nat.go:15-29 | A packet that arrives at another address than the placeholder. |
| PacketTooBig.MessageChecksumSeals | internal/icmp6/icmp6.go:57-66 | The checksum summed up around its own field makes the message valid. |
| PacketTooBig.BuildPacketTooBig | internal/icmp6/icmp6.go:32-68 | A valid Packet Too Big of at most 1280 bytes, quoting as much as fits. |
| PacketTooBig.PacketTooBigFor | internal/icmp6/icmp6.go:76-85 | It is built exactly for sources worth telling that are not the destination itself. |
| PacketTooBig.NoticeBytes | internal/icmp6/icmp6.go:32-69 | The message by its bytes: 58, hop limit 64, type 2, at most 1232 quoted bytes, a sum that is a multiple of 65535. |
| PacketTooBig.NotifiableBytes | internal/icmp6/icmp6.go:76-85 | Whom to tell, by the bytes of the address. |
| ProxyUdp.WriteHeaderV2UDP | internal/proxyproto/udp_listener.go:466-499 | Appends the header, or fails across address families. |
| ProxyUdp.HeaderRoundTrip | internal/proxyproto/udp_listener.go:411-499 | A written header is parsed, before any payload, to the announced source under the same key. |
| ProxyUdp.HeaderExact | internal/proxyproto/udp_listener.go:411-459 | Every accepted announcement without TLVs, between addresses that are not IPv4-mapped, is the header that would be written for them. |
| FlowCache.UDPListener.constructor | internal/proxyproto/udp_listener.go:119-142 | The cache starts valid and empty. |
| FlowCache.UDPListener.Lookup | internal/proxyproto/udp_listener.go:269-286 | The announced address of a fresh flow, refreshed; an idle one is dropped. |
| FlowCache.UDPListener.ReverseLookup | internal/proxyproto/udp_listener.go:241-261 | The kernel address behind an announced address, likewise. |
| FlowCache.UDPListener.Remember | internal/proxyproto/udp_listener.go:292-343 | Caches or renews an announcement in both maps and the list, evicting from the back until there is room. |
| FlowCache.UDPListener.RemoveEntry | internal/proxyproto/udp_listener.go:347-353 | Takes one entry out of the list and both maps. |
| FlowCache.UDPListener.EvictIdle | internal/proxyproto/udp_listener.go:365-380 | Drops from the back up to the first fresh entry. |
| FlowCache.UDPListener.ReadFrom | internal/proxyproto/udp_listener.go:156-219 | Delivers the next datagram worth delivering, skipping those that are only a header, or the socket's error; each lookup and each announcement at its own reading of the clock. |
| FlowCache.UDPListener.WriteTo | internal/proxyproto/udp_listener.go:231-236 | Translates the destination of a reply. |
| FlowLists.OrderedMeans | internal/proxyproto/udp_listener.go:292-343 | What the order invariant says, place by place: keys distinct, sorted by last use, none after now. |
| FlowTheorems.OverflowEvictsOldest | internal/proxyproto/udp_listener.go:320-327 | On overflow exactly one flow goes, and none was last seen before it. |
| FlowTheorems.EvictIdleExact | internal/proxyproto/udp_listener.go:365-380 | Stopping at the first fresh entry removes exactly the idle flows and their announced keys. |
| FlowTheorems.RememberExact | internal/proxyproto/udp_listener.go:320-342 | The cache after a first announcement: the new flow in front, the last one gone if there was no room, and with it exactly the keys that stood for it. |
| FlowTheorems.RenewExact | internal/proxyproto/udp_listener.go:300-319 | The cache after a renewed announcement: the flow refreshed in front, its announced address and key replaced if another one was announced, and its stale key forgotten if it stood for it. |
| FlowTheorems.EveryRun | internal/proxyproto/udp_listener.go:241-380 | After every run under a clock that does not go back: sorted, bounded, one flow for each source, every announced key standing for a live flow that announces it. |
| FlowTheorems.ReadIsRun | internal/proxyproto/udp_listener.go:156-219 | A read is a run over the datagrams that are nothing but a header, and then delivers the next one, fails with the socket, or finds nothing more. |
| FlowRefinement.BoundedAnswersAsUnbounded | internal/proxyproto/udp_listener.go:269-343 | Over every run, as long as each source used is new, idle or among the most recently used, every delivery and every reply address is that of a reference that never forgets. |
| FlowSources.KeyExact | internal/proxyproto/udp_listener.go:385-398 | Two addresses have the same key exactly if they are the same IP address, IPv4 in either form, and the same port of 16 bits. |
| FlowSources.SaidIs | internal/proxyproto/udp_listener.go:411-462 | What a datagram says, for every byte string, with the numbers of the protocol. |
| FlowSources.WrittenBytes | internal/proxyproto/udp_listener.go:466-498 | When there is a header for two addresses, and its bytes. |
| FlowHistory.ReferenceShows | internal/proxyproto/udp_listener.go:156-380 | Over every run, with flows that go idle, the reference that never forgets shows on each event what the past of its source says: announced when, refreshed by which datagrams and replies, replaced by which announcement. |
| FlowHistory.AnswersExact | internal/proxyproto/udp_listener.go:156-380 | So does the bounded cache, as long as each source used is new, idle or among the most recently used. |
| FlowHistory.SourcesExact | internal/proxyproto/udp_listener.go:156-380 | In particular over every run no longer than the cache is large. |
| FlowHistory.OwnSourceOnly | internal/proxyproto/udp_listener.go:156-380 | Over every run no longer than the cache is large and a flow may be idle: each datagram is delivered under the first source announced by a datagram of its own address and port, and each reply goes to where the last source to announce its destination sends from; what others send counts for nothing. |
| FlowSources.EveryRunHonest | internal/proxyproto/udp_listener.go:156-380 | Over every run at all: a datagram is delivered under its own address or one that a datagram of the same address and port announced, and a reply goes to the address it names or to the sender of a datagram that announced that one. |
| FlowSources.PauseForgets | internal/proxyproto/udp_listener.go:269-286 | After any run and a pause longer than the timeout everything is as at the start. |
| Tlv.EncodeTLVs | internal/udshandoff/datagram_listener.go:328-341 | Appends the records, or fails for a value too long. |
| Tlv.DecodeTLVs | internal/proxyproto/tlv.go:163-199 | The loop gives the records or the first error; the trailing-garbage return is unreachable. |
| Tlv.DecodeExact | internal/proxyproto/tlv.go:163-199 | A block is accepted with given records exactly when it is their encoding, no type occurs twice and none is reserved. |
| CodecWire.FailsAt | internal/proxyproto/tlv.go:163-199 | Behind any records that may stand there, a block fails at the first record that is wrong, with that offset and that error: cut off, then duplicate, then reserved. |
| HeaderV2.Encode | internal/proxyproto/reader.go:261-304 | Writes the header, its length field modulo 65536. |
| HeaderV2.EncodeRead | internal/proxyproto/reader.go:156-304 | A header that exists on the wire is read back from its encoding, and nothing behind it is consumed. |
| HeaderV2.ReadEncode | internal/proxyproto/reader.go:156-304 | Every header read is re-encoded to the bytes it was read from. |
| HeaderV2.RoundTripExact | internal/proxyproto/reader.go:156-304 | A header survives the round trip exactly when its family is supported, its addresses are of that family, its records admissible, and everything fits 16 bits. |
| CodecWire.HeaderRead | internal/proxyproto/reader.go:156-304 | A stream is read as a header and a rest exactly when it is the bytes of the header, written out, and the rest. |
| CodecWire.HeaderErrors | internal/proxyproto/reader.go:156-245 | The error of every stream that is not, by the first thing wrong in it. |
| CodecWire.WrittenAs | internal/proxyproto/reader.go:261-304 | What every header is written as, byte by byte, or the error: its family first, then its records, then its addresses; a length that does not fit wraps. |
| Datagram.WriteReply | internal/udshandoff/datagram_listener.go:259-283 | Fills the reply frame by offset, or fails as specified. |
| Datagram.DecodedBytes | internal/udshandoff/datagram.go:134-199 | The declared bytes of a decoded datagram are those that would be written for its frame. |
| Datagram.ReplyRoundTrip | internal/udshandoff/datagram_listener.go:259-283 | Every reply to a decoded datagram carries the inbound envelope byte for byte, wraps no length, and decodes to the same inner header and records, the other direction and the reply's payload; it fails only by size. |
| CodecWire.FrameExact | internal/udshandoff/datagram.go:134-199 | A datagram decodes to a frame exactly when it begins with the bytes of that frame, written out, in at most 65536 bytes: in either direction, whatever trails it. |
| CodecWire.FrameErrors | internal/udshandoff/datagram.go:134-190 | The error of every datagram that does not decode, by the first thing wrong in it. |
| CodecWire.ReplyBytes | internal/udshandoff/datagram_listener.go:259-283 | The bytes of a reply, or that they exceed 65536. |
| Registry.KeyedInstalled | cmd/era-ocserv/bridge.go:128-164 | Registering a client under both keys of its device leaves every other device where it was. |
| Registry.KeyedRemoved | cmd/era-ocserv/bridge.go:170-178 | So does removing it from both. |
| Registry.Bridge.LoadOrCreateClient | cmd/era-ocserv/bridge.go:128-137 | The client stored under an address, or a new one. |
| Registry.Bridge.InstallCLAT | cmd/era-ocserv/bridge.go:146-164 | Sets the translator once and adds the second key unless it is taken. |
| Registry.Bridge.DeregisterKeys | cmd/era-ocserv/bridge.go:170-178 | Removes a client from its keys, and only keys that lead to it. |
| Registry.Bridge.Connect | cmd/era-ocserv/bridge.go:278-317 | Its device has the fresh tunnel alone and is registered under both keys; every other device is as it was; every invariant of aliased clients and keys is kept. |
| Registry.Bridge.Disconnect | cmd/era-ocserv/bridge.go:319-332 | Its device loses the tunnel if it still had it, and nothing else; it stays registered, under both keys, exactly if a transport is left; every other device is as it was. |
| Registry.Bridge.OnAdmit | cmd/era-ocserv/bridge.go:357-373 | The new session becomes its device's, beside the tunnel there was; the device is registered under both keys; every other device is as it was. |
| Registry.Bridge.OnEvict | cmd/era-ocserv/bridge.go:379-398 | Its device loses the session if it still had it, and nothing else; it stays registered, under both keys, exactly if a transport is left; every other device is as it was. |
| Registry.Bridge.PumpPacket | cmd/era-ocserv/bridge.go:180-246 | A packet goes over the preferred transport of the device that owns its destination, translated exactly for the CLAT address; oversize packets give a Packet Too Big; nothing above 1400 bytes reaches a client. |
| Registry.PumpedMeans | cmd/era-ocserv/bridge.go:180-246 | The same with the numbers written out: 1400 bytes for a native address and 1420 for a CLAT one, DTLS before CSTP, 192.0.0.1. |
| RegistryRace.Interleave | cmd/era-ocserv/bridge.go:278-398 | One arrival (a connect or an admission) and one departure (a disconnect or an eviction) of a device, each map operation and critical section a step, in any interleaving: the arrival misses its native key exactly when the departure empties the client before the arrival puts its transport there and removes the key after the client was loaded, and its CLAT key exactly when the departure empties the client and removes that key after it was installed. |
| RegistryRace.SeparatedConnect | cmd/era-ocserv/bridge.go:281-285 | A connect that loses its native key to an eviction, from a device with that session alone or with none. |
| RegistryRace.SeparatedDisconnect | cmd/era-ocserv/bridge.go:170-178 | A connect that loses its CLAT key to a disconnect. |
| RegistrySpec.StepOk | cmd/era-ocserv/bridge.go:278-398 | Every step of connect, disconnect, admission, removal and eviction pass keeps: registered devices have a transport of their own, and sessions in egress are in the table, attached and were never retired. |
| RegistrySpec.AnnounceOk | internal/dtlsuds/listener.go:417-426 | Telling the bridge of a session keeps that exactly when the session is in the table, and not retired, by then. |
| RegistrySpec.EveryRun | cmd/era-ocserv/bridge.go:278-398 | After every run of such steps a registered device has a transport, and a session chosen for it is its own, in the table under its own key, and attached. |
| RegistrySpec.SupersededNeverChosen | cmd/era-ocserv/bridge.go:286-297 | A session superseded by a fresh connect is never chosen again, whatever follows. |
| RegistryRuns.TunnelExact | cmd/era-ocserv/bridge.go:278-332 | After every run a device has exactly the tunnel that connected last for it, for as long as that has not disconnected. |
| RegistryRuns.SessionExact | cmd/era-ocserv/bridge.go:278-398 | After every run a device has exactly the session that started last for it, for as long as the device has not connected anew and the session has neither left nor been evicted. |
| RegistryRuns.TableExact | internal/dtlsuds/table.go:104-227 | After every run the table holds under each key the session that arrived when it held none, until that left or was evicted. |
| RegistryRuns.DisconnectedNeverChosen | cmd/era-ocserv/bridge.go:319-332 | A tunnel that has disconnected is never chosen again, for any device, unless it connects anew. |
| RegistryRuns.GoneNeverChosen | cmd/era-ocserv/bridge.go:379-398 | A session that has left or was evicted is never chosen again, for any device. |
| RegistryRuns.KeyExact | internal/dtlsuds/listener.go:519-526 | Two 4-tuples are one session exactly if both addresses, unmapped, and both ports agree. |
| SessionTable.Table.Connect | cmd/era-ocserv/bridge.go:278-317 | The bridge's connect beside the table is the abstract step: bridge, table, sessions and history still agree. |
| SessionTable.Table.Disconnect | cmd/era-ocserv/bridge.go:319-332 | So is its disconnect. |
| SessionTable.Table.Handle | internal/dtlsuds/listener.go:338-436 | Refreshes the session of a 4-tuple, or admits a new one, which is the abstract arrival. |
| SessionTable.Table.EgressAttached | internal/dtlsuds/session.go:153-165 | Bridge and table, whatever steps they have taken, choose only sessions that are in the table and attached. |
| SessionTable.Table.Deliver | cmd/era-ocserv/bridge.go:180-246 | A packet from the TUN device that is to leave over DTLS does leave: never is the session found gone. |
| SessionTable.AdmitAcrossRemove | internal/dtlsuds/listener.go:417-426 | If a removal comes between the two halves of an admission, the session in egress is in the table and attached exactly unless it was the one removed. |
| SessionTable.Table.Remove | internal/dtlsuds/table.go:142-155 | Removes and detaches one session, here and in the registry: the abstract removal. |
| SessionTable.Table.ForwardPacket | internal/dtlsuds/listener.go:450-505 | Dispatches a plaintext by its type; only a disconnect changes the table and the registry, by removing the session. |
| SessionTable.Table.RunEvictionPass | internal/dtlsuds/table.go:212-227 | Removes and detaches exactly the idle sessions, one by one, which comes to the abstract pass. |
| CstpFrame.EncodeFrame | internal/cstp/frame.go:51-67 | Writes one frame to the front of a buffer, or nothing. |
| CstpFrame.ReadFrame | internal/cstp/frame.go:75-100 | Reads one frame into the buffers, whatever their sizes, with each error as it occurs. |
| CstpFrame.ReadWire | internal/cstp/frame.go:51-100 | A written frame is read back and nothing behind it is consumed. |
| CstpFrame.ReadIsWire | internal/cstp/frame.go:75-100 | What is read is a frame as it would be written. |
| CstpFrame.NeverShort | internal/cstp/tunnel.go:209 | The short-buffer error cannot occur with a buffer of 65535 bytes or more, and can with any smaller one. |
| CstpTunnel.Tunnel.CloseWithErr | internal/cstp/tunnel.go:171-180 | The first close decides the cause. |
| CstpTunnel.Tunnel.WriteFrame | internal/cstp/tunnel.go:356-388 | Appends one frame to the stream, or closes the tunnel. |
| CstpTunnel.Tunnel.ReadLoop | internal/cstp/tunnel.go:200-268 | The loop does what the specification over the stream says, also when the tunnel is closed from elsewhere at any frame, and always ends closed. |
| CstpTunnel.ClosingCutsShort | internal/cstp/tunnel.go:229-243 | Whenever that close comes, wherever it cuts the stream, and however the loop then chooses, what is queued and what is written are beginnings of what they would have been. |
| CstpTunnel.DemuxFrames | internal/cstp/tunnel.go:200-268 | For any list of frames: exactly the data payloads queued in order and one response for each request, up to the first frame that ends the tunnel, then that cause or the rest of the stream. |
| CstpTunnel.DemuxAll | internal/cstp/tunnel.go:200-268 | The same for a whole connection, the responses as the client reads them. |
| CstpTunnel.NeverBufferShort | internal/cstp/tunnel.go:209-220 | Whatever arrives, the loop ends, and never for a short buffer. |
| CstpWire.FrameFate | internal/cstp/tunnel.go:206-266 | What each frame at the front of a stream does, for every type byte: 0 queues, 3 is answered by 4 or fails to be, 5 and 9 end the tunnel as a disconnect and 8 as compressed, all others are skipped. |
| CstpWire.StreamFate | internal/cstp/frame.go:75-100 | Why every stream that does not begin with a whole frame ends it. |
| CstpWire.ClosingFate | internal/cstp/tunnel.go:200-268 | Frame by frame, with a close to come: as without it, until it comes with its cause. |
| CstpWire.ClosedFate | internal/cstp/tunnel.go:229-243 | Frame by frame, after the close: data is queued as long as the loop picks the queue, a request or an ending frame ends the loop, all others are skipped. |
| SignIn.SessionTable.NewOpaque | internal/cstp/cookie.go:66-81 | Adds a pre-auth row. |
| SignIn.SessionTable.Promote | internal/cstp/cookie.go:87-107 | Attaches user, device and token to a row and adds the token key. |
| SignIn.SessionTable.StashUsername | internal/cstp/cookie.go:114-123 | Stores the username in an unexpired row. |
| SignIn.SessionTable.LookupOpaque | internal/cstp/cookie.go:128-140 | Finds an unexpired row, reaping an expired one. |
| SignIn.SessionTable.LookupToken | internal/cstp/cookie.go:145-161 | The scan over the token keys finds the one row whose own token is presented, whichever key it meets first. |
| SignIn.SessionTable.DeleteLocked | internal/cstp/cookie.go:189-196 | Removes a row's opaque key and its current token key only. |
| SignIn.SessionTable.Touch | internal/cstp/cookie.go:180-187 | Pushes a row's expiry. |
| SignIn.SessionTable.HandleInit | internal/cstp/server.go:180-204 | An init adds a pre-auth row and nothing else. |
| SignIn.SessionTable.HandleAuth | internal/cstp/server.go:214-288 | One auth reply: prompt, refuse, or promote the row with the username stored in it. |
| SignIn.SessionTable.HandleConnect | internal/cstp/connect.go:35-55 | Looks up, resolves, refreshes, publishes. |
| SignInSpec.StepOk | internal/cstp/cookie.go:87-196 | Every handler keeps: a row with a token was verified, and every token key leads to the row it was minted for. |
| SignInSpec.FoundIsMinted | internal/cstp/cookie.go:145-161 | A token resolves only to the row it was minted for, while it is that row's token and the row is not expired. |
| SignInTheorems.EveryTunnelVerified | internal/cstp/connect.go:35-175 | On every run, the token a published tunnel was found by was minted in an earlier call, in which that row signed in with the username it still has and the verifier returned, for that username, the device the tunnel is for. |
| SignInTheorems.SecondPromotion | internal/cstp/cookie.go:87-107 | A second sign-in replaces the token and leaves the old key behind. |
| SignInTheorems.SecondPromotionExists | internal/cstp/cookie.go:87-107 | A run on which it does. |
| SignInTheorems.ReplacedNeverResolves | internal/cstp/cookie.go:145-161 | A replaced token never resolves again, on any run. |
| SignInTheorems.ExpiredNeverPublished | internal/cstp/cookie.go:128-196 | A row found expired once is never published again, on any run. |
| SignInLaws.ConnectExact | internal/cstp/connect.go:35-55 | A connect in every reachable state, exactly: with the token of a row that has not expired it publishes the device of that row, if it resolves, and the row then expires ttl later, all else unchanged; an expired row leaves both maps; any other cookie is refused. |
| SignInLaws.AuthExact | internal/cstp/server.go:214-288 | An auth reply in every state, exactly: outcome and table for each case of the row, its username, the reply and the verifier. |
| SignInLaws.StashExact | internal/cstp/cookie.go:114-123 | Only a row that lives takes a username, and nothing else changes. |
| SignInLaws.InitExact | internal/cstp/cookie.go:66-81 | A new row is found until ttl is over, and not after. |
| SignInLaws.TokenConnects | internal/cstp/cookie.go:87-187 | A token just minted connects to the device the verifier named until ttl is over, and is then good for ttl again. |

## Left out

- IPv4 options: whether they contain a source route or are malformed is the parameter `forbidden`; the option iterator is not part of this model.
- Fragment identifiers: the process-wide counter behind GenerateIPv4FragmentID is the parameter `freshId`.
- NAT44: not on the data path, and nothing beyond the proof of NAT66.
- Configurable MTUs: the package variables for the outbound MTUs have their default values.
- Sockets, TUN, HTTP, TLS, logging and metrics: writes succeed or fail as parameters say, and what is written is a value.
- Read buffers: PROXY v2 payloads are moved to the front of the caller's buffer in the original; here the payload is a value.
- Concurrency: in the flow cache and the sign-in each locked operation, or each handler, is one step; in the session table the two halves of an admission are apart, and in the registry every map operation and critical section of one arrival and one departure. Reading the CLAT address of a client and removing that key is one step, and so is setting its translator and installing the key.
- FragmentTheorems.ReassemblyCommutes: where a checksum is to be repaired, stated for first fragments with the full transport header; `FragmentsMeet` says that with a shorter one the fragments do not even keep common addresses, unless bytes trail it.
- InboundFragments.ReassemblyArrives: likewise.
- Registry.Bridge.Connect: closing the displaced tunnel is left to the caller, to which it is returned.
- Heartbeats, DPD timers and the refresh of DTLS bindings: not modelled.
- Table.RemoveAll and Table.LoadOrCreate: covered by the eviction of single sessions and by Handle.
- The writer of a CSTP tunnel: a connection takes a number of writes and then fails; a full data channel blocks the loop in the original, and only a close ends that wait.
- Random failures in newOpaque and promote: random identifiers are fresh and always available.
- XML, cookies, headers, DTLS key export and the resolver behind CONNECT: a request carries what the handler extracts, and resolving succeeds or not.
- Validation of single TLV values and the protocol matrix: tables checked branch by branch.
