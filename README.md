# routersim in Dafny

A verified model of the core of routersim, a small C++ simulator of an IPv4 router.
The simulator builds ICMP, TCP and UDP packets, parses them, and decides whether each
packet is forwarded and on which interface.

The model covers three parts of the program:

- **Header codecs** (`icmp.dfy`, `tcp.dfy`, `udp.dfy`, `ipv4.dfy`, `bytes.dfy`).
  - Each header is a datatype with a big-endian serialiser and a length-guarded parser.
  - A parser returns the all-zero header when the packet is too short.
  - Parsing a serialised header gives the header back.
  - `createHeader` fills in the documented defaults.
- **Checksums** (`checksum.dfy`).
  - The one's-complement Internet checksum of RFC 1071 is written as a specification function, `Checksum.Compute`.
  - The C++ loops are methods: the word-summing loop over a wrapping `uint32_t` accumulator, and the carry-folding loop. Each is proved equal to that function.
  - TCP and UDP start the accumulator from a pseudo-header sum. That shortcut is proved equal to checksumming the 12-byte pseudo-header of section 3.1 of RFC 793 followed by the segment.
  - Storing a checksum in its zeroed slot makes the receiver's checksum 0 (self-verification).
- **Packet builders** (`packet_builders.dfy`, `dotted_quad.dfy`).
  - `ipStringToInt` is the imperative round-by-round parser. It is proved to accept exactly the dotted quads and to return `a<<24 | b<<16 | c<<8 | d`.
  - `createIPHeader` writes the 20-byte IPv4 header of section 3.1 of RFC 791 with its checksum.
  - Each `build()` appends the transport header and payload and patches the transport checksum in place. It yields the empty packet when an address is not a dotted quad.
- **Routing and forwarding** (`routing_table.dfy`, `bits.dfy`, `internet_protocol.dfy`, `end_to_end.dfy`).
  - The routing table is a class whose `routes` sequence is appended to and re-sorted by `addRoute`. Its `Valid()` invariant is: sorted by mask, longest first, and every entry well formed.
  - `lookupRoute` is a first-match scan. Given the invariant, it is proved to be a longest-prefix match (section 5.2.4.3 of RFC 1812).
  - `parseCIDR` masks the written address with the prefix mask of section 3.1 of RFC 4632.
  - `parsePacket` and `simulateForwarding` are a function to an outcome: malformed (bad version, too short), or decoded and then forwarded on an interface or dropped (TTL expired, no route).
  - `initRoutingTable` is proved to build a fixed five-entry table. That table sends 127.0.0.0/8 to `lo` and every other destination to `wlan0`.
  - Every packet a builder produces is accepted by the parser, which reads back the headers the builder wrote.

Integers are the C++ fixed-width types, written as subset types `u8`, `u16` and `u32`. Where the C++ code truncates or wraps, the model says so explicitly:
- the `uint32_t` checksum accumulator (modulo 2^32);
- the `uint16_t` total-length and UDP-length parameters (modulo 2^16);
- the 32-bit left shift that builds a mask.

Bitwise AND on addresses and masks is `Bits.BitAnd`, and the OR that `ipStringToInt` accumulates bytes with is `Bits.BitOr`; both are defined bit by bit.

## Model

| member | source | states |
|---|---|---|
| Bytes.Be16 | src/network_layer/icmp.cpp:44-49 | the two bytes written for a 16-bit field, most significant first, have that field's value |
| Bytes.Be32 | src/transport_layer/tcp.cpp:54-61 | the four bytes written for a 32-bit field, most significant first, have that field's value |
| Bytes.ReadBe16 | src/transport_layer/tcp.cpp:16-18 | the value `ntohs` yields from two packet bytes is the one whose big-endian bytes are exactly those bytes |
| Bytes.ReadBe32 | src/transport_layer/tcp.cpp:16-20 | the value `ntohl` yields from four packet bytes is the one whose big-endian bytes are exactly those bytes |
| Bytes.ReadBe16At | src/network_layer/icmp.cpp:14-18 | reading 16 bits back at the place they were written, inside any buffer, gives the value written |
| Bytes.ReadBe32At | src/transport_layer/tcp.cpp:16-20 | reading 32 bits back at the place they were written, inside any buffer, gives the value written |
| Ipv4.Version | src/network_layer/internet_protocol.cpp:32 | `(b >> 4) & 0x0F` is below 16 and is the high nibble of `b` |
| Ipv4.SerializeHeader | src/network_layer/internet_protocol.hpp:12-23 | the packed header is 20 bytes, with version/IHL at byte 0, TOS at 1, TTL at 8 and protocol at 9 |
| Ipv4.DecodeHeader | src/network_layer/internet_protocol.cpp:43-50 | the header read with `memcpy` and `ntohs`/`ntohl` re-serialises to exactly the first 20 packet bytes |
| Ipv4.DecodeSerialize | src/network_layer/internet_protocol.cpp:43-50 | decoding a serialised header, whatever follows it, gives the header back |
| Checksum.Fold | src/transport_layer/tcp.cpp:95-97 | the folded sum fits in 16 bits, and it is zero only when the sum was zero |
| Checksum.FoldResidue | src/transport_layer/tcp.cpp:95-97 | folding carries keeps the sum's value modulo 0xFFFF |
| Checksum.SumWords | src/network_layer/icmp.cpp:60-68 | the accumulator loop ends with `init` plus the big-endian words (an odd last byte as high byte), modulo 2^32 |
| Checksum.FoldCarries | src/network_layer/icmp.cpp:70-72 | the `while (sum >> 16)` loop ends with the folded sum |
| Checksum.Patch16 | src/utils/packet_builders.cpp:92-93 | the two checksum stores put the value big-endian at `off`, keep the length and leave every other byte unchanged |
| Checksum.WordSumAppend | src/network_layer/icmp.cpp:62-68 | the word sum of two buffers joined at an even length is the sum of their word sums |
| Checksum.WordSumPatch | src/utils/packet_builders.cpp:44-45 | storing a value in a zeroed, word-aligned slot adds exactly that value to the word sum |
| Checksum.WordSumBound | src/network_layer/icmp.cpp:62-68 | each started word adds at most 0xFFFF |
| Checksum.FoldWithComplement | src/network_layer/icmp.cpp:70-74 | adding the complement of the folded sum makes the new sum fold to 0xFFFF |
| Checksum.SelfVerifies | src/utils/packet_builders.cpp:33-45 | storing the checksum of a message, taken with its slot zero, in that slot makes the message's checksum 0 (no accumulator wrap) |
| Checksum.ComputeWithoutWrap | src/transport_layer/tcp.cpp:80-99 | when the accumulator does not wrap, the result is the complement of the folded plain sum |
| Checksum.NoWrap | src/transport_layer/tcp.cpp:80-93 | a message of at most 0xFFFF bytes plus any pseudo-header sum never wraps the 32-bit accumulator |
| Checksum.PseudoHeaderAgrees | src/transport_layer/tcp.cpp:82-85 | the address halves, protocol and length added up front equal the checksum over the 12-byte pseudo-header followed by the segment |
| Checksum.PseudoHeaderNoWrap | src/transport_layer/udp.cpp:63-66 | the pseudo-header terms never wrap and stay below 6 * 0xFFFF |
| Checksum.PseudoHeaderWordSum | src/transport_layer/udp.cpp:63-66 | the words of the 12-byte pseudo-header are exactly the terms the code adds |
| Icmp.SerializeHeader | src/network_layer/icmp.cpp:39-52 | the ICMP wire header is exactly 8 bytes |
| Icmp.SerializeReads | src/network_layer/icmp.cpp:42-49 | type at byte 0, code at 1, and checksum, identifier and sequence big-endian at bytes 2-3, 4-5 and 6-7 |
| Icmp.ParseHeader | src/network_layer/icmp.cpp:8-25 | too short a packet gives the zero header; otherwise the header read re-serialises to the 8 bytes at the offset |
| Icmp.CreateHeader | src/network_layer/icmp.cpp:27-37 | type, code 0, zero checksum, identifier and sequence on the wire, and the header parses back to itself |
| Icmp.CalculateChecksum | src/network_layer/icmp.cpp:54-75 | the two loops compute the RFC 1071 checksum of the message alone |
| Icmp.GetTypeName | src/network_layer/icmp.cpp:87-95 | the name is not "Unknown" exactly for types 0, 3, 8 and 11; it is "Echo Reply" exactly for 0, "Destination Unreachable" exactly for 3, "Echo Request" exactly for 8 and "Time Exceeded" exactly for 11 |
| Icmp.ParseSerialize | src/network_layer/icmp.cpp:8-52 | parsing a serialised header at its offset in any buffer gives the header back |
| Icmp.ChecksumSelfVerifies | src/network_layer/icmp.cpp:54-75 | with the computed checksum stored at bytes 2-3, the message's checksum is 0 |
| Tcp.SerializeHeader | src/transport_layer/tcp.cpp:47-72 | the TCP wire header is exactly 20 bytes |
| Tcp.ParseHeader | src/transport_layer/tcp.cpp:9-29 | too short a packet gives the zero header; otherwise the header read re-serialises to the 20 bytes at the offset |
| Tcp.CreateHeader | src/transport_layer/tcp.cpp:31-45 | the wire bytes hold the ports, sequence 0x12345678, ack 0x87654321 only when ACK is set, 0x50, the flags, window 8192 and zero checksum and urgent pointer; the data offset announces 20 bytes; ack is non-zero exactly when ACK is set |
| Tcp.CalculateChecksum | src/transport_layer/tcp.cpp:74-100 | the loops compute the checksum from the pseudo-header sum; for at most 0xFFFF bytes this is the checksum over pseudo-header and segment |
| Tcp.ParseSerialize | src/transport_layer/tcp.cpp:9-72 | parsing a serialised header at its offset in any buffer gives the header back |
| Tcp.SerializeReads | src/transport_layer/tcp.cpp:50-69 | every field is stored big-endian at its fixed offset, the checksum at bytes 16-17 |
| Tcp.ChecksumSelfVerifies | src/transport_layer/tcp.cpp:74-100 | with the computed checksum stored at bytes 16-17, the checksum over the same addresses is 0 |
| Udp.SerializeHeader | src/transport_layer/udp.cpp:39-52 | the UDP wire header is exactly 8 bytes |
| Udp.SerializeReads | src/transport_layer/udp.cpp:42-49 | source port, destination port, length and checksum big-endian at bytes 0-1, 2-3, 4-5 and 6-7 |
| Udp.ParseHeader | src/transport_layer/udp.cpp:9-26 | too short a packet gives the zero header; otherwise the header read re-serialises to the 8 bytes at the offset |
| Udp.CreateHeader | src/transport_layer/udp.cpp:28-37 | ports, length 8 + data length modulo 2^16, and zero checksum on the wire |
| Udp.CalculateChecksum | src/transport_layer/udp.cpp:54-81 | the loops compute the checksum from the pseudo-header sum; for at most 0xFFFF bytes this is the checksum over pseudo-header and datagram |
| Udp.ParseSerialize | src/transport_layer/udp.cpp:9-52 | parsing a serialised header at its offset in any buffer gives the header back |
| Udp.ChecksumSelfVerifies | src/transport_layer/udp.cpp:54-81 | with the computed checksum stored at bytes 6-7, the checksum over the same addresses is 0 |
| Udp.ZeroChecksumPossible | src/transport_layer/udp.cpp:76-80 | a computed checksum of 0 occurs, and it is returned as 0 |
| Bits.KeepsTopBits | src/routing_table.cpp:68 | AND with the /n mask keeps the top n bits of an address and clears the low 32 - n |
| Bits.KeepsTopBitsMod | src/routing_table.cpp:68 | AND with the /n mask subtracts the address modulo 2^(32-n) |
| Bits.MaskTwice | src/routing_table.cpp:68 | masking a masked network again changes nothing |
| Bits.PrefixMaskEnds | src/routing_table.cpp:67 | the /0 mask is 0 and the /32 mask is 0xFFFFFFFF |
| Bits.ShiftedMask | src/routing_table.cpp:67 | `0xFFFFFFFF << (32 - n)` in 32 bits is the /n mask for 0 < n <= 32 |
| Bits.PrefixMaskMonotone | src/routing_table.cpp:19-24 | a longer prefix has a larger mask, and conversely, so sorting by mask is sorting by prefix length |
| Bits.OrDisjoint | src/utils/packet_builders.cpp:68 | the bitwise OR of a multiple of 2^k and a number below 2^k is their sum |
| DottedQuad.Find | src/utils/packet_builders.cpp:56 | `find` reports the first position of the character at or after `from`, or none when it does not occur there |
| DottedQuad.DecimalRoundTrip | src/utils/packet_builders.cpp:62 | a number's decimal spelling is non-empty, all digits and reads back as that number |
| DottedQuad.FieldsOfFour | src/utils/packet_builders.cpp:55-61 | four dot-free fields joined by dots split back into those four fields |
| DottedQuad.FieldCount | src/utils/packet_builders.cpp:55-59 | a text has one more field than dots |
| DottedQuad.SplitAtFound | src/utils/packet_builders.cpp:56-61 | the text up to the dot `find` reports is the next field, and the rest are the fields after it |
| DottedQuad.FormatThenParse | src/utils/packet_builders.cpp:50-74 | the canonical text of four bytes parses to `a<<24 \| b<<16 \| c<<8 \| d` |
| DottedQuad.AddressBytes | src/utils/packet_builders.cpp:27-31 | the network-order bytes of an address are its four fields in order |
| DottedQuad.FewerThanThreeDotsRejected | src/utils/packet_builders.cpp:57-58 | text with fewer than three dots is not an address |
| DottedQuad.WrongFieldCountRejected | src/utils/packet_builders.cpp:55-61 | text with other than four fields is not an address |
| DottedQuad.BadFieldRejected | src/utils/packet_builders.cpp:64-65 | text with a field that is not a number up to 255 is not an address |
| DottedQuad.ThreeFieldsRejected | src/utils/packet_builders.cpp:57-58 | "1.2.3" is rejected |
| DottedQuad.LargeOctetRejected | src/utils/packet_builders.cpp:64-65 | "999.1.1.1" is rejected |
| DottedQuad.HostAddressParsed | src/utils/packet_builders.hpp:22 | the default destination "192.168.1.50" is 0xC0A80132 |
| Routing.ParseCIDR | src/routing_table.cpp:56-71 | the mask is the prefix mask of the written length (32 without '/'), and the network is the written address AND the mask |
| Routing.SourceMask | src/routing_table.cpp:67 | 0 for /0 and the shifted all-ones value otherwise: the /n prefix mask |
| Routing.HostMask | src/routing_table.cpp:59-61 | the host-route mask is all ones and leaves the address unchanged |
| Routing.ParseCIDRWellFormed | src/routing_table.cpp:67-68 | the parsed mask is a prefix mask and `network & mask == network` |
| Routing.BareAddressIsHostRoute | src/routing_table.cpp:57-62 | text without '/' gives the address itself with mask 0xFFFFFFFF |
| Routing.FormattedCidr | src/routing_table.cpp:56-71 | canonical "a.b.c.d/n" text is accepted and parses to the address masked by the /n mask |
| Routing.HostRoute | src/routing_table.cpp:56-71 | "a.b.c.d/32" is the host route to a.b.c.d |
| Routing.NetworkRoute24 | src/routing_table.cpp:56-71 | "a.b.c.0/24" is network a.b.c.0 with mask 0xFFFFFF00 |
| Routing.NetworkRoute8 | src/routing_table.cpp:56-71 | "a.0.0.0/8" is network a.0.0.0 with mask 0xFF000000 |
| Routing.AnyDestinationRoute | src/routing_table.cpp:56-71 | "0.0.0.0/0" is network 0 with mask 0 |
| Routing.MakeEntry | src/routing_table.cpp:8-15 | the entry has the parsed network and mask, the interface and metric given, and next hop 0 exactly for an empty next-hop text |
| Routing.MakeEntryWellFormed | src/routing_table.cpp:8-15 | every entry `addRoute` builds has a prefix mask and no host bits |
| Routing.FirstMatchFrom | src/routing_table.cpp:28-32 | the index found matches and no earlier one does; none found means no entry from there matches |
| Routing.RoutingTable.constructor | src/routing_table.hpp:23 | a new table is empty and valid |
| Routing.RoutingTable.AddRoute | src/routing_table.cpp:6-25 | the table stays sorted and well formed, and holds the old entries plus the new one (as a multiset) |
| Routing.RoutingTable.InsertEntry | src/routing_table.cpp:17-24 | the append-then-move loop leaves the table as the sorted insertion of the entry |
| Routing.RoutingTable.LookupRoute | src/routing_table.cpp:27-34 | the scan returns the interface of the first matching entry, or "" |
| Routing.InsertKeepsOrder | src/routing_table.cpp:19-24 | inserting into a table sorted by mask keeps it sorted |
| Routing.InsertLands | src/routing_table.cpp:17-24 | the new entry lands after the entries with masks at least its own and before shorter ones |
| Routing.InsertPermutes | src/routing_table.cpp:17-24 | inserting adds exactly the new entry |
| Routing.MatchesTopBits | src/routing_table.cpp:29 | an entry with a /n mask matches exactly the destinations that equal its network in the top n bits |
| Routing.LongestPrefixMatch | src/routing_table.cpp:19-33 | in a sorted table, no matching entry has a longer prefix than the first match |
| Routing.DefaultRouteMatchesAll | src/routing_table.cpp:29 | with a 0.0.0.0/0 entry present, every destination has a match, at or before it |
| Routing.LookupFindsLongestMatch | src/routing_table.cpp:27-34 | in a sorted table, a non-empty result is the interface of a matching entry with the longest mask among the matches; with non-empty interfaces, "" means nothing matches |
| InternetProtocolLayer.TransportHeader | src/network_layer/internet_protocol.cpp:91-120 | no transport header for a packet under 20 bytes; an unknown protocol exactly outside 1, 6, 17; otherwise the header named by the protocol field, read at offset 20 |
| InternetProtocolLayer.SimulateForwarding | src/network_layer/internet_protocol.cpp:68-89 | TTL 0 is dropped whatever the table holds; otherwise the packet is forwarded exactly when `lookupRoute` finds an interface, on that interface, and dropped for no route when it finds none; a forward goes out on a non-empty interface of a matching entry |
| InternetProtocolLayer.Receive | src/network_layer/internet_protocol.cpp:29-58 | rejected exactly when the version is not 4 (with that version as the error) or, for version 4, the packet is under 20 bytes (too short); otherwise the decoded header re-serialises to the first 20 bytes, the transport header is the one the protocol field selects, and the decision is the forwarding decision on it |
| InternetProtocolLayer.RouterAddress | src/network_layer/internet_protocol.cpp:15-17 | the next hop "192.168.1.1" is accepted and is 0xC0A80101 |
| InternetProtocolLayer.HomeNetworkRoute | src/network_layer/internet_protocol.cpp:13 | the home network route is 192.168.1.0/24 on wlan0, directly connected |
| InternetProtocolLayer.LoopbackRoute | src/network_layer/internet_protocol.cpp:14 | the loopback route is 127.0.0.0/8 on lo, directly connected |
| InternetProtocolLayer.GoogleDnsRoute | src/network_layer/internet_protocol.cpp:15 | a host route to 8.8.8.8 on wlan0 via 192.168.1.1 |
| InternetProtocolLayer.CloudflareDnsRoute | src/network_layer/internet_protocol.cpp:16 | a host route to 1.1.1.1 on wlan0 via 192.168.1.1 |
| InternetProtocolLayer.DefaultRoute | src/network_layer/internet_protocol.cpp:17 | the default route 0.0.0.0/0 on wlan0 via 192.168.1.1, metric 10 |
| InternetProtocolLayer.InsertDefaultMasks | src/network_layer/internet_protocol.cpp:12-18 | five entries with these masks, added in order, end up as the two /32s, the /24, the /8, then the /0 |
| InternetProtocolLayer.DefaultTableOrder | src/network_layer/internet_protocol.cpp:12-18 | the default entries added to an empty table give the default table |
| InternetProtocolLayer.DefaultTableMatches | src/network_layer/internet_protocol.cpp:12-18 | which destinations each default entry matches |
| InternetProtocolLayer.LoopbackLookup | src/network_layer/internet_protocol.cpp:14 | every destination in 127.0.0.0/8 is routed to lo |
| InternetProtocolLayer.OtherLookup | src/network_layer/internet_protocol.cpp:12-18 | every destination outside 127.0.0.0/8 is routed to wlan0 |
| InternetProtocolLayer.DefaultTableInterfaces | src/network_layer/internet_protocol.cpp:12-18 | the default table sends 127.0.0.0/8 to lo and everything else to wlan0, so no destination is without a route |
| InternetProtocolLayer.DefaultLookups | src/network_layer/internet_protocol.cpp:13-17 | 192.168.1.50 and 8.8.8.8 go to wlan0, 127.0.0.1 to lo, and 142.250.184.78 to wlan0 |
| InternetProtocolLayer.DefaultTableForwards | src/network_layer/internet_protocol.cpp:68-89 | with the default table, a TTL-0 packet is dropped and every other packet is forwarded, to lo for 127.0.0.0/8 and to wlan0 otherwise |
| InternetProtocolLayer.InternetProtocol.constructor | src/network_layer/internet_protocol.hpp:34 | the owned routing table starts empty and valid |
| InternetProtocolLayer.InternetProtocol.InitRoutingTable | src/network_layer/internet_protocol.cpp:12-18 | the five default routes are added in order and the table stays valid; from an empty table the result is the default table |
| InternetProtocolLayer.InternetProtocol.AddRoute | src/network_layer/internet_protocol.cpp:20-23 | the table gains the entry, as the routing table's `addRoute` adds it |
| InternetProtocolLayer.InternetProtocol.ParsePacket | src/network_layer/internet_protocol.cpp:29-58 | the outcome is `Receive` on the table's current entries, with the lookup done by the table's own scan |
| PacketBuilders.Ascii | src/utils/packet_builders.cpp:83 | a payload string becomes one byte per character, with that character's code |
| PacketBuilders.ShiftedByte | src/utils/packet_builders.cpp:68 | `ip_byte << shift` in 32 bits loses no bits of a byte: it is the byte in its place |
| PacketBuilders.OrInPlace | src/utils/packet_builders.cpp:68 | while the bytes read so far lie above the new byte's place, `result \|= (ip_byte << shift)` adds the byte in its place, and the result stays clear below it |
| PacketBuilders.OctetsAgree | src/utils/packet_builders.cpp:55-71 | the remaining rounds succeed exactly when the remaining fields are bytes and four fields exist, and add the same shifted bytes |
| PacketBuilders.FieldSumParse | src/utils/packet_builders.cpp:50-74 | adding up the shifted field bytes fails exactly when the text is not an address, and otherwise gives the parsed address |
| PacketBuilders.OctetsParse | src/utils/packet_builders.cpp:50-74 | the rounds accept exactly the dotted quads and add up to their address |
| PacketBuilders.NoDotRejects | src/utils/packet_builders.cpp:57-58 | a round before the fourth that finds no dot makes the conversion fail |
| PacketBuilders.BadPartRejects | src/utils/packet_builders.cpp:64-65 | a round whose field is not a byte makes the conversion fail |
| PacketBuilders.RoundReads | src/utils/packet_builders.cpp:61-70 | a round that reads a byte ORs it in its place, which adds it, and continues just after the dot |
| PacketBuilders.U16 | src/utils/packet_builders.cpp:86 | a length passed as `uint16_t` is kept unchanged when it fits in 16 bits |
| PacketBuilders.Seal | src/utils/packet_builders.cpp:33-45 | filling in the header checksum changes no other field, and the filled-in header's checksum is 0 |
| PacketBuilders.StoreChecksum | src/utils/packet_builders.cpp:33-45 | summing, folding and complementing the zero-checksum header and storing the result at bytes 10-11 gives the sealed header |
| PacketBuilders.IcmpMessageParses | src/utils/packet_builders.cpp:79-88 | the ICMP part is 8 + payload bytes, ends with the payload, and reads back the type, code 0, identifier and sequence |
| PacketBuilders.IcmpMessageVerifies | src/utils/packet_builders.cpp:90-93 | the checksum of the built ICMP message is 0 |
| PacketBuilders.TcpSegmentParses | src/utils/packet_builders.cpp:106-115 | the TCP part is 20 + payload bytes, ends with the payload, and reads back the ports, flags and a 20-byte data offset |
| PacketBuilders.TcpSegmentVerifies | src/utils/packet_builders.cpp:117-120 | the checksum over pseudo-header and built TCP segment is 0 |
| PacketBuilders.UdpDatagramParses | src/utils/packet_builders.cpp:135-142 | the UDP part is 8 + payload bytes, ends with the payload, reads back the ports, and its length field is its own length |
| PacketBuilders.UdpDatagramVerifies | src/utils/packet_builders.cpp:144-147 | the checksum over pseudo-header and built UDP datagram is 0 |
| PacketBuilders.TotalLengthCounts | src/utils/packet_builders.cpp:86 | a sealed header whose length was set to 20 plus the rest reads back as the packet's own length in 16 bits, and exactly that length up to 0xFFFF bytes |
| PacketBuilders.IcmpStored | src/utils/packet_builders.cpp:91-93 | the checksum stores at 20 + 2 leave the IPv4 header and payload as they were, with the checksum in the ICMP header |
| PacketBuilders.TcpStored | src/utils/packet_builders.cpp:118-120 | the checksum stores at 20 + 16 leave the IPv4 header and payload as they were, with the checksum in the TCP header |
| PacketBuilders.UdpStored | src/utils/packet_builders.cpp:145-147 | the checksum stores at 20 + 6 leave the IPv4 header and payload as they were, with the checksum in the UDP header |
| PacketBuilders.AssembleIcmp | src/utils/packet_builders.cpp:79-93 | the packet is the IPv4 header followed by the ICMP message with its checksum |
| PacketBuilders.AssembleTcp | src/utils/packet_builders.cpp:106-120 | the packet is the IPv4 header followed by the TCP segment with its checksum |
| PacketBuilders.AssembleUdp | src/utils/packet_builders.cpp:133-147 | the packet is the IPv4 header followed by the UDP datagram with its checksum |
| PacketBuilders.IPv4PacketBuilder.constructor | src/utils/packet_builders.hpp:21-26 | the defaults are 192.168.1.100 to 192.168.1.50, TTL 64, identification 0, TOS 0 and don't-fragment |
| PacketBuilders.IPv4PacketBuilder.CreateIPHeader | src/utils/packet_builders.cpp:10-48 | fails exactly when an address is not a dotted quad; otherwise 20 bytes with 0x45, the TOS, total length, identification, flags, TTL, protocol, a checksum that verifies, and both addresses in network order |
| PacketBuilders.IPv4PacketBuilder.IpStringToInt | src/utils/packet_builders.cpp:50-74 | the loop's result is the dotted-quad address `a<<24 \| b<<16 \| c<<8 \| d`, or failure exactly when the text is not a dotted quad |
| PacketBuilders.ICMPPacketBuilder.constructor | src/utils/packet_builders.hpp:35-38 | an echo request with identifier 1234, sequence 1 and payload "Hello, ICMP World!" |
| PacketBuilders.ICMPPacketBuilder.Build | src/utils/packet_builders.cpp:76-101 | empty exactly when an address is invalid; otherwise the sealed IPv4 header (protocol 1, the whole length) followed by the ICMP message; the total length read back from the packet is its own length in 16 bits |
| PacketBuilders.TCPPacketBuilder.constructor | src/utils/packet_builders.hpp:45-48 | a SYN from port 12345 to port 80 with an empty payload |
| PacketBuilders.TCPPacketBuilder.Build | src/utils/packet_builders.cpp:103-128 | empty exactly when an address is invalid; otherwise the sealed IPv4 header (protocol 6, the whole length) followed by the TCP segment checksummed over the two addresses; the total length read back from the packet is its own length in 16 bits |
| PacketBuilders.UDPPacketBuilder.constructor | src/utils/packet_builders.hpp:55-57 | port 12345 to port 53 with payload "Hello, UDP World!" |
| PacketBuilders.UDPPacketBuilder.Build | src/utils/packet_builders.cpp:130-155 | empty exactly when an address is invalid; otherwise the sealed IPv4 header (protocol 17, the whole length) followed by the UDP datagram checksummed over the two addresses; the total length read back from the packet is its own length in 16 bits |
| EndToEnd.TemplateBuilt | src/utils/packet_builders.cpp:13-24 | the header a builder seals has version/IHL 0x45 and the given protocol and total length, so the lemmas below apply to every `build()` output |
| EndToEnd.SealedHeaderReceived | src/network_layer/internet_protocol.cpp:29-58 | a packet starting with a built header passes both checks, decodes to that header, and is forwarded or dropped by it |
| EndToEnd.IcmpPacketReceived | src/network_layer/internet_protocol.cpp:110-114 | a built ICMP packet is received as an ICMP message with the type, code 0, identifier and sequence it was built with |
| EndToEnd.TcpPacketReceived | src/network_layer/internet_protocol.cpp:100-104 | a built TCP packet is received as a TCP segment with the ports and flags it was built with |
| EndToEnd.UdpPacketReceived | src/network_layer/internet_protocol.cpp:105-109 | a built UDP packet is received as a UDP datagram with the ports it was built with |
| EndToEnd.ParsedAfter | src/network_layer/internet_protocol.cpp:101-111 | each transport parser reads the same header at offset 20 after a 20-byte prefix as at offset 0 of the rest |

## Left out

- Logging (`logger.cpp`, every `log_*` call), `main.cpp`, and all printing: `printHeader`, `printIPHeader`, `printTable`, `printRoutingTable` and `ipToString`. These are console and file output; the demo's default routes and lookups are stated as lemmas instead.
- `memcpy` into packed structs, `ntohs`/`ntohl`/`htonl` and `inet_ntoa`: replaced by explicit big-endian readers and writers (`Bytes`).
- Routing.StringToIP: modelled as the same strict dotted-quad parse as `ipStringToInt`, which reads every field as decimal. `inet_aton` reads a field with a leading 0 as octal and one with a leading 0x as hex, and accepts addresses of fewer than four parts. So the model reads a leading-zero field differently: "010.0.0.1" is 8.0.0.1 in the C++ and 10.0.0.1 in the model, and "08.0.0.1", which `inet_aton` rejects (leaving `addr` unset), is 8.0.0.1 in the model. `WellFormedCidr` and `WellFormedNextHop` admit such fields, so the same difference reaches Routing.ParseCIDR, Routing.MakeEntry, Routing.RoutingTable.AddRoute and InternetProtocolLayer.InternetProtocol.AddRoute. The hex and short forms are rejected by the model.
- PacketBuilders.IPv4PacketBuilder.IpStringToInt: each field must be all digits, whereas `std::stoi` skips leading whitespace, accepts a sign, reads a leading number and ignores the rest. The C++ code therefore accepts "1.2.3.4.5" (read as 1.2.3.4), "1x.2.3.4", " 1.2.3.4", "+1.2.3.4" and "1.2.3.-0" (minus zero is 0), which the model rejects. In the last round the C++ code also sets `start` past a dot it does not use; the model still looks up that dot but skips that unused update, which changes nothing observable.
- Routing.RoutingTable.AddRoute: requires well-formed CIDR text, with a prefix length of at most 32, and a well-formed next hop. Other prefix lengths make the C++ shift undefined, and `inet_aton`'s failure is unchecked there.
- Routing.RoutingTable.AddRoute: `std::sort` is unstable, so the C++ order among entries with equal masks is unspecified. The model fixes one such order: a new entry goes after existing entries with an equal mask. Sortedness and the multiset of entries are what the C++ code guarantees.
- InternetProtocolLayer.InternetProtocol.ParsePacket: requires a non-empty packet. The C++ code reads byte 0 before checking the length, which is undefined for an empty packet. `InternetProtocolLayer.Receive` has the same requirement.
- The TTL is never decremented. `decrementTTL` is commented out in the source, and the model has no such operation.
- Checksum.SelfVerifies: holds only when the 32-bit accumulator does not wrap. Icmp.ChecksumSelfVerifies, Tcp.ChecksumSelfVerifies, Udp.ChecksumSelfVerifies and the builders' `...Verifies` lemmas therefore require a message of at most 0xFFFF bytes, the IPv4 limit. The C++ code computes the checksum for any length, and the model's `CalculateChecksum` methods do too.
- Udp.CalculateChecksum: a computed checksum of 0 is returned as 0, as the C++ code does. RFC 768 would send 0xFFFF instead, because 0 means "no checksum"; `Udp.ZeroChecksumPossible` exhibits such a datagram.
- Inheritance is modelled as composition. Each transport builder holds its IPv4 builder settings as the field `ip`, and the payload strings are held as their bytes.
- Exceptions are modelled as values: an invalid address makes `CreateIPHeader` return `None` and `build()` return the empty packet.
- The route metric is an unbounded `int`, and the interface name is a string; neither is inspected by any operation.
