/**
 * The network layer of the simulated router: it validates and decodes the IPv4
 * header of a received packet, decodes the transport header the protocol field
 * names, and decides whether the packet is forwarded (and on which interface) or
 * dropped. The routing table is the only state; the decision itself is a function
 * of the packet and the table's entries.
 */
module InternetProtocolLayer {
  import opened Wrappers
  import opened Bytes
  import opened Bits
  import opened Protocols
  import opened Ipv4
  import opened Routing
  import DottedQuad
  import Tcp
  import Udp
  import Icmp

  /** Why a packet is rejected before any forwarding decision. */
  datatype PacketError = UnsupportedVersion(version: nat) | TooShort

  datatype DropReason = TtlExpired | NoRoute

  /** The forwarding decision of `simulateForwarding`. */
  datatype Decision = Forwarded(iface: string) | Dropped(reason: DropReason)

  /** The transport header `printTransportLayerHeader` decodes, chosen by the protocol field. */
  datatype Transport =
    | TcpSegment(tcp: Tcp.TCPHeader)
    | UdpDatagram(udp: Udp.UDPHeader)
    | IcmpMessage(icmp: Icmp.ICMPHeader)
    | UnknownProtocol(protocol: u8)
    | NoTransport

  /** What `parsePacket` does with a packet: reject it, or decode it and decide. */
  datatype Outcome =
    | Malformed(error: PacketError)
    | Handled(header: IPv4Header, transport: Transport, decision: Decision)

  /**
   * `printTransportLayerHeader`, without the printing: the header after the 20-byte
   * IPv4 header, decoded by the protocol the IP header names. An unknown protocol
   * only yields a warning.
   */
  function TransportHeader(packet: seq<u8>, ipHeader: IPv4Header): (r: Transport)
    ensures |packet| < IPv4_HEADER_SIZE <==> r == NoTransport
    ensures r.UnknownProtocol? <==>
              |packet| >= IPv4_HEADER_SIZE && ipHeader.protocol !in {PROTOCOL_TCP, PROTOCOL_UDP, PROTOCOL_ICMP}
    ensures r.TcpSegment? ==> ipHeader.protocol == PROTOCOL_TCP
                              && (|packet| >= IPv4_HEADER_SIZE + Tcp.TCP_HEADER_SIZE ==>
                                    Tcp.SerializeHeader(r.tcp) == packet[IPv4_HEADER_SIZE..IPv4_HEADER_SIZE + Tcp.TCP_HEADER_SIZE])
    ensures r.UdpDatagram? ==> ipHeader.protocol == PROTOCOL_UDP
                               && (|packet| >= IPv4_HEADER_SIZE + Udp.UDP_HEADER_SIZE ==>
                                     Udp.SerializeHeader(r.udp) == packet[IPv4_HEADER_SIZE..IPv4_HEADER_SIZE + Udp.UDP_HEADER_SIZE])
    ensures r.IcmpMessage? ==> ipHeader.protocol == PROTOCOL_ICMP
                               && (|packet| >= IPv4_HEADER_SIZE + Icmp.ICMP_HEADER_SIZE ==>
                                     Icmp.SerializeHeader(r.icmp) == packet[IPv4_HEADER_SIZE..IPv4_HEADER_SIZE + Icmp.ICMP_HEADER_SIZE])
  {
    if |packet| < IPv4_HEADER_SIZE then NoTransport
    else if ipHeader.protocol == PROTOCOL_TCP then TcpSegment(Tcp.ParseHeader(packet, IPv4_HEADER_SIZE))
    else if ipHeader.protocol == PROTOCOL_UDP then UdpDatagram(Udp.ParseHeader(packet, IPv4_HEADER_SIZE))
    else if ipHeader.protocol == PROTOCOL_ICMP then IcmpMessage(Icmp.ParseHeader(packet, IPv4_HEADER_SIZE))
    else UnknownProtocol(ipHeader.protocol)
  }

  /**
   * `simulateForwarding`: a packet whose TTL is 0 is dropped whatever the table holds;
   * otherwise it goes out on the interface the table finds, or is dropped when the
   * table has no route. The TTL is not decremented.
   */
  function SimulateForwarding(h: IPv4Header, routes: seq<RouteEntry>): (r: Decision)
    ensures h.ttl == 0 ==> r == Dropped(TtlExpired)
    ensures h.ttl != 0 && (forall i :: 0 <= i < |routes| ==> !Matches(routes[i], h.dstIp)) ==> r == Dropped(NoRoute)
    ensures r.Forwarded? ==>
              h.ttl != 0 && r.iface != ""
              && exists i :: 0 <= i < |routes| && Matches(routes[i], h.dstIp) && routes[i].iface == r.iface
    ensures h.ttl != 0 ==> (r.Forwarded? <==> Lookup(routes, h.dstIp) != "")
    ensures h.ttl != 0 && Lookup(routes, h.dstIp) == "" ==> r == Dropped(NoRoute)
    ensures r.Forwarded? ==> r.iface == Lookup(routes, h.dstIp)
  {
    if h.ttl == 0 then Dropped(TtlExpired)
    else
      var iface := Lookup(routes, h.dstIp);
      if iface != "" then Forwarded(iface) else Dropped(NoRoute)
  }

  /**
   * `parsePacket`: the version nibble of byte 0 must be 4, then the packet must hold a
   * whole 20-byte header; only then are the header and the transport header decoded
   * and the forwarding decision taken. Byte 0 is read before the length is checked,
   * so the packet must not be empty.
   */
  function Receive(packet: seq<u8>, routes: seq<RouteEntry>): (r: Outcome)
    requires |packet| > 0
    ensures r.Malformed? <==> Version(packet[0]) != 4 || |packet| < IPv4_HEADER_SIZE
    ensures Version(packet[0]) != 4 ==> r == Malformed(UnsupportedVersion(Version(packet[0])))
    ensures Version(packet[0]) == 4 && |packet| < IPv4_HEADER_SIZE ==> r == Malformed(TooShort)
    ensures r.Handled? ==> SerializeHeader(r.header) == packet[..IPv4_HEADER_SIZE]
                           && r.transport == TransportHeader(packet, r.header) && r.transport != NoTransport
                           && r.decision == SimulateForwarding(r.header, routes)
  {
    var version := Version(packet[0]);
    if version != 4 then Malformed(UnsupportedVersion(version))
    else if |packet| < IPv4_HEADER_SIZE then Malformed(TooShort)
    else
      var header := DecodeHeader(packet);
      Handled(header, TransportHeader(packet, header), SimulateForwarding(header, routes))
  }

  /** The entries `initRoutingTable` adds, in the order it adds them. */
  const DEFAULT_ENTRIES: seq<RouteEntry> := [
    RouteEntry(0xC0A8_0100, 0xFFFF_FF00, "wlan0", 0, 1),
    RouteEntry(0x7F00_0000, 0xFF00_0000, "lo", 0, 1),
    RouteEntry(0x0808_0808, 0xFFFF_FFFF, "wlan0", 0xC0A8_0101, 1),
    RouteEntry(0x0101_0101, 0xFFFF_FFFF, "wlan0", 0xC0A8_0101, 1),
    RouteEntry(0, 0, "wlan0", 0xC0A8_0101, 10)
  ]

  /** `routes` after adding each of `entries` in turn. */
  function InsertAll(routes: seq<RouteEntry>, entries: seq<RouteEntry>): (r: seq<RouteEntry>)
    ensures |r| == |routes| + |entries|
    decreases |entries|
  {
    if |entries| == 0 then routes
    else InsertByMask(InsertAll(routes, entries[..|entries| - 1]), entries[|entries| - 1])
  }

  /** Adding the first `k + 1` entries is adding the first `k`, then entry `k`. */
  lemma InsertAllStep(routes: seq<RouteEntry>, entries: seq<RouteEntry>, k: nat)
    requires k < |entries|
    ensures InsertAll(routes, entries[..k + 1]) == InsertByMask(InsertAll(routes, entries[..k]), entries[k])
  {
    assert entries[..k + 1][..k] == entries[..k];
  }

  /** The router 192.168.1.1 that the host and default routes go through. */
  lemma RouterAddress()
    ensures WellFormedNextHop("192.168.1.1") && StringToIP("192.168.1.1") == 0xC0A8_0101
  {
    DottedQuad.FormatThenParse(192, 168, 1, 1);
    assert DottedQuad.Format(192, 168, 1, 1) == "192.168.1.1";
  }

  lemma HomeNetworkText()
    ensures DottedQuad.Format(192, 168, 1, 0) + "/" + DottedQuad.Decimal(24) == "192.168.1.0/24"
  {
  }

  lemma LoopbackText()
    ensures DottedQuad.Format(127, 0, 0, 0) + "/" + DottedQuad.Decimal(8) == "127.0.0.0/8"
  {
  }

  lemma GoogleDnsText()
    ensures DottedQuad.Format(8, 8, 8, 8) + "/" + DottedQuad.Decimal(32) == "8.8.8.8/32"
  {
  }

  lemma CloudflareDnsText()
    ensures DottedQuad.Format(1, 1, 1, 1) + "/" + DottedQuad.Decimal(32) == "1.1.1.1/32"
  {
  }

  lemma DefaultRouteText()
    ensures DottedQuad.Format(0, 0, 0, 0) + "/" + DottedQuad.Decimal(0) == "0.0.0.0/0"
  {
  }

  /** `192.168.1.0/24` denotes the home network 192.168.1.0/24, directly connected on wlan0. */
  lemma HomeNetworkRoute()
    ensures WellFormedCidr("192.168.1.0/24") && WellFormedNextHop("")
    ensures MakeEntry("192.168.1.0/24", "wlan0", "", 1) == DEFAULT_ENTRIES[0]
  {
    HomeNetworkText();
    NetworkRoute24(192, 168, 1, "192.168.1.0/24");
  }

  /** `127.0.0.0/8` denotes the loopback network 127.0.0.0/8 on lo.
   * The text is a parameter pinned by the requires, so that the literal is
   * evaluated once rather than at every use in the contract.
   */
  lemma LoopbackRoute(text: string)
    requires text == "127.0.0.0/8"
    ensures WellFormedCidr(text) && WellFormedNextHop("")
    ensures MakeEntry(text, "lo", "", 1) == DEFAULT_ENTRIES[1]
  {
    LoopbackText();
    NetworkRoute8(127, text);
    assert DottedQuad.Address(127, 0, 0, 0) == 0x7F00_0000;
  }

  /** `8.8.8.8/32` denotes the host route to 8.8.8.8 on wlan0 via 192.168.1.1.
   * The text is a parameter, as in `LoopbackRoute`.
   */
  lemma GoogleDnsRoute(text: string)
    requires text == "8.8.8.8/32"
    ensures WellFormedCidr(text) && WellFormedNextHop("192.168.1.1")
    ensures MakeEntry(text, "wlan0", "192.168.1.1", 1) == DEFAULT_ENTRIES[2]
  {
    GoogleDnsText();
    RouterAddress();
    HostRoute(8, 8, 8, 8, text);
  }

  /** `1.1.1.1/32` denotes the host route to 1.1.1.1 on wlan0 via 192.168.1.1. */
  lemma CloudflareDnsRoute()
    ensures WellFormedCidr("1.1.1.1/32") && WellFormedNextHop("192.168.1.1")
    ensures MakeEntry("1.1.1.1/32", "wlan0", "192.168.1.1", 1) == DEFAULT_ENTRIES[3]
  {
    CloudflareDnsText();
    RouterAddress();
    HostRoute(1, 1, 1, 1, "1.1.1.1/32");
  }

  /** `0.0.0.0/0` denotes the default route 0.0.0.0/0 on wlan0 via 192.168.1.1, metric 10. */
  lemma DefaultRoute()
    ensures WellFormedCidr("0.0.0.0/0") && WellFormedNextHop("192.168.1.1")
    ensures MakeEntry("0.0.0.0/0", "wlan0", "192.168.1.1", 10) == DEFAULT_ENTRIES[4]
  {
    DefaultRouteText();
    RouterAddress();
    AnyDestinationRoute("0.0.0.0/0");
  }

  /** The /24 and the /8 stay in order; the first host route goes in front of both. */
  lemma InsertFirstThree(e: seq<RouteEntry>)
    requires |e| == 5
    requires e[0].subnetMask == 0xFFFF_FF00 && e[1].subnetMask == 0xFF00_0000 && e[2].subnetMask == 0xFFFF_FFFF
    ensures InsertAll([], e[..3]) == [e[2], e[0], e[1]]
  {
    assert e[..0] == [];
    InsertAllStep([], e, 0);
    InsertAllStep([], e, 1);
    InsertAllStep([], e, 2);
    assert InsertAll([], e[..2]) == [e[0], e[1]];
    assert [e[0], e[1]][..1] == [e[0]];
    assert InsertByMask([e[0]], e[2]) == [e[2], e[0]];
  }

  /**
   * Five entries with the default routes' masks, added in order to an empty table,
   * end up as the two host routes, the /24, the /8 and the default route.
   */
  lemma InsertDefaultMasks(e: seq<RouteEntry>)
    requires |e| == 5
    requires e[0].subnetMask == 0xFFFF_FF00 && e[1].subnetMask == 0xFF00_0000
    requires e[2].subnetMask == 0xFFFF_FFFF && e[3].subnetMask == 0xFFFF_FFFF && e[4].subnetMask == 0
    ensures InsertAll([], e) == [e[2], e[3], e[0], e[1], e[4]]
  {
    InsertFirstThree(e);
    InsertAllStep([], e, 3);
    InsertAllStep([], e, 4);
    assert e[..5] == e;
    assert [e[2], e[0], e[1]][..2] == [e[2], e[0]] && [e[2], e[0]][..1] == [e[2]];
    assert InsertByMask([e[2]], e[3]) == [e[2], e[3]];
    assert InsertByMask([e[2], e[0], e[1]], e[3]) == [e[2], e[3], e[0], e[1]];
  }

  /** The default table, kept sorted by mask: the host routes, then /24, /8 and the default route. */
  lemma DefaultTableOrder()
    ensures InsertAll([], DEFAULT_ENTRIES) == DEFAULT_TABLE
  {
    InsertDefaultMasks(DEFAULT_ENTRIES);
  }

  /** The table `initRoutingTable` builds from an empty one. */
  const DEFAULT_TABLE: seq<RouteEntry> :=
    [DEFAULT_ENTRIES[2], DEFAULT_ENTRIES[3], DEFAULT_ENTRIES[0], DEFAULT_ENTRIES[1], DEFAULT_ENTRIES[4]]

  /**
   * The default table sends every destination in 127.0.0.0/8 to lo and every other
   * destination to wlan0; no destination is without a route.
   */
  lemma DefaultTableInterfaces(dst: u32)
    ensures Lookup(DEFAULT_TABLE, dst) == if dst / 0x100_0000 == 0x7F then "lo" else "wlan0"
  {
    if dst / 0x100_0000 == 0x7F {
      LoopbackLookup(dst);
    } else {
      OtherLookup(dst);
    }
  }

  /** Which of the default table's entries `dst` matches, written with remainders. */
  lemma DefaultTableMatches(dst: u32)
    ensures Matches(DEFAULT_TABLE[0], dst) <==> dst == 0x0808_0808
    ensures Matches(DEFAULT_TABLE[1], dst) <==> dst == 0x0101_0101
    ensures Matches(DEFAULT_TABLE[2], dst) <==> dst - dst % 0x100 == 0xC0A8_0100
    ensures Matches(DEFAULT_TABLE[3], dst) <==> dst / 0x100_0000 == 0x7F
    ensures Matches(DEFAULT_TABLE[4], dst)
  {
    var t := DEFAULT_TABLE;
    MaskMatches(t[0], dst, 32, 1);
    MaskMatches(t[1], dst, 32, 1);
    MaskMatches(t[2], dst, 24, 0x100);
    MaskMatches(t[3], dst, 8, 0x100_0000);
    assert dst == 0x100_0000 * (dst / 0x100_0000) + dst % 0x100_0000;
    assert Matches(t[4], dst);
  }

  /** An entry whose mask keeps the top `n` bits matches the destinations that agree with it there. */
  lemma MaskMatches(e: RouteEntry, dst: u32, n: nat, low: nat)
    requires (n, low) in {(32, 1), (24, 0x100), (8, 0x100_0000)}
    requires e.subnetMask == 0x1_0000_0000 - low
    ensures Matches(e, dst) <==> dst - dst % low == e.network
  {
    Pow2Values();
    MatchesTopBits(e, dst, n);
  }

  /** A destination in 127.0.0.0/8 matches none of the longer routes and goes to lo. */
  lemma LoopbackLookup(dst: u32)
    requires dst / 0x100_0000 == 0x7F
    ensures Lookup(DEFAULT_TABLE, dst) == "lo"
  {
    var t := DEFAULT_TABLE;
    DefaultTableMatches(dst);
    DefaultRouteMatchesAll(t, dst, 4);
    var k := FirstMatch(t, dst).value;
    assert dst - dst % 0x100 != 0xC0A8_0100;
    assert k == 3 && t[3].iface == "lo";
  }

  /** Any other destination is sent by the first match, which is never the lo route, to wlan0. */
  lemma OtherLookup(dst: u32)
    requires dst / 0x100_0000 != 0x7F
    ensures Lookup(DEFAULT_TABLE, dst) == "wlan0"
  {
    var t := DEFAULT_TABLE;
    DefaultTableMatches(dst);
    DefaultRouteMatchesAll(t, dst, 4);
    var k := FirstMatch(t, dst).value;
    assert k != 3;
    assert t[k].iface == "wlan0";
  }

  /**
   * With the default table, 192.168.1.50 and 8.8.8.8 go out on wlan0, 127.0.0.1 on lo,
   * and 142.250.184.78 on wlan0 by the default route.
   */
  lemma DefaultLookups()
    ensures Lookup(DEFAULT_TABLE, 0xC0A8_0132) == "wlan0"
    ensures Lookup(DEFAULT_TABLE, 0x0808_0808) == "wlan0"
    ensures Lookup(DEFAULT_TABLE, 0x7F00_0001) == "lo"
    ensures Lookup(DEFAULT_TABLE, 0x8EFA_B84E) == "wlan0"
  {
    DefaultTableInterfaces(0xC0A8_0132);
    assert 0xC0A8_0132 / 0x100_0000 == 0xC0;
    DefaultTableInterfaces(0x0808_0808);
    assert 0x0808_0808 / 0x100_0000 == 0x08;
    DefaultTableInterfaces(0x7F00_0001);
    assert 0x7F00_0001 / 0x100_0000 == 0x7F;
    DefaultTableInterfaces(0x8EFA_B84E);
    assert 0x8EFA_B84E / 0x100_0000 == 0x8E;
  }

  /**
   * With the default table no live packet lacks a route: a packet with TTL 0 is
   * dropped, and every other one goes out on `lo` for 127.0.0.0/8 and on `wlan0`
   * otherwise.
   */
  lemma DefaultTableForwards(h: IPv4Header)
    ensures SimulateForwarding(h, DEFAULT_TABLE)
         == if h.ttl == 0 then Dropped(TtlExpired)
            else Forwarded(if h.dstIp / 0x100_0000 == 0x7F then "lo" else "wlan0")
  {
    DefaultTableInterfaces(h.dstIp);
  }

  class InternetProtocol {
    const routingTable: RoutingTable

    ghost predicate Valid()
      reads this, routingTable
    {
      routingTable.Valid()
    }

    constructor()
      ensures Valid() && routingTable.routes == [] && fresh(routingTable)
    {
      routingTable := new RoutingTable();
    }

    /**
     * `initRoutingTable`: the five default routes are added to the table, which stays
     * sorted; started from an empty table, the result is the default table.
     */
    method InitRoutingTable()
      requires Valid()
      modifies routingTable
      ensures Valid()
      ensures routingTable.routes == InsertAll(old(routingTable.routes), DEFAULT_ENTRIES)
      ensures old(routingTable.routes) == [] ==> routingTable.routes == DEFAULT_TABLE
    {
      ghost var before := routingTable.routes;
      ghost var e := DEFAULT_ENTRIES;
      HomeNetworkRoute();
      routingTable.AddRoute("192.168.1.0/24", "wlan0", "", 1);
      InsertAllStep(before, e, 0);
      LoopbackRoute("127.0.0.0/8");
      routingTable.AddRoute("127.0.0.0/8", "lo", "", 1);
      InsertAllStep(before, e, 1);
      GoogleDnsRoute("8.8.8.8/32");
      routingTable.AddRoute("8.8.8.8/32", "wlan0", "192.168.1.1", 1);
      InsertAllStep(before, e, 2);
      CloudflareDnsRoute();
      routingTable.AddRoute("1.1.1.1/32", "wlan0", "192.168.1.1", 1);
      InsertAllStep(before, e, 3);
      DefaultRoute();
      routingTable.AddRoute("0.0.0.0/0", "wlan0", "192.168.1.1", 10);
      InsertAllStep(before, e, 4);
      DefaultTableOrder();
    }

    /** `addRoute`: delegates to the routing table. */
    method AddRoute(network: string, iface: string, nextHop: string, metric: int)
      requires Valid() && WellFormedCidr(network) && WellFormedNextHop(nextHop)
      modifies routingTable
      ensures Valid()
      ensures routingTable.routes == InsertByMask(old(routingTable.routes), MakeEntry(network, iface, nextHop, metric))
    {
      routingTable.AddRoute(network, iface, nextHop, metric);
    }

    /** `parsePacket`, with the lookup done by the table's own scan. */
    method ParsePacket(packet: seq<u8>) returns (outcome: Outcome)
      requires |packet| > 0
      ensures outcome == Receive(packet, routingTable.routes)
    {
      var version := Version(packet[0]);
      if version != 4 {
        return Malformed(UnsupportedVersion(version));
      }
      if |packet| < IPv4_HEADER_SIZE {
        return Malformed(TooShort);
      }
      var header := DecodeHeader(packet);
      var transport := TransportHeader(packet, header);
      var decision: Decision;
      if header.ttl == 0 {
        decision := Dropped(TtlExpired);
      } else {
        var iface := routingTable.LookupRoute(header.dstIp);
        decision := if iface != "" then Forwarded(iface) else Dropped(NoRoute);
      }
      return Handled(header, transport, decision);
    }
  }
}
