/**
 * What the router does with the packets its builders produce: every built packet is
 * accepted by `parsePacket`, which reads back the IPv4 header the builder sealed and
 * the transport header it wrote, and then takes its forwarding decision on that header.
 * The lemmas below take any header with `Built(h)`; every `build()` output has that
 * form, because the header it seals is the builder's `Template`, which sets
 * version/IHL to 0x45 (`TemplateBuilt`).
 */
module EndToEnd {
  import opened Bytes
  import opened Protocols
  import opened Ipv4
  import opened Routing
  import opened InternetProtocolLayer
  import PacketBuilders
  import Icmp
  import Tcp
  import Udp

  /** The header a builder fills in: version 4 and a 5-word header. */
  predicate Built(h: IPv4Header)
  {
    h.versionIhl == 0x45
  }

  /** The header every `build()` seals, the builder's `Template`, is a built header. */
  lemma TemplateBuilt(b: PacketBuilders.IPv4PacketBuilder, totalLength: u16, protocol: u8, src: u32, dst: u32)
    ensures Built(b.Template(totalLength, protocol, src, dst))
    ensures b.Template(totalLength, protocol, src, dst).protocol == protocol
    ensures b.Template(totalLength, protocol, src, dst).totalLength == totalLength
  {
  }

  /** A built packet passes the version and length checks and yields the header it was sealed with. */
  lemma SealedHeaderReceived(h: IPv4Header, rest: seq<u8>, routes: seq<RouteEntry>)
    requires Built(h)
    ensures var packet := SerializeHeader(PacketBuilders.Seal(h)) + rest;
            var r := Receive(packet, routes);
            r.Handled? && r.header == PacketBuilders.Seal(h)
            && r.transport == TransportHeader(packet, r.header)
            && r.decision == SimulateForwarding(PacketBuilders.Seal(h), routes)
  {
    var sealed := PacketBuilders.Seal(h);
    var packet := SerializeHeader(sealed) + rest;
    assert packet[0] == 0x45;
    assert Version(0x45) == 4;
    DecodeSerialize(sealed, rest);
  }

  /** An ICMP builder's packet is received as an ICMP message with the type, identifier and sequence it was built with. */
  lemma IcmpPacketReceived(h: IPv4Header, icmpType: u8, identifier: u16, sequence: u16, payload: seq<u8>,
                           routes: seq<RouteEntry>)
    requires Built(h) && h.protocol == PROTOCOL_ICMP
    ensures var packet := SerializeHeader(PacketBuilders.Seal(h))
                          + PacketBuilders.IcmpMessage(icmpType, identifier, sequence, payload);
            var r := Receive(packet, routes);
            r.Handled? && r.header == PacketBuilders.Seal(h) && r.transport.IcmpMessage?
            && r.transport.icmp.icmpType == icmpType && r.transport.icmp.code == 0
            && r.transport.icmp.identifier == identifier && r.transport.icmp.sequence == sequence
  {
    var message := PacketBuilders.IcmpMessage(icmpType, identifier, sequence, payload);
    var prefix := SerializeHeader(PacketBuilders.Seal(h));
    SealedHeaderReceived(h, message, routes);
    PacketBuilders.IcmpMessageParses(icmpType, identifier, sequence, payload);
    ParsedAfter(prefix, message);
  }

  /** A TCP builder's packet is received as a TCP segment with the ports and flags it was built with. */
  lemma TcpPacketReceived(h: IPv4Header, srcPort: u16, dstPort: u16, flags: u8, payload: seq<u8>,
                          routes: seq<RouteEntry>)
    requires Built(h) && h.protocol == PROTOCOL_TCP
    ensures var packet := SerializeHeader(PacketBuilders.Seal(h))
                          + PacketBuilders.TcpSegment(h.srcIp, h.dstIp, srcPort, dstPort, flags, payload);
            var r := Receive(packet, routes);
            r.Handled? && r.header == PacketBuilders.Seal(h) && r.transport.TcpSegment?
            && r.transport.tcp.srcPort == srcPort && r.transport.tcp.dstPort == dstPort
            && r.transport.tcp.flags == flags
  {
    var segment := PacketBuilders.TcpSegment(h.srcIp, h.dstIp, srcPort, dstPort, flags, payload);
    var prefix := SerializeHeader(PacketBuilders.Seal(h));
    SealedHeaderReceived(h, segment, routes);
    PacketBuilders.TcpSegmentParses(h.srcIp, h.dstIp, srcPort, dstPort, flags, payload);
    ParsedAfter(prefix, segment);
  }

  /** A UDP builder's packet is received as a UDP datagram with the ports it was built with. */
  lemma UdpPacketReceived(h: IPv4Header, srcPort: u16, dstPort: u16, payload: seq<u8>, routes: seq<RouteEntry>)
    requires Built(h) && h.protocol == PROTOCOL_UDP
    ensures var packet := SerializeHeader(PacketBuilders.Seal(h))
                          + PacketBuilders.UdpDatagram(h.srcIp, h.dstIp, srcPort, dstPort, payload);
            var r := Receive(packet, routes);
            r.Handled? && r.header == PacketBuilders.Seal(h) && r.transport.UdpDatagram?
            && r.transport.udp.srcPort == srcPort && r.transport.udp.dstPort == dstPort
  {
    var datagram := PacketBuilders.UdpDatagram(h.srcIp, h.dstIp, srcPort, dstPort, payload);
    var prefix := SerializeHeader(PacketBuilders.Seal(h));
    SealedHeaderReceived(h, datagram, routes);
    PacketBuilders.UdpDatagramParses(h.srcIp, h.dstIp, srcPort, dstPort, payload);
    ParsedAfter(prefix, datagram);
  }

  /** The three transport parsers read the same header after a 20-byte prefix as at offset 0. */
  lemma ParsedAfter(prefix: seq<u8>, segment: seq<u8>)
    requires |prefix| == IPv4_HEADER_SIZE
    ensures Icmp.ParseHeader(prefix + segment, IPv4_HEADER_SIZE) == Icmp.ParseHeader(segment, 0)
    ensures Tcp.ParseHeader(prefix + segment, IPv4_HEADER_SIZE) == Tcp.ParseHeader(segment, 0)
    ensures Udp.ParseHeader(prefix + segment, IPv4_HEADER_SIZE) == Udp.ParseHeader(segment, 0)
  {
    var p := prefix + segment;
    forall i | 0 <= i < |segment|
      ensures p[IPv4_HEADER_SIZE + i] == segment[i]
    {
    }
  }
}
