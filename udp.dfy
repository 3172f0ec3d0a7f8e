/**
 * UDP header codec (the 8-byte header of RFC 768) and the UDP checksum over the
 * IPv4 pseudo-header and the datagram.
 */
module Udp {
  import opened Bytes
  import Checksum
  import opened Protocols

  const UDP_HEADER_SIZE: nat := 8
  const UDP_CHECKSUM_OFFSET: nat := 6

  datatype UDPHeader = UDPHeader(srcPort: u16, dstPort: u16, length: u16, checksum: u16)

  const ZeroHeader := UDPHeader(0, 0, 0, 0)

  /** The 8-byte wire form: ports, length and checksum, each big-endian. */
  function SerializeHeader(h: UDPHeader): (r: seq<u8>)
    ensures |r| == UDP_HEADER_SIZE
  {
    Be16(h.srcPort) + Be16(h.dstPort) + Be16(h.length) + Be16(h.checksum)
  }

  /** Each field can be read back from its place in the serialised header; the checksum sits at bytes 6-7. */
  lemma SerializeReads(h: UDPHeader)
    ensures var s := SerializeHeader(h);
            && s[0] as int * 0x100 + s[1] == h.srcPort && s[2] as int * 0x100 + s[3] == h.dstPort
            && s[4] as int * 0x100 + s[5] == h.length && s[6] as int * 0x100 + s[7] == h.checksum
  {
    var a, b, c, d := Be16(h.srcPort), Be16(h.dstPort), Be16(h.length), Be16(h.checksum);
    var s := SerializeHeader(h);
    assert s[0] == a[0] && s[1] == a[1] && s[2] == b[0] && s[3] == b[1];
    assert s[4] == c[0] && s[5] == c[1] && s[6] == d[0] && s[7] == d[1];
  }

  /**
   * The header at `packet[offset..]`. A packet too short to hold it yields the zero
   * header; otherwise serialising the result reproduces the 8 bytes read.
   */
  function ParseHeader(packet: seq<u8>, offset: nat): (r: UDPHeader)
    ensures |packet| < offset + UDP_HEADER_SIZE ==> r == ZeroHeader
    ensures |packet| >= offset + UDP_HEADER_SIZE ==>
              SerializeHeader(r) == packet[offset..offset + UDP_HEADER_SIZE]
  {
    if |packet| < offset + UDP_HEADER_SIZE then ZeroHeader
    else
      var p := packet;
      var o := offset;
      var r := UDPHeader(ReadBe16(p, o), ReadBe16(p, o + 2), ReadBe16(p, o + 4), ReadBe16(p, o + 6));
      assert p[o..o + UDP_HEADER_SIZE] == p[o..o + 2] + p[o + 2..o + 4] + p[o + 4..o + 6] + p[o + 6..o + 8];
      r
  }

  /**
   * A header for `dataLength` payload bytes: the length field counts header and
   * payload, in 16 bits (so it wraps for payloads above 65527 bytes), and the
   * checksum is a zero placeholder.
   */
  function CreateHeader(srcPort: u16, dstPort: u16, dataLength: u16): (r: UDPHeader)
    ensures SerializeHeader(r) == Be16(srcPort) + Be16(dstPort) + Be16(r.length) + [0, 0]
    ensures r.length == (UDP_HEADER_SIZE + dataLength) % 0x1_0000
    ensures dataLength + UDP_HEADER_SIZE <= 0xFFFF ==> r.length == UDP_HEADER_SIZE + dataLength
  {
    UDPHeader(srcPort, dstPort, (UDP_HEADER_SIZE + dataLength) % 0x1_0000, 0)
  }

  /**
   * `calculateChecksum`: the accumulator starts from the pseudo-header sum (address
   * halves, protocol 17 and datagram length) and then takes the datagram's words.
   * A result of 0 is returned as it is.
   */
  method CalculateChecksum(srcIp: u32, dstIp: u32, udpData: seq<u8>) returns (checksum: u16)
    ensures checksum == Checksum.Compute(Checksum.PseudoHeaderSum(srcIp, dstIp, PROTOCOL_UDP, |udpData|), udpData)
    ensures |udpData| <= 0xFFFF ==>
              checksum == Checksum.Compute(0, Checksum.PseudoHeader(srcIp, dstIp, PROTOCOL_UDP, |udpData|) + udpData)
  {
    var sum := Checksum.PseudoHeaderSum(srcIp, dstIp, PROTOCOL_UDP, |udpData|);
    sum := Checksum.SumWords(sum, udpData);
    var folded := Checksum.FoldCarries(sum);
    checksum := 0xFFFF - folded;
    if |udpData| <= 0xFFFF {
      Checksum.PseudoHeaderAgrees(srcIp, dstIp, PROTOCOL_UDP, udpData);
    }
  }

  /** Parsing a serialised header, wherever it sits in a buffer, gives the header back. */
  lemma ParseSerialize(prefix: seq<u8>, h: UDPHeader, suffix: seq<u8>)
    ensures ParseHeader(prefix + SerializeHeader(h) + suffix, |prefix|) == h
  {
    var p := prefix + SerializeHeader(h) + suffix;
    var s0 := Be16(h.srcPort);
    var s1 := Be16(h.dstPort);
    var s2 := Be16(h.length);
    var s3 := Be16(h.checksum);
    assert p == prefix + s0 + (s1 + s2 + s3 + suffix);
    ReadBe16At(prefix, h.srcPort, s1 + s2 + s3 + suffix);
    assert p == prefix + s0 + s1 + (s2 + s3 + suffix);
    ReadBe16At(prefix + s0, h.dstPort, s2 + s3 + suffix);
    assert p == prefix + s0 + s1 + s2 + (s3 + suffix);
    ReadBe16At(prefix + s0 + s1, h.length, s3 + suffix);
    assert p == prefix + s0 + s1 + s2 + s3 + suffix;
    ReadBe16At(prefix + s0 + s1 + s2, h.checksum, suffix);
  }

  /**
   * Storing the checksum of a datagram (computed with a zero checksum field) in the
   * header makes the receiver's checksum over pseudo-header and datagram 0, for any
   * datagram that fits in an IPv4 packet.
   */
  lemma ChecksumSelfVerifies(srcIp: u32, dstIp: u32, h: UDPHeader, payload: seq<u8>)
    requires UDP_HEADER_SIZE + |payload| <= 0xFFFF
    ensures var zeroed := SerializeHeader(h.(checksum := 0)) + payload;
            var init := Checksum.PseudoHeaderSum(srcIp, dstIp, PROTOCOL_UDP, |zeroed|);
            Checksum.Compute(init, SerializeHeader(h.(checksum := Checksum.Compute(init, zeroed))) + payload) == 0
  {
    var zeroed := SerializeHeader(h.(checksum := 0)) + payload;
    var init := Checksum.PseudoHeaderSum(srcIp, dstIp, PROTOCOL_UDP, |zeroed|);
    var c := Checksum.Compute(init, zeroed);
    assert SerializeHeader(h.(checksum := c)) + payload == Checksum.Patch16(zeroed, UDP_CHECKSUM_OFFSET, c);
    Checksum.NoWrap(init, zeroed);
    Checksum.SelfVerifies(init, zeroed, UDP_CHECKSUM_OFFSET);
  }

  /**
   * A computed checksum of 0 is possible and is transmitted as 0, which section
   * "Fields" of RFC 768 reserves for "no checksum": a header-only datagram from
   * 0.0.0.0 to 0.0.0.0 with source port 0xFFDE and destination port 0.
   */
  lemma ZeroChecksumPossible()
    ensures var datagram := SerializeHeader(CreateHeader(0xFFDE, 0, 0));
            Checksum.Compute(Checksum.PseudoHeaderSum(0, 0, PROTOCOL_UDP, |datagram|), datagram) == 0
  {
    var datagram := SerializeHeader(CreateHeader(0xFFDE, 0, 0));
    assert datagram == [0xFF, 0xDE, 0, 0, 0, 8, 0, 0];
    assert Checksum.WordSum(datagram) == 0xFFDE + 8;
  }
}
