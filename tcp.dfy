/**
 * TCP header codec (the fixed 20-byte header of section 3.1 of RFC 793, without
 * options) and the TCP checksum over the IPv4 pseudo-header and the segment.
 */
module Tcp {
  import opened Bytes
  import Checksum
  import opened Protocols

  const TCP_HEADER_SIZE: nat := 20
  const TCP_CHECKSUM_OFFSET: nat := 16

  const TCP_FIN: u8 := 0x01
  const TCP_SYN: u8 := 0x02
  const TCP_RST: u8 := 0x04
  const TCP_PSH: u8 := 0x08
  const TCP_ACK: u8 := 0x10
  const TCP_URG: u8 := 0x20
  const TCP_ECE: u8 := 0x40
  const TCP_CWR: u8 := 0x80

  /** The placeholder sequence and acknowledgment numbers a created header carries. */
  const DUMMY_SEQ: u32 := 0x1234_5678
  const DUMMY_ACK: u32 := 0x8765_4321
  const DEFAULT_WINDOW: u16 := 8192

  datatype TCPHeader = TCPHeader(
    srcPort: u16, dstPort: u16,
    seqNumber: u32, ackNumber: u32,
    dataOffsetFlags: u8, flags: u8,
    windowSize: u16, checksum: u16, urgentPointer: u16)

  const ZeroHeader := TCPHeader(0, 0, 0, 0, 0, 0, 0, 0, 0)

  /** Whether the flag bit `flag` is set in `flags`. */
  predicate HasFlag(flags: u8, flag: u8)
  {
    (flags as bv8) & (flag as bv8) != 0
  }

  /** The header length in bytes that the data-offset nibble announces. */
  function DataOffsetBytes(h: TCPHeader): nat
  {
    h.dataOffsetFlags / 16 * 4
  }

  /** The 20-byte wire form, every multi-byte field big-endian. */
  function SerializeHeader(h: TCPHeader): (r: seq<u8>)
    ensures |r| == TCP_HEADER_SIZE
  {
    Be16(h.srcPort) + Be16(h.dstPort) + Be32(h.seqNumber) + Be32(h.ackNumber)
    + [h.dataOffsetFlags, h.flags] + Be16(h.windowSize) + Be16(h.checksum) + Be16(h.urgentPointer)
  }

  /**
   * The header at `packet[offset..]`. A packet too short to hold it yields the zero
   * header; otherwise serialising the result reproduces the 20 bytes read.
   */
  function ParseHeader(packet: seq<u8>, offset: nat): (r: TCPHeader)
    ensures |packet| < offset + TCP_HEADER_SIZE ==> r == ZeroHeader
    ensures |packet| >= offset + TCP_HEADER_SIZE ==>
              SerializeHeader(r) == packet[offset..offset + TCP_HEADER_SIZE]
  {
    if |packet| < offset + TCP_HEADER_SIZE then ZeroHeader
    else
      var p := packet;
      var o := offset;
      var r := TCPHeader(ReadBe16(p, o), ReadBe16(p, o + 2), ReadBe32(p, o + 4), ReadBe32(p, o + 8),
                         p[o + 12], p[o + 13], ReadBe16(p, o + 14), ReadBe16(p, o + 16), ReadBe16(p, o + 18));
      HeaderSlices(p, o);
      r
  }

  /** The 20 header bytes at `o`, cut at the field boundaries. */
  lemma HeaderSlices(p: seq<u8>, o: nat)
    requires o + TCP_HEADER_SIZE <= |p|
    ensures p[o..o + TCP_HEADER_SIZE]
         == p[o..o + 2] + p[o + 2..o + 4] + p[o + 4..o + 8] + p[o + 8..o + 12]
            + [p[o + 12], p[o + 13]] + p[o + 14..o + 16] + p[o + 16..o + 18] + p[o + 18..o + 20]
  {
  }

  /**
   * A sample header: placeholder sequence number, an acknowledgment number only when
   * ACK is among `flags`, a 20-byte header with no options, an 8 KiB window, and a
   * zero checksum and urgent pointer.
   */
  function CreateHeader(srcPort: u16, dstPort: u16, flags: u8): (r: TCPHeader)
    ensures SerializeHeader(r)
         == Be16(srcPort) + Be16(dstPort) + Be32(DUMMY_SEQ)
            + Be32(if HasFlag(flags, TCP_ACK) then DUMMY_ACK else 0)
            + [0x50, flags] + Be16(DEFAULT_WINDOW) + [0, 0, 0, 0]
    ensures DataOffsetBytes(r) == TCP_HEADER_SIZE
    ensures r.ackNumber != 0 <==> HasFlag(flags, TCP_ACK)
  {
    TCPHeader(srcPort, dstPort, DUMMY_SEQ, if HasFlag(flags, TCP_ACK) then DUMMY_ACK else 0,
              0x50, flags, DEFAULT_WINDOW, 0, 0)
  }

  /**
   * `calculateChecksum`: the accumulator starts from the pseudo-header sum (address
   * halves, protocol 6 and segment length) and then takes the segment's words.
   */
  method CalculateChecksum(srcIp: u32, dstIp: u32, tcpData: seq<u8>) returns (checksum: u16)
    ensures checksum == Checksum.Compute(Checksum.PseudoHeaderSum(srcIp, dstIp, PROTOCOL_TCP, |tcpData|), tcpData)
    ensures |tcpData| <= 0xFFFF ==>
              checksum == Checksum.Compute(0, Checksum.PseudoHeader(srcIp, dstIp, PROTOCOL_TCP, |tcpData|) + tcpData)
  {
    var sum := Checksum.PseudoHeaderSum(srcIp, dstIp, PROTOCOL_TCP, |tcpData|);
    sum := Checksum.SumWords(sum, tcpData);
    var folded := Checksum.FoldCarries(sum);
    checksum := 0xFFFF - folded;
    if |tcpData| <= 0xFFFF {
      Checksum.PseudoHeaderAgrees(srcIp, dstIp, PROTOCOL_TCP, tcpData);
    }
  }

  /** Parsing a serialised header, wherever it sits in a buffer, gives the header back. */
  lemma ParseSerialize(prefix: seq<u8>, h: TCPHeader, suffix: seq<u8>)
    ensures ParseHeader(prefix + SerializeHeader(h) + suffix, |prefix|) == h
  {
    var s := SerializeHeader(h);
    var p := prefix + s + suffix;
    var n := |prefix|;
    assert p[n..n + TCP_HEADER_SIZE] == s;
    var r := ParseHeader(p, n);
    SerializeReads(h);
    SerializeReads(r);
  }

  /** Each field can be read back from its place in the serialised header. */
  lemma SerializeReads(h: TCPHeader)
    ensures var s := SerializeHeader(h);
            && s[0] as int * 0x100 + s[1] == h.srcPort && s[2] as int * 0x100 + s[3] == h.dstPort
            && s[4] as int * 0x100_0000 + s[5] as int * 0x1_0000 + s[6] as int * 0x100 + s[7] == h.seqNumber
            && s[8] as int * 0x100_0000 + s[9] as int * 0x1_0000 + s[10] as int * 0x100 + s[11] == h.ackNumber
            && s[12] == h.dataOffsetFlags && s[13] == h.flags
            && s[14] as int * 0x100 + s[15] == h.windowSize && s[16] as int * 0x100 + s[17] == h.checksum
            && s[18] as int * 0x100 + s[19] == h.urgentPointer
  {
    var a, b, c, d := Be16(h.srcPort), Be16(h.dstPort), Be32(h.seqNumber), Be32(h.ackNumber);
    var e, f, g := Be16(h.windowSize), Be16(h.checksum), Be16(h.urgentPointer);
    var s := SerializeHeader(h);
    assert s[0] == a[0] && s[1] == a[1] && s[2] == b[0] && s[3] == b[1];
    assert s[4] == c[0] && s[5] == c[1] && s[6] == c[2] && s[7] == c[3];
    assert s[8] == d[0] && s[9] == d[1] && s[10] == d[2] && s[11] == d[3];
    assert s[14] == e[0] && s[15] == e[1] && s[16] == f[0] && s[17] == f[1] && s[18] == g[0] && s[19] == g[1];
  }

  /**
   * Storing the checksum of a segment (computed with a zero checksum field) in the
   * header makes the receiver's checksum over pseudo-header and segment 0, for any
   * segment that fits in an IPv4 packet.
   */
  lemma ChecksumSelfVerifies(srcIp: u32, dstIp: u32, h: TCPHeader, payload: seq<u8>)
    requires TCP_HEADER_SIZE + |payload| <= 0xFFFF
    ensures var zeroed := SerializeHeader(h.(checksum := 0)) + payload;
            var init := Checksum.PseudoHeaderSum(srcIp, dstIp, PROTOCOL_TCP, |zeroed|);
            Checksum.Compute(init, SerializeHeader(h.(checksum := Checksum.Compute(init, zeroed))) + payload) == 0
  {
    var zeroed := SerializeHeader(h.(checksum := 0)) + payload;
    var init := Checksum.PseudoHeaderSum(srcIp, dstIp, PROTOCOL_TCP, |zeroed|);
    var c := Checksum.Compute(init, zeroed);
    assert SerializeHeader(h.(checksum := c)) + payload == Checksum.Patch16(zeroed, TCP_CHECKSUM_OFFSET, c);
    Checksum.NoWrap(init, zeroed);
    Checksum.SelfVerifies(init, zeroed, TCP_CHECKSUM_OFFSET);
  }
}
