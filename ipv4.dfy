/**
 * The 20-byte IPv4 header without options (section 3.1 of RFC 791), as the packed
 * `IPv4Header` struct holds it once its multi-byte fields are in host order.
 */
module Ipv4 {
  import opened Bytes

  const IPv4_HEADER_SIZE: nat := 20

  /** Offset of the header checksum inside the header. */
  const IPv4_CHECKSUM_OFFSET: nat := 10

  datatype IPv4Header = IPv4Header(
    versionIhl: u8, tos: u8, totalLength: u16, identification: u16,
    flagsFragmentOffset: u16, ttl: u8, protocol: u8, headerChecksum: u16,
    srcIp: u32, dstIp: u32)

  /** The version nibble of the first header byte, `(b >> 4) & 0x0F`. */
  function Version(b: u8): (v: nat)
    ensures v < 16 && b == v * 16 + b % 16
  {
    b / 16
  }

  /** The wire form: single bytes as they are, every wider field big-endian. */
  function SerializeHeader(h: IPv4Header): (r: seq<u8>)
    ensures |r| == IPv4_HEADER_SIZE
    ensures r[0] == h.versionIhl && r[1] == h.tos && r[8] == h.ttl && r[9] == h.protocol
  {
    [h.versionIhl, h.tos] + Be16(h.totalLength) + Be16(h.identification) + Be16(h.flagsFragmentOffset)
    + [h.ttl, h.protocol] + Be16(h.headerChecksum) + Be32(h.srcIp) + Be32(h.dstIp)
  }

  /**
   * The header at the start of `packet`: the `memcpy` into the packed struct followed
   * by `ntohs`/`ntohl` on every wider field. Serialising the result gives back the 20
   * bytes read.
   */
  function DecodeHeader(packet: seq<u8>): (r: IPv4Header)
    requires |packet| >= IPv4_HEADER_SIZE
    ensures SerializeHeader(r) == packet[..IPv4_HEADER_SIZE]
  {
    var p := packet;
    var r := IPv4Header(p[0], p[1], ReadBe16(p, 2), ReadBe16(p, 4), ReadBe16(p, 6), p[8], p[9],
                        ReadBe16(p, 10), ReadBe32(p, 12), ReadBe32(p, 16));
    assert p[..IPv4_HEADER_SIZE]
        == [p[0], p[1]] + p[2..4] + p[4..6] + p[6..8] + [p[8], p[9]] + p[10..12] + p[12..16] + p[16..20];
    r
  }

  /** Decoding a serialised header, whatever follows it, gives the header back. */
  lemma DecodeSerialize(h: IPv4Header, rest: seq<u8>)
    ensures DecodeHeader(SerializeHeader(h) + rest) == h
  {
    var p := SerializeHeader(h) + rest;
    var s0: seq<u8> := [h.versionIhl, h.tos];
    var s1, s2, s3 := Be16(h.totalLength), Be16(h.identification), Be16(h.flagsFragmentOffset);
    var s4: seq<u8> := [h.ttl, h.protocol];
    var s5, s6, s7 := Be16(h.headerChecksum), Be32(h.srcIp), Be32(h.dstIp);
    assert p == s0 + s1 + s2 + s3 + s4 + s5 + s6 + s7 + rest;
    ReadBe16At(s0, h.totalLength, s2 + s3 + s4 + s5 + s6 + s7 + rest);
    ReadBe16At(s0 + s1, h.identification, s3 + s4 + s5 + s6 + s7 + rest);
    ReadBe16At(s0 + s1 + s2, h.flagsFragmentOffset, s4 + s5 + s6 + s7 + rest);
    ReadBe16At(s0 + s1 + s2 + s3 + s4, h.headerChecksum, s6 + s7 + rest);
    ReadBe32At(s0 + s1 + s2 + s3 + s4 + s5, h.srcIp, s7 + rest);
    ReadBe32At(s0 + s1 + s2 + s3 + s4 + s5 + s6, h.dstIp, rest);
  }
}
