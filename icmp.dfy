/**
 * ICMP echo-message header codec (the layout of RFC 792's Echo and Echo Reply
 * messages): 8 bytes holding type, code, checksum, identifier and sequence number,
 * multi-byte fields big-endian. The checksum covers the ICMP message only.
 */
module Icmp {
  import opened Bytes
  import Checksum

  const ICMP_HEADER_SIZE: nat := 8
  const ICMP_CHECKSUM_OFFSET: nat := 2

  const ICMP_ECHO_REPLY: u8 := 0
  const ICMP_DEST_UNREACH: u8 := 3
  const ICMP_ECHO_REQUEST: u8 := 8
  const ICMP_TIME_EXCEED: u8 := 11

  datatype ICMPHeader = ICMPHeader(icmpType: u8, code: u8, checksum: u16, identifier: u16, sequence: u16)

  /** The value-initialised header that a failed parse returns. */
  const ZeroHeader := ICMPHeader(0, 0, 0, 0, 0)

  /** The 8-byte wire form: type, code, then checksum, identifier and sequence big-endian. */
  function SerializeHeader(h: ICMPHeader): (r: seq<u8>)
    ensures |r| == ICMP_HEADER_SIZE
  {
    [h.icmpType, h.code] + Be16(h.checksum) + Be16(h.identifier) + Be16(h.sequence)
  }

  /** Each field can be read back from its place in the serialised header; the checksum sits at bytes 2-3. */
  lemma SerializeReads(h: ICMPHeader)
    ensures var s := SerializeHeader(h);
            && s[0] == h.icmpType && s[1] == h.code
            && s[2] as int * 0x100 + s[3] == h.checksum
            && s[4] as int * 0x100 + s[5] == h.identifier
            && s[6] as int * 0x100 + s[7] == h.sequence
  {
    var a, b, c := Be16(h.checksum), Be16(h.identifier), Be16(h.sequence);
    var s := SerializeHeader(h);
    assert s[2] == a[0] && s[3] == a[1] && s[4] == b[0] && s[5] == b[1] && s[6] == c[0] && s[7] == c[1];
  }

  /**
   * The header at `packet[offset..]`. A packet too short to hold it yields the zero
   * header; otherwise serialising the result reproduces the 8 bytes read.
   */
  function ParseHeader(packet: seq<u8>, offset: nat): (r: ICMPHeader)
    ensures |packet| < offset + ICMP_HEADER_SIZE ==> r == ZeroHeader
    ensures |packet| >= offset + ICMP_HEADER_SIZE ==>
              SerializeHeader(r) == packet[offset..offset + ICMP_HEADER_SIZE]
  {
    if |packet| < offset + ICMP_HEADER_SIZE then ZeroHeader
    else
      var r := ICMPHeader(packet[offset], packet[offset + 1], ReadBe16(packet, offset + 2),
                          ReadBe16(packet, offset + 4), ReadBe16(packet, offset + 6));
      assert packet[offset..offset + ICMP_HEADER_SIZE]
          == [packet[offset], packet[offset + 1]] + packet[offset + 2..offset + 4]
             + packet[offset + 4..offset + 6] + packet[offset + 6..offset + 8];
      r
  }

  /**
   * A fresh echo header: code 0 and a zero checksum placeholder, so its checksum
   * bytes 2-3 are zero on the wire; type, identifier and sequence are kept.
   */
  function CreateHeader(icmpType: u8, identifier: u16, sequence: u16): (r: ICMPHeader)
    ensures SerializeHeader(r) == [icmpType, 0, 0, 0] + Be16(identifier) + Be16(sequence)
    ensures ParseHeader(SerializeHeader(r), 0) == r
  {
    var r := ICMPHeader(icmpType, 0, 0, identifier, sequence);
    ParseSerialize([], r, []);
    assert [] + SerializeHeader(r) + [] == SerializeHeader(r);
    r
  }

  /** `calculateChecksum`: the RFC 1071 checksum of the message, without a pseudo-header. */
  method CalculateChecksum(icmpData: seq<u8>) returns (checksum: u16)
    ensures checksum == Checksum.Compute(0, icmpData)
  {
    var sum := Checksum.SumWords(0, icmpData);
    var folded := Checksum.FoldCarries(sum);
    checksum := 0xFFFF - folded;
  }

  /** `getTypeName`: the four message types the program knows by name; everything else is "Unknown". */
  function GetTypeName(icmpType: u8): (name: string)
    ensures name != "Unknown" <==> icmpType in {ICMP_ECHO_REPLY, ICMP_DEST_UNREACH, ICMP_ECHO_REQUEST, ICMP_TIME_EXCEED}
    ensures icmpType == ICMP_ECHO_REQUEST <==> name == "Echo Request"
    ensures icmpType == ICMP_ECHO_REPLY <==> name == "Echo Reply"
    ensures icmpType == ICMP_DEST_UNREACH <==> name == "Destination Unreachable"
    ensures icmpType == ICMP_TIME_EXCEED <==> name == "Time Exceeded"
  {
    match icmpType
    case 0 => "Echo Reply"
    case 3 => "Destination Unreachable"
    case 8 => "Echo Request"
    case 11 => "Time Exceeded"
    case _ => "Unknown"
  }

  /** Parsing a serialised header, wherever it sits in a buffer, gives the header back. */
  lemma ParseSerialize(prefix: seq<u8>, h: ICMPHeader, suffix: seq<u8>)
    ensures ParseHeader(prefix + SerializeHeader(h) + suffix, |prefix|) == h
  {
    var p := prefix + SerializeHeader(h) + suffix;
    var n := |prefix|;
    assert p[n] == h.icmpType && p[n + 1] == h.code;
    ReadBe16At(prefix + [h.icmpType, h.code], h.checksum, Be16(h.identifier) + Be16(h.sequence) + suffix);
    ReadBe16At(prefix + [h.icmpType, h.code] + Be16(h.checksum), h.identifier, Be16(h.sequence) + suffix);
    ReadBe16At(prefix + [h.icmpType, h.code] + Be16(h.checksum) + Be16(h.identifier), h.sequence, suffix);
    assert p == prefix + [h.icmpType, h.code] + Be16(h.checksum) + (Be16(h.identifier) + Be16(h.sequence) + suffix);
    assert p == prefix + [h.icmpType, h.code] + Be16(h.checksum) + Be16(h.identifier) + (Be16(h.sequence) + suffix);
    assert p == prefix + [h.icmpType, h.code] + Be16(h.checksum) + Be16(h.identifier) + Be16(h.sequence) + suffix;
  }

  /**
   * Storing the checksum of a message (computed with a zero checksum field) in the
   * header makes the checksum of the whole message 0, for any message that fits in
   * an IPv4 packet.
   */
  lemma ChecksumSelfVerifies(h: ICMPHeader, payload: seq<u8>)
    requires ICMP_HEADER_SIZE + |payload| <= 0xFFFF
    ensures var zeroed := SerializeHeader(h.(checksum := 0)) + payload;
            Checksum.Compute(0, SerializeHeader(h.(checksum := Checksum.Compute(0, zeroed))) + payload) == 0
  {
    var zeroed := SerializeHeader(h.(checksum := 0)) + payload;
    var c := Checksum.Compute(0, zeroed);
    assert SerializeHeader(h.(checksum := c)) + payload == Checksum.Patch16(zeroed, ICMP_CHECKSUM_OFFSET, c);
    Checksum.NoWrap(0, zeroed);
    Checksum.SelfVerifies(0, zeroed, ICMP_CHECKSUM_OFFSET);
  }
}
