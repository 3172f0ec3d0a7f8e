/**
 * The packet builders: an IPv4 builder that writes a 20-byte header with its
 * checksum for configurable addresses, TTL, identification, type of service and
 * flags, and ICMP, TCP and UDP builders that wrap their header and payload in it and
 * fill in the transport checksum. A builder whose address text is not a dotted quad
 * produces the empty packet.
 *
 * The C++ builders inherit from the IPv4 builder; here each transport builder holds
 * its IPv4 builder as `ip`. The payload strings are held as their bytes.
 */
module PacketBuilders {
  import opened Wrappers
  import opened Bytes
  import opened Bits
  import opened Protocols
  import opened Ipv4
  import Checksum
  import DottedQuad
  import Icmp
  import Tcp
  import Udp

  /** The bytes of an ASCII text, one per character. */
  function Ascii(s: string): (r: seq<u8>)
    requires forall i :: 0 <= i < |s| ==> s[i] as int < 0x80
    ensures |r| == |s| && forall i :: 0 <= i < |s| ==> r[i] == s[i] as int
  {
    seq(|s|, i requires 0 <= i < |s| => s[i] as int as u8)
  }

  /** What `a` plus the value in `o` is, if `o` holds one. */
  function Plus(a: nat, o: Option<nat>): Option<nat>
  {
    if o.None? then None else Some(a + o.value)
  }

  /** Byte `i` of an address (most significant first) in its place: shifted left by `24 - 8 * i`. */
  function Place(byte: u8, i: nat): nat
    requires i < 4
  {
    if i == 0 then byte * 0x100_0000
    else if i == 1 then byte * 0x1_0000
    else if i == 2 then byte * 0x100
    else byte
  }

  /** Shifting a byte left by `24 - 8 * i` loses no bits: it puts the byte in place `i`. */
  lemma ShiftedByte(byte: u8, i: nat, shift: nat)
    requires i < 4 && shift == 24 - 8 * i
    ensures ShiftLeft32(byte, shift) == Place(byte, i)
  {
    Pow2Values();
    if i == 0 {
      assert Pow2(shift) == 0x100_0000;
    } else if i == 1 {
      assert Pow2(shift) == 0x1_0000;
    } else if i == 2 {
      assert Pow2(shift) == 0x100;
    } else {
      assert Pow2(shift) == 1;
    }
  }

  /** The weight of the lowest bit above place `i`: `2^(32 - 8 * i)`. */
  function Above(i: nat): (w: nat)
    requires i <= 4
    ensures w == Pow2(32 - 8 * i)
  {
    Pow2Values();
    if i == 0 then 0x1_0000_0000
    else if i == 1 then 0x100_0000
    else if i == 2 then 0x1_0000
    else if i == 3 then 0x100
    else 1
  }

  /**
   * `result |= (ip_byte << shift)` in round `i`: the bytes read so far fill only the
   * bits above the new one's place, so the OR adds the byte in its place, and the
   * result is then clear below that place.
   */
  lemma OrInPlace(result: nat, byte: u8, i: nat)
    requires i < 4 && result % Above(i) == 0
    ensures BitOr(result, ShiftLeft32(byte, 24 - 8 * i)) == result + Place(byte, i)
    ensures (result + Place(byte, i)) % Above(i + 1) == 0
  {
    PlaceWeights(byte, i);
    ShiftedByte(byte, i, 24 - 8 * i);
    OrDisjoint(result, Place(byte, i), 32 - 8 * i);
    NextPlaceAligned(result, byte, Above(i + 1));
  }

  /** Place `i` weighs `Above(i + 1)`, the place above it 256 times that, and a byte in place `i` stays below it. */
  lemma PlaceWeights(byte: u8, i: nat)
    requires i < 4
    ensures Place(byte, i) == byte * Above(i + 1) && Above(i) == 0x100 * Above(i + 1)
    ensures Place(byte, i) < Above(i)
  {
    if i == 0 {
      assert Place(byte, i) == byte * 0x100_0000 < 0x1_0000_0000;
    } else if i == 1 {
      assert Place(byte, i) == byte * 0x1_0000 < 0x100_0000;
    } else if i == 2 {
      assert Place(byte, i) == byte * 0x100 < 0x1_0000;
    }
  }

  /** Adding a byte at weight `w` to a multiple of `256 * w` leaves a multiple of `w`. */
  lemma NextPlaceAligned(result: nat, byte: u8, w: nat)
    requires w > 0 && result % (0x100 * w) == 0
    ensures (result + byte * w) % w == 0
  {
    var q := result / (0x100 * w);
    assert result == (0x100 * w) * q + result % (0x100 * w);
    assert result + byte * w == w * (0x100 * q + byte);
    DivModUnique(result + byte * w, w, 0x100 * q + byte, 0);
  }


  /**
   * What the rounds of `ipStringToInt` from round `round` on add to the address,
   * reading from `start`: each round reads the text up to the next dot (the last
   * round: all the rest) as a decimal byte and adds it shifted left by
   * `24 - 8 * round`. A missing dot before the last round, or a field that is not a
   * byte, makes the rounds fail.
   */
  function Octets(ip: string, start: nat, round: nat): Option<nat>
    requires start <= |ip| && round < 4
    decreases 4 - round
  {
    if round == 3 then
      var value := DottedQuad.OctetValue(ip[start..]);
      if value.None? then None else Some(Place(value.value, 3))
    else
      var dot := DottedQuad.Find(ip, '.', start);
      if dot.None? then None
      else
        var value := DottedQuad.OctetValue(ip[start..dot.value]);
        if value.None? then None else Plus(Place(value.value, round), Octets(ip, dot.value + 1, round + 1))
  }

  /**
   * The fields of `ip` seen from `start`, the point `ipStringToInt` has reached: the
   * text up to the next dot is the next field, or, with no dot left, the rest is the
   * last field.
   */
  lemma FieldsAhead(ip: string, start: nat, fields: seq<string>)
    requires start <= |ip|
    requires DottedQuad.Fields(ip) == fields + DottedQuad.Fields(ip[start..])
    ensures DottedQuad.Find(ip, '.', start).None? ==> DottedQuad.Fields(ip) == fields + [ip[start..]]
    ensures DottedQuad.Find(ip, '.', start).Some? ==>
              var k := DottedQuad.Find(ip, '.', start).value;
              DottedQuad.Fields(ip) == fields + [ip[start..k]] + DottedQuad.Fields(ip[k + 1..])
  {
    DottedQuad.SplitAtFound(ip, start);
  }

  /** The shifted bytes of fields `i..3` added up, when there are four fields and each is a byte. */
  function FieldSum(f: seq<string>, i: nat): Option<nat>
    requires i <= 4
    decreases 4 - i
  {
    if |f| != 4 then None
    else if i == 4 then Some(0)
    else
      var o := DottedQuad.OctetValue(f[i]);
      if o.None? then None else Plus(Place(o.value, i), FieldSum(f, i + 1))
  }

  lemma LastRoundAgrees(ip: string, start: nat, f: seq<string>)
    requires start <= |ip| && DottedQuad.Find(ip, '.', start).None?
    requires |f| == 4 && f[3] == ip[start..]
    ensures Octets(ip, start, 3) == FieldSum(f, 3)
  {
    assert FieldSum(f, 4) == Some(0);
  }

  lemma MiddleRoundAgrees(ip: string, start: nat, i: nat, dot: nat, f: seq<string>)
    requires start <= |ip| && i < 3 && DottedQuad.Find(ip, '.', start) == Some(dot)
    requires i < |f| && f[i] == ip[start..dot] && Octets(ip, dot + 1, i + 1) == FieldSum(f, i + 1)
    ensures Octets(ip, start, i) == FieldSum(f, i)
  {
    OctetsRound(ip, start, i, dot);
    var o := DottedQuad.OctetValue(f[i]);
    if o.Some? && |f| == 4 {
      assert FieldSum(f, i) == Plus(Place(o.value, i), FieldSum(f, i + 1));
    }
  }

  /** A round before the last reads up to the dot it finds and adds the shifted byte to the rounds after it. */
  lemma OctetsRound(ip: string, start: nat, i: nat, dot: nat)
    requires start <= |ip| && i < 3 && DottedQuad.Find(ip, '.', start) == Some(dot)
    ensures var o := DottedQuad.OctetValue(ip[start..dot]);
            Octets(ip, start, i) == if o.None? then None else Plus(Place(o.value, i), Octets(ip, dot + 1, i + 1))
  {
    var found := DottedQuad.Find(ip, '.', start);
    assert found.Some? && found.value == dot;
  }

  /** A field holding a dot is not a byte. */
  lemma DotInOctet(part: string, k: nat)
    requires k < |part| && part[k] == '.'
    ensures DottedQuad.OctetValue(part).None?
  {
  }

  /**
   * The rounds from `start` on agree with the fields after the `|fields|` already
   * read: they succeed exactly when there are four fields and each remaining one is
   * a byte, and then add the same shifted bytes.
   */
  lemma {:induction false} OctetsAgree(ip: string, start: nat, fields: seq<string>)
    requires start <= |ip| && |fields| < 4
    requires DottedQuad.Fields(ip) == fields + DottedQuad.Fields(ip[start..])
    ensures Octets(ip, start, |fields|) == FieldSum(DottedQuad.Fields(ip), |fields|)
    decreases 4 - |fields|
  {
    var i := |fields|;
    var f := DottedQuad.Fields(ip);
    var dot := DottedQuad.Find(ip, '.', start);
    FieldsAhead(ip, start, fields);
    if dot.None? && i < 3 {
      assert |f| == i + 1;
    } else if i == 3 && dot.Some? {
      DotInOctet(ip[start..], dot.value - start);
      assert |f| > 4;
    } else if i == 3 {
      LastRoundAgrees(ip, start, f);
    } else {
      var k: nat := dot.value;
      var part := ip[start..k];
      var read := fields + [part];
      assert f == read + DottedQuad.Fields(ip[k + 1..]) && |read| == i + 1;
      OctetsAgree(ip, k + 1, read);
      assert f[i] == part;
      MiddleRoundAgrees(ip, start, i, k, f);
    }
  }

  /** Adding up the shifted bytes of the four fields gives the address `Parse` reads. */
  lemma FieldSumParse(ip: string)
    ensures FieldSum(DottedQuad.Fields(ip), 0).None? <==> DottedQuad.Parse(ip).None?
    ensures DottedQuad.Parse(ip).Some? ==> FieldSum(DottedQuad.Fields(ip), 0).value == DottedQuad.Parse(ip).value
  {
    var f := DottedQuad.Fields(ip);
    if |f| == 4 {
      var s0, s1, s2, s3, s4 := FieldSum(f, 0), FieldSum(f, 1), FieldSum(f, 2), FieldSum(f, 3), FieldSum(f, 4);
    }
  }

  /** The rounds of `ipStringToInt` accept exactly the dotted quads, and add up to their address. */
  lemma OctetsParse(ip: string)
    ensures Octets(ip, 0, 0).None? <==> DottedQuad.Parse(ip).None?
    ensures DottedQuad.Parse(ip).Some? ==> Octets(ip, 0, 0).value == DottedQuad.Parse(ip).value
  {
    assert ip[0..] == ip;
    OctetsAgree(ip, 0, []);
    FieldSumParse(ip);
  }

  /** A round that finds no dot before the last field makes the rounds fail. */
  lemma NoDotRejects(ip: string, start: nat, i: nat, result: nat, whole: Option<nat>)
    requires start <= |ip| && i < 3 && DottedQuad.Find(ip, '.', start).None?
    requires whole == Plus(result, Octets(ip, start, i))
    ensures whole == None
  {
  }

  /** A round whose field is not a byte makes the rounds fail. */
  lemma BadPartRejects(ip: string, start: nat, i: nat, dot: Option<nat>, part: string,
                       result: nat, whole: Option<nat>)
    requires start <= |ip| && i < 4 && dot == DottedQuad.Find(ip, '.', start) && (dot.Some? || i == 3)
    requires part == if i == 3 then ip[start..] else ip[start..dot.value]
    requires DottedQuad.OctetValue(part).None?
    requires whole == Plus(result, Octets(ip, start, i))
    ensures whole == None
  {
  }

  /**
   * A round that reads `byte` ORs it into `result` in its place, giving `ored`: before
   * the last round it hands over to the round from `next`, just after the dot, and
   * the last round ends the rounds. The new result is clear below the byte's place.
   */
  lemma RoundReads(ip: string, start: nat, i: nat, dot: Option<nat>, next: nat, byte: u8,
                   result: nat, ored: nat, whole: Option<nat>)
    requires start <= |ip| && i < 4 && dot == DottedQuad.Find(ip, '.', start) && (dot.Some? || i == 3)
    requires i < 3 ==> next == dot.value + 1
    requires DottedQuad.OctetValue(if i == 3 then ip[start..] else ip[start..dot.value]) == Some(byte)
    requires whole == Plus(result, Octets(ip, start, i)) && result % Above(i) == 0
    requires ored == BitOr(result, ShiftLeft32(byte, 24 - 8 * i))
    ensures ored % Above(i + 1) == 0
    ensures i < 3 ==> next <= |ip| && whole == Plus(ored, Octets(ip, next, i + 1))
    ensures i == 3 ==> whole == Some(ored)
  {
    OrInPlace(result, byte, i);
    RoundAdds(ip, start, i, dot, next, byte, result, whole);
  }

  /** The round's byte, added in its place, is what `Octets` adds before handing over. */
  lemma RoundAdds(ip: string, start: nat, i: nat, dot: Option<nat>, next: nat, byte: u8,
                  result: nat, whole: Option<nat>)
    requires start <= |ip| && i < 4 && dot == DottedQuad.Find(ip, '.', start) && (dot.Some? || i == 3)
    requires i < 3 ==> next == dot.value + 1
    requires DottedQuad.OctetValue(if i == 3 then ip[start..] else ip[start..dot.value]) == Some(byte)
    requires whole == Plus(result, Octets(ip, start, i))
    ensures i < 3 ==> next <= |ip| && whole == Plus(result + Place(byte, i), Octets(ip, next, i + 1))
    ensures i == 3 ==> whole == Some(result + Place(byte, i))
  {
    if i < 3 {
      var later := Octets(ip, next, i + 1);
      assert Octets(ip, start, i) == Plus(Place(byte, i), later);
    } else {
      assert Octets(ip, start, 3) == Some(Place(byte, 3));
    }
  }

  /** A length as a `uint16_t` parameter receives it: reduced modulo 2^16. */
  function U16(n: nat): (r: u16)
    ensures n <= 0xFFFF ==> r == n
  {
    n % 0x1_0000
  }

  /** Reducing a summand modulo 2^16 first does not change the reduced sum. */
  lemma U16Plus(a: nat, n: nat)
    ensures U16(a + U16(n)) == U16(a + n)
  {
    var q := n / 0x1_0000;
    assert n == q * 0x1_0000 + U16(n);
    assert a + n == q * 0x1_0000 + (a + U16(n));
    assert (q * 0x1_0000 + (a + U16(n))) % 0x1_0000 == (a + U16(n)) % 0x1_0000;
  }

  /**
   * The header with its checksum field filled in: the complement of the folded sum of
   * the header's words with that field zero. Every other field is kept, and the
   * checksum of the serialised result is 0, which is the receiver's test in section 3.1
   * of RFC 791.
   */
  function Seal(h: IPv4Header): (r: IPv4Header)
    ensures r.(headerChecksum := h.headerChecksum) == h
    ensures Checksum.Compute(0, SerializeHeader(r)) == 0
  {
    var zeroed := SerializeHeader(h.(headerChecksum := 0));
    var c := Checksum.Compute(0, zeroed);
    SetChecksum(h.(headerChecksum := 0), c);
    Checksum.NoWrap(0, zeroed);
    Checksum.SelfVerifies(0, zeroed, IPv4_CHECKSUM_OFFSET);
    h.(headerChecksum := c)
  }

  /** Filling in the checksum field of a header stores its two bytes at offsets 10 and 11 and changes nothing else. */
  lemma SetChecksum(h: IPv4Header, c: u16)
    ensures SerializeHeader(h.(headerChecksum := c)) == Checksum.Patch16(SerializeHeader(h), IPv4_CHECKSUM_OFFSET, c)
  {
  }

  /**
   * The checksum step of `createIPHeader`: the words of the header are summed with the
   * checksum bytes still zero, the carries folded back in, and the complement stored
   * big-endian at bytes 10-11.
   */
  method StoreChecksum(header: seq<u8>, ghost h: IPv4Header) returns (r: seq<u8>)
    requires header == SerializeHeader(h) && h.headerChecksum == 0
    ensures r == SerializeHeader(Seal(h))
  {
    var sum := Checksum.SumWords(0, header);
    var folded := Checksum.FoldCarries(sum);
    var checksum: u16 := 0xFFFF - folded;
    r := Checksum.Patch16(header, IPv4_CHECKSUM_OFFSET, checksum);
    SetChecksum(h, checksum);
    assert h.(headerChecksum := 0) == h;
  }

  /**
   * The ICMP message an ICMP builder puts after the IPv4 header: a fresh header whose
   * checksum is that of header and payload with the checksum field zero, then the payload.
   */
  function IcmpMessage(icmpType: u8, identifier: u16, sequence: u16, payload: seq<u8>): seq<u8>
  {
    var h := Icmp.CreateHeader(icmpType, identifier, sequence);
    Icmp.SerializeHeader(h.(checksum := Checksum.Compute(0, Icmp.SerializeHeader(h) + payload))) + payload
  }

  /**
   * The total-length field a builder seals counts the whole packet: a header whose
   * length was set to 20 plus the bytes after it reads back, at the receiver, as the
   * packet's own length in 16 bits, and as that length itself for any packet that
   * fits in an IPv4 datagram.
   */
  lemma TotalLengthCounts(h: IPv4Header, message: seq<u8>)
    requires h.totalLength == U16(IPv4_HEADER_SIZE + |message|)
    ensures var packet := SerializeHeader(Seal(h)) + message;
            DecodeHeader(packet).totalLength == U16(|packet|)
            && (|packet| <= 0xFFFF ==> DecodeHeader(packet).totalLength == |packet|)
  {
    DecodeSerialize(Seal(h), message);
  }

  /** The message reads back as the header it was built from, followed by the payload. */
  lemma IcmpMessageParses(icmpType: u8, identifier: u16, sequence: u16, payload: seq<u8>)
    ensures var m := IcmpMessage(icmpType, identifier, sequence, payload);
            var h := Icmp.ParseHeader(m, 0);
            |m| == Icmp.ICMP_HEADER_SIZE + |payload| && m[Icmp.ICMP_HEADER_SIZE..] == payload
            && h.icmpType == icmpType && h.code == 0 && h.identifier == identifier && h.sequence == sequence
  {
    var h := Icmp.CreateHeader(icmpType, identifier, sequence);
    var sealed := h.(checksum := Checksum.Compute(0, Icmp.SerializeHeader(h) + payload));
    Icmp.ParseSerialize([], sealed, payload);
    assert [] + Icmp.SerializeHeader(sealed) + payload == Icmp.SerializeHeader(sealed) + payload;
  }

  /** A receiver summing the whole message, checksum included, gets 0. */
  lemma IcmpMessageVerifies(icmpType: u8, identifier: u16, sequence: u16, payload: seq<u8>)
    requires Icmp.ICMP_HEADER_SIZE + |payload| <= 0xFFFF
    ensures Checksum.Compute(0, IcmpMessage(icmpType, identifier, sequence, payload)) == 0
  {
    var h := Icmp.CreateHeader(icmpType, identifier, sequence);
    assert h.(checksum := 0) == h;
    Icmp.ChecksumSelfVerifies(h, payload);
  }

  /**
   * The TCP segment a TCP builder puts after the IPv4 header: a sample header whose
   * checksum covers the pseudo-header of the two addresses and the segment with the
   * checksum field zero, then the payload.
   */
  function TcpSegment(srcIp: u32, dstIp: u32, srcPort: u16, dstPort: u16, flags: u8, payload: seq<u8>): seq<u8>
  {
    var h := Tcp.CreateHeader(srcPort, dstPort, flags);
    var zeroed := Tcp.SerializeHeader(h) + payload;
    var init := Checksum.PseudoHeaderSum(srcIp, dstIp, PROTOCOL_TCP, |zeroed|);
    Tcp.SerializeHeader(h.(checksum := Checksum.Compute(init, zeroed))) + payload
  }

  /** The segment reads back as the header it was built from, followed by the payload. */
  lemma TcpSegmentParses(srcIp: u32, dstIp: u32, srcPort: u16, dstPort: u16, flags: u8, payload: seq<u8>)
    ensures var m := TcpSegment(srcIp, dstIp, srcPort, dstPort, flags, payload);
            var h := Tcp.ParseHeader(m, 0);
            |m| == Tcp.TCP_HEADER_SIZE + |payload| && m[Tcp.TCP_HEADER_SIZE..] == payload
            && h.srcPort == srcPort && h.dstPort == dstPort && h.flags == flags
            && Tcp.DataOffsetBytes(h) == Tcp.TCP_HEADER_SIZE
  {
    var h := Tcp.CreateHeader(srcPort, dstPort, flags);
    var zeroed := Tcp.SerializeHeader(h) + payload;
    var init := Checksum.PseudoHeaderSum(srcIp, dstIp, PROTOCOL_TCP, |zeroed|);
    var sealed := h.(checksum := Checksum.Compute(init, zeroed));
    Tcp.ParseSerialize([], sealed, payload);
    assert [] + Tcp.SerializeHeader(sealed) + payload == Tcp.SerializeHeader(sealed) + payload;
  }

  /** A receiver summing pseudo-header and segment, checksum included, gets 0. */
  lemma TcpSegmentVerifies(srcIp: u32, dstIp: u32, srcPort: u16, dstPort: u16, flags: u8, payload: seq<u8>)
    requires Tcp.TCP_HEADER_SIZE + |payload| <= 0xFFFF
    ensures var m := TcpSegment(srcIp, dstIp, srcPort, dstPort, flags, payload);
            Checksum.Compute(Checksum.PseudoHeaderSum(srcIp, dstIp, PROTOCOL_TCP, |m|), m) == 0
  {
    var h := Tcp.CreateHeader(srcPort, dstPort, flags);
    assert h.(checksum := 0) == h;
    Tcp.ChecksumSelfVerifies(srcIp, dstIp, h, payload);
  }

  /**
   * The UDP datagram a UDP builder puts after the IPv4 header: a header whose length
   * counts header and payload, whose checksum covers the pseudo-header and the
   * datagram with the checksum field zero, then the payload.
   */
  function UdpDatagram(srcIp: u32, dstIp: u32, srcPort: u16, dstPort: u16, payload: seq<u8>): seq<u8>
  {
    var h := Udp.CreateHeader(srcPort, dstPort, U16(|payload|));
    var zeroed := Udp.SerializeHeader(h) + payload;
    var init := Checksum.PseudoHeaderSum(srcIp, dstIp, PROTOCOL_UDP, |zeroed|);
    Udp.SerializeHeader(h.(checksum := Checksum.Compute(init, zeroed))) + payload
  }

  /** The datagram reads back as the header it was built from; its length field is its length. */
  lemma UdpDatagramParses(srcIp: u32, dstIp: u32, srcPort: u16, dstPort: u16, payload: seq<u8>)
    ensures var m := UdpDatagram(srcIp, dstIp, srcPort, dstPort, payload);
            var h := Udp.ParseHeader(m, 0);
            |m| == Udp.UDP_HEADER_SIZE + |payload| && m[Udp.UDP_HEADER_SIZE..] == payload
            && h.srcPort == srcPort && h.dstPort == dstPort && h.length == U16(|m|)
  {
    var h := Udp.CreateHeader(srcPort, dstPort, U16(|payload|));
    var zeroed := Udp.SerializeHeader(h) + payload;
    var init := Checksum.PseudoHeaderSum(srcIp, dstIp, PROTOCOL_UDP, |zeroed|);
    var sealed := h.(checksum := Checksum.Compute(init, zeroed));
    Udp.ParseSerialize([], sealed, payload);
    assert [] + Udp.SerializeHeader(sealed) + payload == Udp.SerializeHeader(sealed) + payload;
    U16Plus(Udp.UDP_HEADER_SIZE, |payload|);
  }

  /** A receiver summing pseudo-header and datagram, checksum included, gets 0. */
  lemma UdpDatagramVerifies(srcIp: u32, dstIp: u32, srcPort: u16, dstPort: u16, payload: seq<u8>)
    requires Udp.UDP_HEADER_SIZE + |payload| <= 0xFFFF
    ensures var m := UdpDatagram(srcIp, dstIp, srcPort, dstPort, payload);
            Checksum.Compute(Checksum.PseudoHeaderSum(srcIp, dstIp, PROTOCOL_UDP, |m|), m) == 0
  {
    var h := Udp.CreateHeader(srcPort, dstPort, U16(|payload|));
    assert h.(checksum := 0) == h;
    Udp.ChecksumSelfVerifies(srcIp, dstIp, h, payload);
  }

  /** The two checksum stores of a builder, made in the packet at `|prefix| + off`, land in the segment at `off`. */
  lemma StoreInSegment(prefix: seq<u8>, segment: seq<u8>, off: nat, c: u16)
    requires off + 2 <= |segment|
    ensures Checksum.Patch16(prefix + segment, |prefix| + off, c) == prefix + Checksum.Patch16(segment, off, c)
  {
  }

  /** What the ICMP builder's checksum stores leave behind: the IPv4 header, then the ICMP message. */
  lemma IcmpStored(ipHeader: seq<u8>, icmpType: u8, identifier: u16, sequence: u16, payload: seq<u8>, c: u16)
    requires |ipHeader| == IPv4_HEADER_SIZE
    requires c == Checksum.Compute(0, Icmp.SerializeHeader(Icmp.CreateHeader(icmpType, identifier, sequence)) + payload)
    ensures var at := IPv4_HEADER_SIZE + Icmp.ICMP_CHECKSUM_OFFSET;
            Checksum.Patch16(ipHeader + Icmp.SerializeHeader(Icmp.CreateHeader(icmpType, identifier, sequence)) + payload, at, c)
            == ipHeader + IcmpMessage(icmpType, identifier, sequence, payload)
  {
    var h := Icmp.CreateHeader(icmpType, identifier, sequence);
    assert ipHeader + Icmp.SerializeHeader(h) + payload == ipHeader + (Icmp.SerializeHeader(h) + payload);
    StoreInSegment(ipHeader, Icmp.SerializeHeader(h) + payload, Icmp.ICMP_CHECKSUM_OFFSET, c);
    assert Checksum.Patch16(Icmp.SerializeHeader(h) + payload, Icmp.ICMP_CHECKSUM_OFFSET, c)
        == Icmp.SerializeHeader(h.(checksum := c)) + payload;
  }

  /** What the TCP builder's checksum stores leave behind: the IPv4 header, then the TCP segment. */
  lemma TcpStored(ipHeader: seq<u8>, srcIp: u32, dstIp: u32, srcPort: u16, dstPort: u16, flags: u8, payload: seq<u8>, c: u16)
    requires |ipHeader| == IPv4_HEADER_SIZE
    requires var segment := Tcp.SerializeHeader(Tcp.CreateHeader(srcPort, dstPort, flags)) + payload;
             c == Checksum.Compute(Checksum.PseudoHeaderSum(srcIp, dstIp, PROTOCOL_TCP, |segment|), segment)
    ensures var at := IPv4_HEADER_SIZE + Tcp.TCP_CHECKSUM_OFFSET;
            Checksum.Patch16(ipHeader + Tcp.SerializeHeader(Tcp.CreateHeader(srcPort, dstPort, flags)) + payload, at, c)
            == ipHeader + TcpSegment(srcIp, dstIp, srcPort, dstPort, flags, payload)
  {
    var h := Tcp.CreateHeader(srcPort, dstPort, flags);
    assert ipHeader + Tcp.SerializeHeader(h) + payload == ipHeader + (Tcp.SerializeHeader(h) + payload);
    StoreInSegment(ipHeader, Tcp.SerializeHeader(h) + payload, Tcp.TCP_CHECKSUM_OFFSET, c);
    assert Checksum.Patch16(Tcp.SerializeHeader(h) + payload, Tcp.TCP_CHECKSUM_OFFSET, c)
        == Tcp.SerializeHeader(h.(checksum := c)) + payload;
  }

  /** What the UDP builder's checksum stores leave behind: the IPv4 header, then the UDP datagram. */
  lemma UdpStored(ipHeader: seq<u8>, srcIp: u32, dstIp: u32, srcPort: u16, dstPort: u16, payload: seq<u8>, c: u16)
    requires |ipHeader| == IPv4_HEADER_SIZE
    requires var datagram := Udp.SerializeHeader(Udp.CreateHeader(srcPort, dstPort, U16(|payload|))) + payload;
             c == Checksum.Compute(Checksum.PseudoHeaderSum(srcIp, dstIp, PROTOCOL_UDP, |datagram|), datagram)
    ensures var at := IPv4_HEADER_SIZE + Udp.UDP_CHECKSUM_OFFSET;
            Checksum.Patch16(ipHeader + Udp.SerializeHeader(Udp.CreateHeader(srcPort, dstPort, U16(|payload|))) + payload, at, c)
            == ipHeader + UdpDatagram(srcIp, dstIp, srcPort, dstPort, payload)
  {
    var h := Udp.CreateHeader(srcPort, dstPort, U16(|payload|));
    assert ipHeader + Udp.SerializeHeader(h) + payload == ipHeader + (Udp.SerializeHeader(h) + payload);
    StoreInSegment(ipHeader, Udp.SerializeHeader(h) + payload, Udp.UDP_CHECKSUM_OFFSET, c);
    assert Checksum.Patch16(Udp.SerializeHeader(h) + payload, Udp.UDP_CHECKSUM_OFFSET, c)
        == Udp.SerializeHeader(h.(checksum := c)) + payload;
  }

  /**
   * The ICMP half of `build`: the ICMP header and the payload appended to the IPv4
   * header, the checksum over everything after the IPv4 header, stored at its offset.
   */
  method AssembleIcmp(ipHeader: seq<u8>, icmpType: u8, identifier: u16, sequence: u16, payload: seq<u8>)
    returns (packet: seq<u8>)
    requires |ipHeader| == IPv4_HEADER_SIZE
    ensures packet == ipHeader + IcmpMessage(icmpType, identifier, sequence, payload)
  {
    var header := Icmp.CreateHeader(icmpType, identifier, sequence);
    var icmpHeader := Icmp.SerializeHeader(header);
    packet := ipHeader + icmpHeader + payload;
    assert packet[IPv4_HEADER_SIZE..] == icmpHeader + payload;
    var checksum := Icmp.CalculateChecksum(packet[IPv4_HEADER_SIZE..]);
    packet := Checksum.Patch16(packet, IPv4_HEADER_SIZE + Icmp.ICMP_CHECKSUM_OFFSET, checksum);
    IcmpStored(ipHeader, icmpType, identifier, sequence, payload, checksum);
  }

  /**
   * The TCP half of `build`: the TCP header and the payload appended to the IPv4
   * header, the checksum over the pseudo-header and everything after the IPv4 header,
   * stored at its offset.
   */
  method AssembleTcp(ipHeader: seq<u8>, srcIp: u32, dstIp: u32, srcPort: u16, dstPort: u16, flags: u8, payload: seq<u8>)
    returns (packet: seq<u8>)
    requires |ipHeader| == IPv4_HEADER_SIZE
    ensures packet == ipHeader + TcpSegment(srcIp, dstIp, srcPort, dstPort, flags, payload)
  {
    var header := Tcp.CreateHeader(srcPort, dstPort, flags);
    var tcpData := Tcp.SerializeHeader(header);
    packet := ipHeader + tcpData + payload;
    assert packet[IPv4_HEADER_SIZE..] == tcpData + payload;
    var checksum := Tcp.CalculateChecksum(srcIp, dstIp, packet[IPv4_HEADER_SIZE..]);
    packet := Checksum.Patch16(packet, IPv4_HEADER_SIZE + Tcp.TCP_CHECKSUM_OFFSET, checksum);
    TcpStored(ipHeader, srcIp, dstIp, srcPort, dstPort, flags, payload, checksum);
  }

  /**
   * The UDP half of `build`: the UDP header, whose length field is the payload's
   * length, and the payload appended to the IPv4 header, the checksum over the
   * pseudo-header and everything after the IPv4 header, stored at its offset.
   */
  method AssembleUdp(ipHeader: seq<u8>, srcIp: u32, dstIp: u32, srcPort: u16, dstPort: u16, payload: seq<u8>)
    returns (packet: seq<u8>)
    requires |ipHeader| == IPv4_HEADER_SIZE
    ensures packet == ipHeader + UdpDatagram(srcIp, dstIp, srcPort, dstPort, payload)
  {
    var header := Udp.CreateHeader(srcPort, dstPort, U16(|payload|));
    var udpData := Udp.SerializeHeader(header);
    packet := ipHeader + udpData + payload;
    assert packet[IPv4_HEADER_SIZE..] == udpData + payload;
    var checksum := Udp.CalculateChecksum(srcIp, dstIp, packet[IPv4_HEADER_SIZE..]);
    packet := Checksum.Patch16(packet, IPv4_HEADER_SIZE + Udp.UDP_CHECKSUM_OFFSET, checksum);
    UdpStored(ipHeader, srcIp, dstIp, srcPort, dstPort, payload, checksum);
  }

  class IPv4PacketBuilder {
    var srcIp: string
    var dstIp: string
    var ttl: u8
    var identification: u16
    var tos: u8
    var flagsFragmentOffset: u16

    /** The defaults: 192.168.1.100 to 192.168.1.50, TTL 64, identification 0, TOS 0, don't-fragment set. */
    predicate Defaults()
      reads this
    {
      srcIp == "192.168.1.100" && dstIp == "192.168.1.50"
      && ttl == 64 && identification == 0 && tos == 0 && flagsFragmentOffset == 0x4000
    }

    constructor()
      ensures Defaults()
    {
      srcIp := "192.168.1.100";
      dstIp := "192.168.1.50";
      ttl := 64;
      identification := 0;
      tos := 0;
      flagsFragmentOffset := 0x4000;
    }

    /** The header this builder writes before its checksum is filled in: version 4, 5 words long. */
    function Template(totalLength: u16, protocol: u8, src: u32, dst: u32): IPv4Header
      reads this
    {
      IPv4Header(0x45, tos, totalLength, identification, flagsFragmentOffset, ttl, protocol, 0, src, dst)
    }

    /**
     * `createIPHeader`: the 20 header bytes with a zero checksum, the two addresses in
     * network byte order, then the checksum of those bytes stored at bytes 10-11. An
     * address that is not a dotted quad makes the whole header fail.
     */
    method CreateIPHeader(totalLength: u16, protocol: u8) returns (r: Option<seq<u8>>)
      ensures r.None? <==> DottedQuad.Parse(srcIp).None? || DottedQuad.Parse(dstIp).None?
      ensures r.Some? ==>
                r.value == SerializeHeader(Seal(Template(totalLength, protocol,
                                                         DottedQuad.Parse(srcIp).value, DottedQuad.Parse(dstIp).value)))
    {
      var header: seq<u8> := [0x45, tos] + Be16(totalLength) + Be16(identification) + Be16(flagsFragmentOffset)
                              + [ttl, protocol, 0, 0];
      var src := IpStringToInt(srcIp);
      if src.None? {
        return None;
      }
      var dst := IpStringToInt(dstIp);
      if dst.None? {
        return None;
      }
      header := header + Be32(src.value) + Be32(dst.value);
      header := StoreChecksum(header, Template(totalLength, protocol, src.value, dst.value));
      return Some(header);
    }

    /**
     * `ipStringToInt`: four '.'-separated decimal fields, each at most 255, shifted
     * into place most significant first. A missing dot before the fourth field or a
     * field out of range is an error.
     */
    method IpStringToInt(ip: string) returns (r: Option<u32>)
      ensures r == DottedQuad.Parse(ip)
    {
      var result: nat := 0;
      var start: nat := 0;
      var shift: int := 24;
      ghost var whole := Octets(ip, 0, 0);
      for i := 0 to 4
        invariant start <= |ip| && shift == 24 - 8 * i
        invariant result % Above(i) == 0
        invariant i < 4 ==> whole == Plus(result, Octets(ip, start, i))
        invariant i == 4 ==> whole == Some(result)
      {
        var dot := DottedQuad.Find(ip, '.', start);
        if dot.None? && i < 3 {
          NoDotRejects(ip, start, i, result, whole);
          OctetsParse(ip);
          return None;
        }
        var part := if i == 3 then ip[start..] else ip[start..dot.value];
        var value := DottedQuad.ParseDecimal(part);
        if value.None? || value.value > 255 {
          BadPartRejects(ip, start, i, dot, part, result, whole);
          OctetsParse(ip);
          return None;
        }
        var byte: u8 := value.value;
        ghost var from, sum := start, result;
        result := BitOr(result, ShiftLeft32(byte, shift));
        shift := shift - 8;
        if i < 3 {
          start := dot.value + 1;
        }
        RoundReads(ip, from, i, dot, start, byte, sum, result, whole);
      }
      OctetsParse(ip);
      return Some(result);
    }
  }

  /**
   * An ICMP packet builder: the IPv4 builder's settings, then type, identifier,
   * sequence number and payload. The defaults build an echo request with identifier
   * 1234, sequence 1 and the payload "Hello, ICMP World!".
   */
  class ICMPPacketBuilder {
    const ip: IPv4PacketBuilder
    var icmpType: u8
    var icmpId: u16
    var icmpSeq: u16
    var icmpPayload: seq<u8>

    constructor()
      ensures fresh(ip) && ip.Defaults()
      ensures icmpType == Icmp.ICMP_ECHO_REQUEST && icmpId == 1234 && icmpSeq == 1
      ensures icmpPayload == Ascii("Hello, ICMP World!")
    {
      ip := new IPv4PacketBuilder();
      icmpType := Icmp.ICMP_ECHO_REQUEST;
      icmpId := 1234;
      icmpSeq := 1;
      icmpPayload := Ascii("Hello, ICMP World!");
    }

    /**
     * `build`: the IPv4 header for protocol 1 and the whole length, the ICMP header
     * and the payload, then the ICMP checksum over everything after the IPv4 header
     * stored at its offset. An address that is not a dotted quad gives the empty packet.
     */
    method Build() returns (packet: seq<u8>)
      ensures packet == [] <==> DottedQuad.Parse(ip.srcIp).None? || DottedQuad.Parse(ip.dstIp).None?
      ensures packet != [] ==>
                packet == SerializeHeader(Seal(ip.Template(U16(IPv4_HEADER_SIZE + Icmp.ICMP_HEADER_SIZE + |icmpPayload|),
                                                           PROTOCOL_ICMP, DottedQuad.Parse(ip.srcIp).value,
                                                           DottedQuad.Parse(ip.dstIp).value)))
                          + IcmpMessage(icmpType, icmpId, icmpSeq, icmpPayload)
      ensures packet != [] ==> |packet| >= IPv4_HEADER_SIZE && DecodeHeader(packet).totalLength == U16(|packet|)
    {
      var ipHeader := ip.CreateIPHeader(U16(IPv4_HEADER_SIZE + Icmp.ICMP_HEADER_SIZE + |icmpPayload|), PROTOCOL_ICMP);
      if ipHeader.None? {
        return [];
      }
      packet := AssembleIcmp(ipHeader.value, icmpType, icmpId, icmpSeq, icmpPayload);
      IcmpMessageParses(icmpType, icmpId, icmpSeq, icmpPayload);
      TotalLengthCounts(ip.Template(U16(IPv4_HEADER_SIZE + Icmp.ICMP_HEADER_SIZE + |icmpPayload|), PROTOCOL_ICMP,
                                    DottedQuad.Parse(ip.srcIp).value, DottedQuad.Parse(ip.dstIp).value),
                        IcmpMessage(icmpType, icmpId, icmpSeq, icmpPayload));
    }
  }

  /**
   * A TCP packet builder: the IPv4 builder's settings, then ports, flags and payload.
   * The defaults build a SYN from port 12345 to port 80 with no payload.
   */
  class TCPPacketBuilder {
    const ip: IPv4PacketBuilder
    var tcpSrcPort: u16
    var tcpDstPort: u16
    var tcpFlags: u8
    var tcpPayload: seq<u8>

    constructor()
      ensures fresh(ip) && ip.Defaults()
      ensures tcpSrcPort == 12345 && tcpDstPort == 80 && tcpFlags == Tcp.TCP_SYN && tcpPayload == []
    {
      ip := new IPv4PacketBuilder();
      tcpSrcPort := 12345;
      tcpDstPort := 80;
      tcpFlags := Tcp.TCP_SYN;
      tcpPayload := [];
    }

    /**
     * `build`: the IPv4 header for protocol 6 and the whole length, the TCP header and
     * the payload, then the TCP checksum over the pseudo-header of the two addresses
     * and everything after the IPv4 header, stored at its offset. An address that is
     * not a dotted quad gives the empty packet.
     */
    method Build() returns (packet: seq<u8>)
      ensures packet == [] <==> DottedQuad.Parse(ip.srcIp).None? || DottedQuad.Parse(ip.dstIp).None?
      ensures packet != [] ==>
                var src, dst := DottedQuad.Parse(ip.srcIp).value, DottedQuad.Parse(ip.dstIp).value;
                packet == SerializeHeader(Seal(ip.Template(U16(IPv4_HEADER_SIZE + Tcp.TCP_HEADER_SIZE + |tcpPayload|),
                                                           PROTOCOL_TCP, src, dst)))
                          + TcpSegment(src, dst, tcpSrcPort, tcpDstPort, tcpFlags, tcpPayload)
      ensures packet != [] ==> |packet| >= IPv4_HEADER_SIZE && DecodeHeader(packet).totalLength == U16(|packet|)
    {
      var ipHeader := ip.CreateIPHeader(U16(IPv4_HEADER_SIZE + Tcp.TCP_HEADER_SIZE + |tcpPayload|), PROTOCOL_TCP);
      if ipHeader.None? {
        return [];
      }
      var src := ip.IpStringToInt(ip.srcIp);
      var dst := ip.IpStringToInt(ip.dstIp);
      packet := AssembleTcp(ipHeader.value, src.value, dst.value, tcpSrcPort, tcpDstPort, tcpFlags, tcpPayload);
      TcpSegmentParses(src.value, dst.value, tcpSrcPort, tcpDstPort, tcpFlags, tcpPayload);
      TotalLengthCounts(ip.Template(U16(IPv4_HEADER_SIZE + Tcp.TCP_HEADER_SIZE + |tcpPayload|), PROTOCOL_TCP,
                                    src.value, dst.value),
                        TcpSegment(src.value, dst.value, tcpSrcPort, tcpDstPort, tcpFlags, tcpPayload));
    }
  }

  /**
   * A UDP packet builder: the IPv4 builder's settings, then ports and payload. The
   * defaults build a datagram from port 12345 to port 53 carrying "Hello, UDP World!".
   */
  class UDPPacketBuilder {
    const ip: IPv4PacketBuilder
    var udpSrcPort: u16
    var udpDstPort: u16
    var udpPayload: seq<u8>

    constructor()
      ensures fresh(ip) && ip.Defaults()
      ensures udpSrcPort == 12345 && udpDstPort == 53 && udpPayload == Ascii("Hello, UDP World!")
    {
      ip := new IPv4PacketBuilder();
      udpSrcPort := 12345;
      udpDstPort := 53;
      udpPayload := Ascii("Hello, UDP World!");
    }

    /**
     * `build`: the UDP header for the payload length, the IPv4 header for protocol 17
     * and the whole length, header and payload, then the UDP checksum over the
     * pseudo-header of the two addresses and everything after the IPv4 header, stored
     * at its offset. An address that is not a dotted quad gives the empty packet.
     */
    method Build() returns (packet: seq<u8>)
      ensures packet == [] <==> DottedQuad.Parse(ip.srcIp).None? || DottedQuad.Parse(ip.dstIp).None?
      ensures packet != [] ==>
                var src, dst := DottedQuad.Parse(ip.srcIp).value, DottedQuad.Parse(ip.dstIp).value;
                packet == SerializeHeader(Seal(ip.Template(U16(IPv4_HEADER_SIZE + Udp.UDP_HEADER_SIZE + |udpPayload|),
                                                           PROTOCOL_UDP, src, dst)))
                          + UdpDatagram(src, dst, udpSrcPort, udpDstPort, udpPayload)
      ensures packet != [] ==> |packet| >= IPv4_HEADER_SIZE && DecodeHeader(packet).totalLength == U16(|packet|)
    {
      var ipHeader := ip.CreateIPHeader(U16(IPv4_HEADER_SIZE + Udp.UDP_HEADER_SIZE + |udpPayload|), PROTOCOL_UDP);
      if ipHeader.None? {
        return [];
      }
      var src := ip.IpStringToInt(ip.srcIp);
      var dst := ip.IpStringToInt(ip.dstIp);
      packet := AssembleUdp(ipHeader.value, src.value, dst.value, udpSrcPort, udpDstPort, udpPayload);
      UdpDatagramParses(src.value, dst.value, udpSrcPort, udpDstPort, udpPayload);
      TotalLengthCounts(ip.Template(U16(IPv4_HEADER_SIZE + Udp.UDP_HEADER_SIZE + |udpPayload|), PROTOCOL_UDP,
                                    src.value, dst.value),
                        UdpDatagram(src.value, dst.value, udpSrcPort, udpDstPort, udpPayload));
    }
  }
}
