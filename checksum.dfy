/**
 * The Internet checksum of RFC 1071 as the C++ code computes it: big-endian 16-bit
 * words are added into a 32-bit accumulator (an odd final byte is the high byte of
 * a zero-padded word), carries are folded back with
 * `sum = (sum & 0xFFFF) + (sum >> 16)` until none remain, and the low 16 bits of
 * `~sum` are returned. The ICMP, TCP and UDP `calculateChecksum` functions and the
 * header checksum of `createIPHeader` all share this computation; TCP and UDP start
 * the accumulator from a pseudo-header sum.
 */
module Checksum {
  import opened Bytes

  /** One more than the largest value of the 32-bit accumulator. */
  const WRAP: nat := 0x1_0000_0000

  /** The sum of the big-endian 16-bit words of `data`; an odd last byte is a high byte. */
  function WordSum(data: seq<u8>): nat
    decreases |data|
  {
    if |data| == 0 then 0
    else if |data| == 1 then data[0] as int * 0x100
    else data[0] as int * 0x100 + data[1] + WordSum(data[2..])
  }

  /** Folds carries until the value fits in 16 bits; a non-zero value never folds to zero. */
  function Fold(s: nat): (r: nat)
    ensures r <= 0xFFFF
    ensures r == 0 <==> s == 0
    decreases s
  {
    if s < 0x1_0000 then s
    else
      var q, lo := s / 0x1_0000, s % 0x1_0000;
      assert s == q * 0x1_0000 + lo;
      Fold(lo + q)
  }

  /** Each folding step preserves the value modulo 0xFFFF, because 0x10000 is 1 modulo 0xFFFF. */
  lemma {:induction false} FoldResidue(s: nat)
    ensures Fold(s) % 0xFFFF == s % 0xFFFF
    decreases s
  {
    if s >= 0x1_0000 {
      var q, lo := s / 0x1_0000, s % 0x1_0000;
      assert s == q * 0xFFFF + (lo + q);
      ModMultiple(lo + q, q);
      FoldResidue(lo + q);
    }
  }

  /** The checksum of `data` with the accumulator started at `init`, as returned by the C++ code. */
  function Compute(init: u32, data: seq<u8>): u16
  {
    0xFFFF - Fold((init + WordSum(data)) % WRAP)
  }

  /**
   * The pseudo-header contribution that TCP (section 3.1 of RFC 793) and UDP (RFC 768)
   * add before the segment: both 16-bit halves of the source and destination
   * addresses, the protocol number and the segment length, in 32-bit arithmetic.
   */
  function PseudoHeaderSum(srcIp: u32, dstIp: u32, protocol: u8, length: nat): u32
  {
    (srcIp / 0x1_0000 + srcIp % 0x1_0000 + dstIp / 0x1_0000 + dstIp % 0x1_0000 + protocol + length) % WRAP
  }

  /** The 12-byte pseudo-header as the RFCs lay it out: source, destination, zero, protocol, length. */
  function PseudoHeader(srcIp: u32, dstIp: u32, protocol: u8, length: u16): (r: seq<u8>)
    ensures |r| == 12
  {
    Be32(srcIp) + Be32(dstIp) + [0, protocol] + Be16(length)
  }

  /** `data` with the 16-bit value `v` stored big-endian at `data[off..off+2]`. */
  function Patch16(data: seq<u8>, off: nat, v: u16): (r: seq<u8>)
    requires off + 2 <= |data|
    ensures |r| == |data| && r[off..off + 2] == Be16(v)
    ensures forall i :: 0 <= i < |data| && i != off && i != off + 1 ==> r[i] == data[i]
  {
    data[off := v / 0x100][off + 1 := v % 0x100]
  }

  /** The word-summing loop: the accumulator is a `uint32_t`, so every addition wraps. */
  method SumWords(init: u32, data: seq<u8>) returns (sum: u32)
    ensures sum == (init + WordSum(data)) % WRAP
  {
    sum := init;
    var i: nat := 0;
    while i < |data|
      invariant i <= |data| + 1 && i % 2 == 0
      invariant (sum + WordsFrom(data, i)) % WRAP == (init + WordSum(data)) % WRAP
      decreases |data| + 1 - i
    {
      var word: nat;
      if i + 1 < |data| {
        word := data[i] as int * 0x100 + data[i + 1];
      } else {
        word := data[i] as int * 0x100;
      }
      WordsFromStep(data, i);
      AddMod(sum + word, WordsFrom(data, i + 2));
      sum := (sum + word) % WRAP;
      i := i + 2;
    }
    assert sum == sum % WRAP;
  }

  /** The words of `data` from byte `i` on (none once `i` is past the end). */
  ghost function WordsFrom(data: seq<u8>, i: nat): nat
  {
    if i < |data| then WordSum(data[i..]) else 0
  }

  /** The words from byte `i` are the word at `i` (zero-padded at the end) and the words after it. */
  lemma WordsFromStep(data: seq<u8>, i: nat)
    requires i < |data|
    ensures WordsFrom(data, i)
         == (if i + 1 < |data| then data[i] as int * 0x100 + data[i + 1] else data[i] as int * 0x100)
            + WordsFrom(data, i + 2)
  {
    var rest := data[i..];
    if i + 2 < |data| {
      assert rest[2..] == data[i + 2..];
    } else if i + 2 == |data| {
      assert WordSum(rest[2..]) == 0;
    }
  }

  /** The carry-folding loop `while (sum >> 16) sum = (sum & 0xFFFF) + (sum >> 16);`. */
  method FoldCarries(sum: u32) returns (folded: u16)
    ensures folded == Fold(sum)
  {
    var s: u32 := sum;
    while s >= 0x1_0000
      invariant Fold(s) == Fold(sum)
      decreases s
    {
      s := s % 0x1_0000 + s / 0x1_0000;
    }
    folded := s;
  }

  /** Word sums split at an even boundary: the words of `a + b` are those of `a`, then of `b`. */
  lemma {:induction false} WordSumAppend(a: seq<u8>, b: seq<u8>)
    requires |a| % 2 == 0
    ensures WordSum(a + b) == WordSum(a) + WordSum(b)
  {
    if |a| > 0 {
      assert (a + b)[2..] == a[2..] + b;
      WordSumAppend(a[2..], b);
    } else {
      assert a + b == b;
    }
  }

  /** Storing `v` into a zeroed, word-aligned 16-bit slot adds exactly `v` to the word sum. */
  lemma {:induction false} WordSumPatch(data: seq<u8>, off: nat, v: u16)
    requires off % 2 == 0 && off + 2 <= |data|
    requires data[off] == 0 && data[off + 1] == 0
    ensures WordSum(Patch16(data, off, v)) == WordSum(data) + v
  {
    var p := Patch16(data, off, v);
    if off == 0 {
      assert p[2..] == data[2..];
    } else {
      assert p[2..] == Patch16(data[2..], off - 2, v);
      WordSumPatch(data[2..], off - 2, v);
    }
  }

  /** Each word is at most 0xFFFF, so `data` contributes at most 0xFFFF per started word. */
  lemma {:induction false} WordSumBound(data: seq<u8>)
    ensures WordSum(data) <= (|data| + 1) / 2 * 0xFFFF
  {
    if |data| >= 2 {
      WordSumBound(data[2..]);
    }
  }

  /**
   * Adding the complement of the folded sum makes the folded sum 0xFFFF ("negative
   * zero"), so the complement of the new sum is 0.
   */
  lemma FoldWithComplement(s: nat)
    ensures Fold(s + (0xFFFF - Fold(s))) == 0xFFFF
  {
    var f := Fold(s);
    var t := s + (0xFFFF - f);
    assert t > 0;
    FoldResidue(s);
    FoldResidue(t);
    var m := 0xFFFF;
    assert s == (s / m) * m + s % m;
    assert f == (f / m) * m + f % m;
    assert t == (s / m - f / m + 1) * m;
    ModMultiple(0, s / m - f / m + 1);
    assert Fold(t) % m == 0;
  }

  /**
   * RFC 1071 self-verification: computing the checksum of a message whose checksum
   * slot (a word-aligned pair of bytes) is zero and storing it in that slot makes
   * the checksum of the result 0, provided the 32-bit accumulator never wraps.
   */
  lemma SelfVerifies(init: u32, data: seq<u8>, off: nat)
    requires off % 2 == 0 && off + 2 <= |data|
    requires data[off] == 0 && data[off + 1] == 0
    requires init + WordSum(data) + 0xFFFF < WRAP
    ensures Compute(init, Patch16(data, off, Compute(init, data))) == 0
  {
    var s := init + WordSum(data);
    var c := Compute(init, data);
    ComputeWithoutWrap(init, data);
    var p := Patch16(data, off, c);
    WordSumPatch(data, off, c);
    ComputeWithoutWrap(init, p);
    ComplementCancels(s, c, init + WordSum(p));
  }

  /** Adding the complement of the folded sum to the sum leaves a sum whose complement is 0. */
  lemma ComplementCancels(s: nat, c: nat, t: nat)
    requires c == 0xFFFF - Fold(s) && t == s + c
    ensures 0xFFFF - Fold(t) == 0
  {
    FoldWithComplement(s);
  }

  /** While the accumulator does not wrap, the checksum is the complement of the folded plain sum. */
  lemma ComputeWithoutWrap(init: u32, data: seq<u8>)
    requires init + WordSum(data) < WRAP
    ensures Compute(init, data) == 0xFFFF - Fold(init + WordSum(data))
  {
    var x := init + WordSum(data);
    assert x == 0 * WRAP + x;
    assert x % WRAP == x;
  }

  /**
   * Messages of at most 0xFFFF bytes (the IPv4 limit) never wrap the accumulator,
   * whatever the pseudo-header contributes.
   */
  lemma NoWrap(init: u32, data: seq<u8>)
    requires |data| <= 0xFFFF
    requires init <= 4 * 0xFFFF + 0xFF + 0xFFFF
    ensures init + WordSum(data) + 0xFFFF < WRAP
  {
    WordSumBound(data);
  }

  /**
   * The arithmetic shortcut of the C++ code agrees with the RFC's definition: starting
   * the accumulator from `PseudoHeaderSum` gives the checksum of the 12-byte
   * pseudo-header followed by the segment.
   */
  lemma PseudoHeaderAgrees(srcIp: u32, dstIp: u32, protocol: u8, segment: seq<u8>)
    requires |segment| <= 0xFFFF
    ensures Compute(PseudoHeaderSum(srcIp, dstIp, protocol, |segment|), segment)
         == Compute(0, PseudoHeader(srcIp, dstIp, protocol, |segment|) + segment)
  {
    var ph := PseudoHeader(srcIp, dstIp, protocol, |segment|);
    var n := |segment|;
    WordSumAppend(ph, segment);
    PseudoHeaderWordSum(srcIp, dstIp, protocol, n);
    WordSumBound(segment);
    PseudoHeaderNoWrap(srcIp, dstIp, protocol, n);
    ComputeWithoutWrap(PseudoHeaderSum(srcIp, dstIp, protocol, n), segment);
    ComputeWithoutWrap(0, ph + segment);
  }

  /** For a length that fits in 16 bits, the pseudo-header sum never wraps and stays below 6 * 0xFFFF. */
  lemma PseudoHeaderNoWrap(srcIp: u32, dstIp: u32, protocol: u8, length: nat)
    requires length <= 0xFFFF
    ensures PseudoHeaderSum(srcIp, dstIp, protocol, length)
         == srcIp / 0x1_0000 + srcIp % 0x1_0000 + dstIp / 0x1_0000 + dstIp % 0x1_0000 + protocol + length
    ensures PseudoHeaderSum(srcIp, dstIp, protocol, length) < 6 * 0xFFFF
  {
    var plain := srcIp / 0x1_0000 + srcIp % 0x1_0000 + dstIp / 0x1_0000 + dstIp % 0x1_0000 + protocol + length;
    assert plain < 6 * 0xFFFF;
    assert plain == 0 * WRAP + plain;
  }

  /** The words of the pseudo-header are exactly the terms the C++ code adds. */
  lemma PseudoHeaderWordSum(srcIp: u32, dstIp: u32, protocol: u8, length: u16)
    ensures WordSum(PseudoHeader(srcIp, dstIp, protocol, length))
         == srcIp / 0x1_0000 + srcIp % 0x1_0000 + dstIp / 0x1_0000 + dstIp % 0x1_0000 + protocol + length
  {
    var ph := PseudoHeader(srcIp, dstIp, protocol, length);
    var s, d, l := Be32(srcIp), Be32(dstIp), Be16(length);
    var p1, p2, p3, p4, p5 := ph[2..], ph[4..], ph[6..], ph[8..], ph[10..];
    assert p1 == s[2..] + d + [0, protocol] + l && p1[2..] == p2;
    assert p2 == d + [0, protocol] + l && p2[2..] == p3;
    assert p3 == d[2..] + [0, protocol] + l && p3[2..] == p4;
    assert p4 == [0, protocol] + l && p4[2..] == p5;
    assert p5 == l && p5[2..] == [];
    assert WordSum(p5) == l[0] as int * 0x100 + l[1];
    assert WordSum(p4) == protocol + WordSum(p5);
    assert WordSum(p3) == d[2] as int * 0x100 + d[3] + WordSum(p4);
    assert WordSum(p2) == d[0] as int * 0x100 + d[1] + WordSum(p3);
    assert WordSum(p1) == s[2] as int * 0x100 + s[3] + WordSum(p2);
    assert WordSum(ph) == s[0] as int * 0x100 + s[1] + WordSum(p1);
    HalvesOf(srcIp);
    HalvesOf(dstIp);
  }

  /** The 16-bit halves of a 32-bit value, read from its big-endian bytes. */
  lemma HalvesOf(v: u32)
    ensures v / 0x1_0000 == Be32(v)[0] as int * 0x100 + Be32(v)[1]
    ensures v % 0x1_0000 == Be32(v)[2] as int * 0x100 + Be32(v)[3]
  {
    var b := Be32(v);
    var hi, lo := b[0] as int * 0x100 + b[1], b[2] as int * 0x100 + b[3];
    assert v == hi * 0x1_0000 + lo;
  }

  /** Adding a multiple of 0xFFFF does not change a value's residue modulo 0xFFFF. */
  lemma ModMultiple(a: int, q: int)
    ensures (q * 0xFFFF + a) % 0xFFFF == a % 0xFFFF
  {
    var m := 0xFFFF;
    var r := a % m;
    assert a == (a / m) * m + r;
    assert q * m + a == (q + a / m) * m + r;
  }

  /** Reducing an intermediate accumulator value modulo 2^32 does not change the final residue. */
  lemma AddMod(a: nat, b: nat)
    ensures ((a % WRAP) + b) % WRAP == (a + b) % WRAP
  {
    assert a == (a / WRAP) * WRAP + a % WRAP;
    assert a + b == (a / WRAP) * WRAP + (a % WRAP + b);
    var c := a % WRAP + b;
    assert c == (c / WRAP) * WRAP + c % WRAP;
    assert a + b == (a / WRAP + c / WRAP) * WRAP + c % WRAP;
  }
}
