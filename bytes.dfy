/**
 * Fixed-width unsigned integers and big-endian (network byte order) readers and
 * writers. These replace the C++ code's `memcpy` into packed structs followed by
 * `ntohs`/`ntohl`, and its `(x >> 8) & 0xFF` byte stores.
 */
module Bytes {

  type u8 = x: int | 0 <= x < 0x100
  type u16 = x: int | 0 <= x < 0x1_0000
  type u32 = x: int | 0 <= x < 0x1_0000_0000

  /** The two bytes of `v`, most significant first. */
  function Be16(v: u16): (r: seq<u8>)
    ensures |r| == 2 && r[0] as int * 0x100 + r[1] == v
  {
    [v / 0x100, v % 0x100]
  }

  /** The four bytes of `v`, most significant first. */
  function Be32(v: u32): (r: seq<u8>)
    ensures |r| == 4
    ensures r[0] as int * 0x100_0000 + r[1] as int * 0x1_0000 + r[2] as int * 0x100 + r[3] == v
  {
    var hi := v / 0x1_0000;
    var lo := v % 0x1_0000;
    assert v == hi * 0x1_0000 + lo;
    [hi / 0x100, hi % 0x100, lo / 0x100, lo % 0x100]
  }

  /** The 16-bit big-endian value stored at `s[i..i+2]`. */
  function ReadBe16(s: seq<u8>, i: nat): (r: u16)
    requires i + 2 <= |s|
    ensures Be16(r) == s[i..i + 2]
  {
    s[i] as int * 0x100 + s[i + 1]
  }

  /** The 32-bit big-endian value stored at `s[i..i+4]`. */
  function ReadBe32(s: seq<u8>, i: nat): (r: u32)
    requires i + 4 <= |s|
    ensures Be32(r) == s[i..i + 4]
  {
    var hi, lo := ReadBe16(s, i), ReadBe16(s, i + 2);
    Be32Halves(hi, lo);
    assert s[i..i + 4] == s[i..i + 2] + s[i + 2..i + 4];
    hi * 0x1_0000 + lo
  }

  /** The four bytes of a 32-bit value are the two bytes of its high half, then of its low half. */
  lemma Be32Halves(hi: u16, lo: u16)
    ensures hi * 0x1_0000 + lo < 0x1_0000_0000
    ensures Be32(hi * 0x1_0000 + lo) == Be16(hi) + Be16(lo)
  {
    var v := hi * 0x1_0000 + lo;
    assert v / 0x1_0000 == hi && v % 0x1_0000 == lo;
  }

  /** Reading back what `Be16` wrote, at any position of a larger buffer. */
  lemma ReadBe16At(prefix: seq<u8>, v: u16, suffix: seq<u8>)
    ensures ReadBe16(prefix + Be16(v) + suffix, |prefix|) == v
  {
    var s := prefix + Be16(v) + suffix;
    assert s[|prefix|] == Be16(v)[0] && s[|prefix| + 1] == Be16(v)[1];
  }

  /** Reading back what `Be32` wrote, at any position of a larger buffer. */
  lemma ReadBe32At(prefix: seq<u8>, v: u32, suffix: seq<u8>)
    ensures ReadBe32(prefix + Be32(v) + suffix, |prefix|) == v
  {
    var s := prefix + Be32(v) + suffix;
    var b := Be32(v);
    assert s[|prefix|] == b[0] && s[|prefix| + 1] == b[1];
    assert s[|prefix| + 2] == b[2] && s[|prefix| + 3] == b[3];
  }
}
