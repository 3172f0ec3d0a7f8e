/**
 * Bit operations on unsigned integers, stated arithmetically: the bitwise AND that
 * the routing table applies to addresses and masks, the 32-bit left shift that
 * builds a mask, and the prefix masks of CIDR notation (section 3.1 of RFC 4632).
 */
module Bits {
  import opened Bytes

  function Pow2(k: nat): (r: nat)
    ensures r > 0
  {
    if k == 0 then 1 else 2 * Pow2(k - 1)
  }

  /** Bitwise AND: bit `i` of the result is set exactly when bit `i` is set in both. */
  function BitAnd(a: nat, b: nat): (r: nat)
    ensures r <= a
    decreases a
  {
    if a == 0 || b == 0 then 0
    else 2 * BitAnd(a / 2, b / 2) + (if a % 2 == 1 && b % 2 == 1 then 1 else 0)
  }

  /** Bitwise OR: bit `i` of the result is set exactly when bit `i` is set in either. */
  function BitOr(a: nat, b: nat): nat
    decreases a
  {
    if a == 0 then b
    else if b == 0 then a
    else 2 * BitOr(a / 2, b / 2) + (if a % 2 == 1 || b % 2 == 1 then 1 else 0)
  }

  /** OR of a multiple of `2^k` with a number below `2^k` is their sum: no bit is set in both. */
  lemma {:induction false} OrDisjoint(x: nat, y: nat, k: nat)
    requires x % Pow2(k) == 0 && y < Pow2(k)
    ensures BitOr(x, y) == x + y
    decreases k
  {
    if x != 0 && y != 0 {
      var p := Pow2(k - 1);
      var q := x / Pow2(k);
      assert x == 2 * (p * q) by {
        assert x == Pow2(k) * q + x % Pow2(k);
        assert Pow2(k) * q == (2 * p) * q;
      }
      DivModUnique(x, 2, p * q, 0);
      DivModUnique(x / 2, p, q, 0);
      OrDisjoint(x / 2, y / 2, k - 1);
    }
  }

  /** The value of the low `k` bits of `x`. */
  function LowBits(x: nat, k: nat): nat
  {
    if k == 0 then 0 else x % 2 + 2 * LowBits(x / 2, k - 1)
  }

  /** The uint32 `x << s`: bits shifted past bit 31 are lost. */
  function ShiftLeft32(x: u32, s: nat): u32
  {
    (x * Pow2(s)) % 0x1_0000_0000
  }

  /** The mask whose top `n` of 32 bits are set and whose other bits are clear. */
  function PrefixMask(n: nat): (m: u32)
    requires n <= 32
  {
    Pow2Mono(32 - n, 32);
    Pow2Values();
    0x1_0000_0000 - Pow2(32 - n)
  }

  lemma Pow2Values()
    ensures Pow2(8) == 0x100 && Pow2(16) == 0x1_0000 && Pow2(24) == 0x100_0000 && Pow2(32) == 0x1_0000_0000
  {
    assert Pow2(8) == 0x100;
    assert Pow2(16) == 0x1_0000;
    assert Pow2(24) == 0x100_0000;
    assert Pow2(32) == 0x1_0000_0000;
  }

  lemma {:induction false} Pow2Mono(j: nat, k: nat)
    requires j <= k
    ensures Pow2(j) <= Pow2(k)
    ensures j < k ==> Pow2(j) < Pow2(k)
    decreases k
  {
    if j < k {
      Pow2Mono(j, k - 1);
    }
  }

  /** `x == m * q + c` with `0 <= c < m` determines the quotient and remainder. */
  lemma DivModUnique(x: int, m: int, q: int, c: int)
    requires m > 0 && 0 <= c < m && x == m * q + c
    ensures x % m == c && x / m == q
  {
    var d := q - x / m;
    assert m * d == x % m - c by {
      assert x == m * (x / m) + x % m;
      assert m * q - m * (x / m) == m * d;
    }
    MulAwayFromZero(m, d);
  }

  /** A nonzero multiple of a positive `m` is at least `m` away from zero. */
  lemma MulAwayFromZero(m: int, d: int)
    requires m > 0
    ensures d >= 1 ==> m * d >= m
    ensures d <= -1 ==> m * d <= -m
  {
    if d >= 1 {
      assert m * d == m + m * (d - 1);
    } else if d <= -1 {
      assert m * d == -m + m * (d + 1);
    }
  }

  /** The low `k` bits of `x` are `x` modulo `2^k`. */
  lemma {:induction false} LowBitsMod(x: nat, k: nat)
    ensures LowBits(x, k) == x % Pow2(k)
  {
    if k == 0 {
      DivModUnique(x, 1, x, 0);
    } else {
      var p, q := Pow2(k - 1), x / 2;
      LowBitsMod(q, k - 1);
      DivModUnique(q, p, q / p, q % p);
      Doubled(x, q, p, q / p, q % p, x % 2);
      DivModUnique(x, Pow2(k), q / p, LowBits(x, k));
    }
  }

  /** Doubling the quotient-remainder split of `q` splits `x == 2 * q + r` by `2 * p`. */
  lemma Doubled(x: int, q: int, p: int, a: int, b: int, r: int)
    requires x == 2 * q + r && q == p * a + b
    ensures x == (2 * p) * a + (2 * b + r)
  {
    assert (2 * p) * a == 2 * (p * a);
  }

  /** A number below `2^k` is its own low `k` bits. */
  lemma {:induction false} LowBitsSmall(x: nat, k: nat)
    requires x < Pow2(k)
    ensures LowBits(x, k) == x
  {
    if k > 0 {
      LowBitsSmall(x / 2, k - 1);
    }
  }

  /** AND with all ones in the low `w` bits leaves a `w`-bit number unchanged. */
  lemma {:induction false} AndAllOnes(x: nat, w: nat)
    requires x < Pow2(w)
    ensures BitAnd(x, Pow2(w) - 1) == x
    decreases w
  {
    if w > 0 && x > 0 {
      var m := Pow2(w) - 1;
      assert m % 2 == 1 && m / 2 == Pow2(w - 1) - 1;
      AndAllOnes(x / 2, w - 1);
    }
  }

  /**
   * AND with the mask of bits `k..w-1` clears the low `k` bits of a `w`-bit number
   * and keeps the others.
   */
  lemma {:induction false} AndHighBits(x: nat, w: nat, k: nat)
    requires k <= w && x < Pow2(w) && Pow2(k) <= Pow2(w)
    ensures BitAnd(x, Pow2(w) - Pow2(k)) == x - LowBits(x, k)
    decreases k
  {
    if k == 0 {
      AndAllOnes(x, w);
      assert Pow2(w) - Pow2(k) == Pow2(w) - 1 && LowBits(x, k) == 0;
    } else if k == w {
      LowBitsSmall(x, k);
      assert Pow2(w) - Pow2(k) == 0 && BitAnd(x, 0) == 0;
    } else if x == 0 {
      LowBitsSmall(x, k);
      assert BitAnd(0, Pow2(w) - Pow2(k)) == 0;
    } else {
      Pow2Mono(k - 1, w - 1);
      AndHighBits(x / 2, w - 1, k - 1);
      AndHighStep(x, w, k);
    }
  }

  /** The inductive step of `AndHighBits`: from the bits above bit 0 to the whole number. */
  lemma AndHighStep(x: nat, w: nat, k: nat)
    requires 0 < k < w && 0 < x && Pow2(k - 1) < Pow2(w - 1)
    requires BitAnd(x / 2, Pow2(w - 1) - Pow2(k - 1)) == x / 2 - LowBits(x / 2, k - 1)
    ensures BitAnd(x, Pow2(w) - Pow2(k)) == x - LowBits(x, k)
  {
    var hw, hk, h := Pow2(w - 1), Pow2(k - 1), x / 2;
    AndEvenMask(x, Pow2(w) - Pow2(k), hw - hk);
    Regroup(x, h, x % 2, BitAnd(x, Pow2(w) - Pow2(k)), BitAnd(h, hw - hk), LowBits(x, k), LowBits(h, k - 1));
  }

  /** AND with an even mask `m == 2 * h` clears bit 0 and ANDs the rest with `h`. */
  lemma AndEvenMask(x: nat, m: nat, h: nat)
    requires x > 0 && h > 0 && m == 2 * h
    ensures BitAnd(x, m) == 2 * BitAnd(x / 2, h)
  {
    assert m % 2 == 0 && m / 2 == h;
  }

  /** The linear step joining bit 0 and the higher bits back together. */
  lemma Regroup(x: int, h: int, bit0: int, andX: int, andH: int, lowX: int, lowH: int)
    requires 2 * h + bit0 == x && andX == 2 * andH && andH == h - lowH && lowX == bit0 + 2 * lowH
    ensures andX == x - lowX
  {
  }

  /** AND with a prefix mask keeps the top `n` bits of an address and clears the other `32 - n`. */
  lemma KeepsTopBits(x: u32, n: nat)
    requires n <= 32
    ensures BitAnd(x, PrefixMask(n)) == x - LowBits(x, 32 - n)
  {
    var k := 32 - n;
    Pow2Mono(k, 32);
    assert Pow2(32) == 0x1_0000_0000 by {
      Pow2Values();
    }
    assert PrefixMask(n) == Pow2(32) - Pow2(k);
    AndHighBits(x, 32, k);
  }

  /** The same, with the cleared bits written as a remainder: `x` minus `x` modulo `2^(32-n)`. */
  lemma KeepsTopBitsMod(x: u32, n: nat)
    requires n <= 32
    ensures BitAnd(x, PrefixMask(n)) == x - x % Pow2(32 - n)
  {
    KeepsTopBits(x, n);
    LowBitsMod(x, 32 - n);
  }

  /** Masking twice is masking once. */
  lemma {:induction false} MaskTwice(a: nat, m: nat)
    ensures BitAnd(BitAnd(a, m), m) == BitAnd(a, m)
    decreases a
  {
    if a > 0 && m > 0 {
      MaskTwice(a / 2, m / 2);
      var r := BitAnd(a, m);
      assert r / 2 == BitAnd(a / 2, m / 2) && r % 2 == (if a % 2 == 1 && m % 2 == 1 then 1 else 0);
    }
  }

  /** The /0 mask is 0 and the /32 mask is all ones. */
  lemma PrefixMaskEnds()
    ensures PrefixMask(0) == 0 && PrefixMask(32) == 0xFFFF_FFFF
  {
    Pow2Values();
  }

  /** The shift the routing table writes, all ones moved left by `32 - n` for n > 0, is the prefix mask. */
  lemma ShiftedMask(n: nat)
    requires 0 < n <= 32
    ensures ShiftLeft32(0xFFFF_FFFF, 32 - n) == PrefixMask(n)
  {
    var p := Pow2(32 - n);
    Pow2Mono(32 - n, 32);
    Pow2Values();
    assert 0xFFFF_FFFF * p == 0x1_0000_0000 * (p - 1) + (0x1_0000_0000 - p);
    DivModUnique(0xFFFF_FFFF * p, 0x1_0000_0000, p - 1, 0x1_0000_0000 - p);
  }

  /** A longer prefix has a larger mask, and conversely. */
  lemma PrefixMaskMonotone(n1: nat, n2: nat)
    requires n1 <= 32 && n2 <= 32
    ensures n1 <= n2 <==> PrefixMask(n1) <= PrefixMask(n2)
  {
    if n1 <= n2 {
      Pow2Mono(32 - n2, 32 - n1);
    } else {
      Pow2Mono(32 - n1, 32 - n2);
    }
  }
}
