/**
 Unsigned 64-bit hash values, powers of two, and the bit-length
 computed from `u64::leading_zeros` (src/lib.rs `bit_length`).
 */
module Bits {

  /** Width of the hash produced for every inserted value. */
  const HashWidth: nat := 64

  /** 2^n. */
  function Pow2(n: nat): (r: nat)
    ensures r >= 1
  {
    if n == 0 then 1 else 2 * Pow2(n - 1)
  }

  /** A `u64`: the hash handed to the insertion engine. */
  type U64 = x: int | 0 <= x < 0x1_0000_0000_0000_0000

  lemma {:induction false} Pow2Add(a: nat, b: nat)
    ensures Pow2(a + b) == Pow2(a) * Pow2(b)
    decreases a
  {
    if a > 0 {
      Pow2Add(a - 1, b);
    }
  }

  lemma {:induction false} Pow2Monotone(a: nat, b: nat)
    requires a <= b
    ensures Pow2(a) <= Pow2(b)
    decreases b
  {
    if a < b {
      Pow2Monotone(a, b - 1);
    }
  }

  lemma Pow2Is64()
    ensures Pow2(64) == 0x1_0000_0000_0000_0000
  {
    assert Pow2(2) == 4;
    Pow2Add(2, 2);
    Pow2Add(4, 4);
    Pow2Add(8, 8);
    Pow2Add(16, 16);
    Pow2Add(32, 32);
  }

  /**
   The number of zero bits above the highest set bit of `x`, reading a
   `width`-bit window from the most significant end (`leading_zeros`
   is this count for width 64).
   */
  function LeadingZeros(x: nat, width: nat): (r: nat)
    requires x < Pow2(width)
    ensures r <= width
    ensures x < Pow2(width - r)
    ensures r < width ==> Pow2(width - r - 1) <= x
    ensures r == width <==> x == 0
  {
    if width == 0 then 0
    else if x >= Pow2(width - 1) then 0
    else 1 + LeadingZeros(x, width - 1)
  }

  /**
   `bit_length(x) = 64 - x.leading_zeros()` (src/lib.rs:301-303): the
   number of significant bits of `x`, 0 for 0.
   */
  function BitLength(x: U64): (r: nat)
    ensures r <= HashWidth
    ensures r == 0 <==> x == 0
    ensures x < Pow2(r)
    ensures r > 0 ==> Pow2(r - 1) <= x
  {
    Pow2Is64();
    HashWidth - LeadingZeros(x, HashWidth)
  }

  /** A value below 2^k has at most k significant bits. */
  lemma BitLengthAtMost(x: U64, k: nat)
    requires x < Pow2(k)
    ensures BitLength(x) <= k
  {
    var r := BitLength(x);
    if r > k {
      Pow2Monotone(k, r - 1);
    }
  }

  /** The bit-length is the unique n with 2^(n-1) <= x < 2^n (and 0 for 0). */
  lemma BitLengthUnique(x: U64, n: nat)
    requires x < Pow2(n)
    requires n > 0 ==> Pow2(n - 1) <= x
    ensures BitLength(x) == n
  {
    var r := BitLength(x);
    if r < n {
      Pow2Monotone(r, n - 1);
    } else if r > n {
      Pow2Monotone(n, r - 1);
    }
  }

  /**
   Counting leading zeros in a wide window is counting them in the
   narrow window that already holds `x`, plus the extra top bits.
   */
  lemma {:induction false} LeadingZerosWiden(x: nat, k: nat, width: nat)
    requires k <= width
    requires x < Pow2(k)
    ensures x < Pow2(width)
    ensures LeadingZeros(x, width) == (width - k) + LeadingZeros(x, k)
    decreases width
  {
    Pow2Monotone(k, width);
    if width > k {
      Pow2Monotone(k, width - 1);
      LeadingZerosWiden(x, k, width - 1);
    }
  }
}
