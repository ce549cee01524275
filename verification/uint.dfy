/**
 * Fixed-width unsigned C arithmetic on mathematical integers: the `uint32_t`
 * and `uint64_t` value ranges, `<<` and `>>` on `uint64_t`, bitwise `|`, and
 * the wrap-around subtraction of `uint64_t`.
 */
module Uint {

  const TWO32: int := 0x1_0000_0000
  const TWO64: int := 0x1_0000_0000_0000_0000

  /** `(uint64_t)-1`, the largest `uint64_t`. */
  const U64_MAX: int := 0xFFFF_FFFF_FFFF_FFFF

  type u32 = x: int | 0 <= x < 0x1_0000_0000
  type u64 = x: int | 0 <= x < 0x1_0000_0000_0000_0000

  function Pow2(n: nat): (r: nat)
    ensures r >= 1
  {
    if n == 0 then 1 else 2 * Pow2(n - 1)
  }

  /** Bitwise or of two non-negative integers, one bit at a time from the least significant end. */
  function BitOr(a: nat, b: nat): nat
  {
    if a == 0 then b
    else if b == 0 then a
    else 2 * BitOr(a / 2, b / 2) + (if a % 2 == 1 || b % 2 == 1 then 1 else 0)
  }

  /** `x << 32` on `uint64_t`: bits shifted past position 63 are lost. */
  function ShiftLeft32(x: u64): u64
  {
    (x * TWO32) % TWO64
  }

  /** `x >> 32` on `uint64_t`: a logical shift, zeros come in from the top. */
  function ShiftRight32(x: u64): u64
  {
    x / TWO32
  }

  /**
   * Or-ing a value whose low `k` bits are clear with a value below `2^k`
   * sets disjoint bits, so it is an addition.
   */
  lemma {:induction false} BitOrDisjoint(a: nat, k: nat, b: nat)
    requires b < Pow2(k)
    ensures BitOr(a * Pow2(k), b) == a * Pow2(k) + b
  {
    if k == 0 {
    } else if a == 0 || b == 0 {
    } else {
      var p := Pow2(k - 1);
      assert a * Pow2(k) == 2 * (a * p);
      assert (a * Pow2(k)) / 2 == a * p;
      assert (a * Pow2(k)) % 2 == 0;
      assert b / 2 < p;
      BitOrDisjoint(a, k - 1, b / 2);
    }
  }

  lemma {:induction false} Pow2Add(a: nat, b: nat)
    ensures Pow2(a + b) == Pow2(a) * Pow2(b)
  {
    if a > 0 {
      Pow2Add(a - 1, b);
    }
  }

  lemma Pow2Of32()
    ensures Pow2(32) == TWO32
  {
    assert Pow2(4) == 16;
    Pow2Add(4, 4);
    Pow2Add(8, 8);
    Pow2Add(16, 16);
  }

  /**
   * The 64-bit timestamp `((uint64_t)high << 32) | low` built from the two
   * 32-bit halves that the counter read leaves in edx and eax.
   */
  function Combine(high: u32, low: u32): (r: u64)
    ensures r == high * TWO32 + low
  {
    Pow2Of32();
    BitOrDisjoint(high, 32, low);
    BitOr(ShiftLeft32(high), low)
  }

  /** Both halves come back out of a combined timestamp: `r >> 32` is the high half and `r mod 2^32` the low half. */
  lemma CombineRoundTrip(high: u32, low: u32)
    ensures ShiftRight32(Combine(high, low)) == high
    ensures Combine(high, low) % TWO32 == low
  {
  }

  /** Every `uint64_t` is the combination of exactly one pair of halves. */
  lemma CombineSplit(x: u64)
    ensures 0 <= x / TWO32 < TWO32
    ensures Combine(x / TWO32, x % TWO32) == x
    ensures forall high: u32, low: u32 :: Combine(high, low) == x ==> high == x / TWO32 && low == x % TWO32
  {
  }

  /** `a - b` on `uint64_t`: the result is reduced modulo 2^64. */
  function Sub64(a: u64, b: u64): u64
  {
    (a - b) % TWO64
  }

  /** The wrapped difference is the true difference when `a >= b`, and is 2^64 too large otherwise. */
  lemma Sub64Value(a: u64, b: u64)
    ensures a >= b ==> Sub64(a, b) == a - b
    ensures a < b ==> Sub64(a, b) == a - b + TWO64
    ensures (b + Sub64(a, b)) % TWO64 == a
  {
  }
}
