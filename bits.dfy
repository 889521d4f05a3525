/** Integer helpers shared by the decoder models.

    Python's `>>` and C's `>>` on a two's-complement `int` (as gcc compiles it)
    shift towards minus infinity; Dafny's `/` with a positive divisor does the
    same, so `Shr` below is both of them.  C's `/` truncates towards zero and
    C's `int` wraps at 32 bits; both are written out here. */
module Bits {

  const INT32_MIN: int := -0x8000_0000
  const INT32_MAX: int := 0x7fff_ffff

  /** 2 to the power k. */
  function Pow2(k: nat): (r: nat)
    ensures r >= 1
  {
    if k == 0 then 1 else 2 * Pow2(k - 1)
  }

  /** x shifted right by k bits, rounding towards minus infinity
      (Python's `x >> k`; C's `x >> k` on an arithmetic-shift target). */
  function Shr(x: int, k: nat): int
  {
    if k == 0 then x else Shr(x, k - 1) / 2
  }

  /** `(x >> b) & 1`: bit b of x in two's complement, for any integer x. */
  function Bit(x: int, b: nat): (r: nat)
    ensures r < 2
  {
    Shr(x, b) % 2
  }

  /** Appending a bit below v shifts v's bits up by one place. */
  lemma {:induction false} ShrOfDouble(v: int, d: nat, j: nat)
    requires d < 2
    ensures Shr(2 * v + d, j + 1) == Shr(v, j)
  {
    if j > 0 {
      ShrOfDouble(v, d, j - 1);
    }
  }

  lemma BitOfDouble(v: int, d: nat, j: nat)
    requires d < 2
    ensures Bit(2 * v + d, 0) == d
    ensures j > 0 ==> Bit(2 * v + d, j) == Bit(v, j - 1)
  {
    if j > 0 {
      ShrOfDouble(v, d, j - 1);
    }
  }

  /** The 32-bit two's-complement value an `int` holds after arithmetic on x. */
  function Wrap32(x: int): (r: int)
    ensures INT32_MIN <= r <= INT32_MAX
    ensures (x - r) % 0x1_0000_0000 == 0
    ensures INT32_MIN <= x <= INT32_MAX ==> r == x
  {
    (x - INT32_MIN) % 0x1_0000_0000 + INT32_MIN
  }

  /** C's `a / b` for b > 0: the quotient truncated towards zero. */
  function TruncDiv(a: int, b: int): (q: int)
    requires b > 0
    ensures a >= 0 ==> 0 <= a - q * b < b
    ensures a < 0 ==> -b < a - q * b <= 0
  {
    if a >= 0 then a / b else -((-a) / b)
  }

  /** C's `(x > 0) - (x < 0)`. */
  function Sign(x: int): int
  {
    (if x > 0 then 1 else 0) - (if x < 0 then 1 else 0)
  }
}
