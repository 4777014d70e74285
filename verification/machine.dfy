/**
 * Fixed-width integers of the firmware's C target and the C operators on them
 * whose meaning differs from Dafny's unbounded, Euclidean arithmetic.
 */
module Machine {

  const BYTE_LIMIT: int := 0x100
  const WORD_LIMIT: int := 0x1_0000_0000
  const INT32_MIN: int := -0x8000_0000
  const INT32_MAX: int := 0x7FFF_FFFF

  /** `uint8_t` */
  type Byte = b: int | 0 <= b < 0x100

  /** `uint32_t` */
  type Word = w: int | 0 <= w < 0x1_0000_0000

  /** Conversion of any integer value to `uint32_t`: reduction modulo 2^32. */
  function Wrap32(x: int): (w: Word)
    ensures 0 <= x < WORD_LIMIT ==> w == x
    ensures (x - w) % WORD_LIMIT == 0
  {
    x % WORD_LIMIT
  }

  /** Conversion of any integer value to `uint8_t`: reduction modulo 2^8. */
  function Wrap8(x: int): (b: Byte)
    ensures 0 <= x < BYTE_LIMIT ==> b == x
    ensures (x - b) % BYTE_LIMIT == 0
  {
    x % BYTE_LIMIT
  }

  /** A `uint32_t` passed where an `int` is expected (two's complement). */
  function ToInt32(w: Word): (i: int)
    ensures INT32_MIN <= i <= INT32_MAX
    ensures w < 0x8000_0000 <==> i >= 0
    ensures Wrap32(i) == w
  {
    if w < 0x8000_0000 then w else w - WORD_LIMIT
  }

  /** C's `/` on signed integers with a positive divisor: the quotient is truncated toward zero. */
  function CDiv(a: int, n: int): (q: int)
    requires n > 0
    ensures a >= 0 ==> 0 <= q * n <= a < q * n + n
    ensures a < 0 ==> q * n - n < a <= q * n <= 0
  {
    if a >= 0 then
      DivBounds(a, n);
      a / n
    else
      var q := (-a) / n;
      DivBounds(-a, n);
      NegMul(q, n);
      -q
  }

  lemma DivBounds(a: nat, n: int)
    requires n > 0
    ensures 0 <= (a / n) * n <= a < (a / n) * n + n
  {
  }

  lemma NegMul(q: int, n: int)
    ensures (-q) * n == -(q * n)
  {
  }

  /** 2^k for the bit positions used by the font code. */
  function Pow2(k: nat): (p: nat)
    ensures p >= 1
  {
    if k == 0 then 1 else 2 * Pow2(k - 1)
  }

  /** `b & (1 << k)` is non-zero. */
  predicate BitSet(b: Byte, k: nat)
  {
    (b / Pow2(k)) % 2 == 1
  }

  /** `round trip`: a signed value in range survives the unsigned conversion and back. */
  lemma Int32RoundTrip(i: int)
    requires INT32_MIN <= i <= INT32_MAX
    ensures ToInt32(Wrap32(i)) == i
  {
  }
}
