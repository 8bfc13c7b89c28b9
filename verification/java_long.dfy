/** The 64-bit two's-complement `long` arithmetic of Java that the fare
    computation relies on: wrapping subtraction and division that truncates
    toward zero. */
module JavaLong {

  const MIN: int := -0x8000_0000_0000_0000
  const MAX: int := 0x7FFF_FFFF_FFFF_FFFF
  const MODULUS: int := 0x1_0000_0000_0000_0000

  /** The values a Java `long` can hold. */
  type Long = x: int | MIN <= x <= MAX

  /** The `long` that Java stores for the exact integer `x`: the unique
      representable value congruent to `x` modulo 2^64. */
  function Wrap(x: int): (r: Long)
    ensures (x - r) % MODULUS == 0
    ensures MIN <= x <= MAX ==> r == x
  {
    var k := (x - MIN) / MODULUS;
    var m := (x - MIN) % MODULUS;
    assert x - MIN == k * MODULUS + m;
    assert x - (m + MIN) == k * MODULUS;
    m + MIN
  }

  /** Java's `a - b` on two longs. */
  function Sub(a: Long, b: Long): (r: Long)
    ensures MIN <= a - b <= MAX ==> r == a - b
    ensures ((a - b) - r) % MODULUS == 0
  {
    Wrap(a - b)
  }

  /** Java's `a / b` for a positive divisor: the quotient truncated toward
      zero, so a negative dividend rounds up rather than down. */
  function Div(a: int, b: int): (q: int)
    requires b > 0
    ensures 0 <= a ==> 0 <= q * b <= a < q * b + b
    ensures a < 0 ==> q * b - b < a <= q * b <= 0
  {
    if a >= 0 then
      DivBounds(a, b);
      a / b
    else
      DivBounds(-a, b);
      -((-a) / b)
  }

  lemma {:induction false} DivBounds(n: nat, b: int)
    requires b > 0
    ensures 0 <= (n / b) * b <= n < (n / b) * b + b
  {
    var q, m := n / b, n % b;
    assert n == q * b + m && 0 <= m < b;
    assert q >= 0;
    assert q * b >= 0;
  }
}
