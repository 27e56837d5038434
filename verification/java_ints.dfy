/**
 * Java's 32-bit `int` and its integer operators, where they differ from Dafny's
 * unbounded, Euclidean ones.
 */
module JavaInts {

  const Int32Min: int := -0x8000_0000
  const Int32Max: int := 0x7fff_ffff

  predicate IsInt32(x: int)
  {
    Int32Min <= x <= Int32Max
  }

  /** Java's `/` by a positive divisor: the quotient truncated toward zero. */
  function Div(a: int, b: int): (q: int)
    requires b > 0
    ensures a >= 0 ==> 0 <= a - b * q < b
    ensures a < 0 ==> -b < a - b * q <= 0
  {
    if a >= 0 then a / b else -((-a) / b)
  }

  /** Java's `%` by a positive divisor: the remainder takes the sign of the dividend. */
  function Rem(a: int, b: int): (r: int)
    requires b > 0
    ensures a >= 0 ==> r == a % b
    ensures a < 0 ==> r == -((-a) % b) && -b < r <= 0
  {
    a - b * Div(a, b)
  }

  /**
   * The low 32 bits of `x` read as a signed int, as Java's narrowing conversions
   * (BigDecimal.intValue among them) keep them.
   */
  function Int32Of(x: int): (r: int)
    ensures IsInt32(r)
    ensures IsInt32(x) ==> r == x
    ensures (r - x) % 0x1_0000_0000 == 0
  {
    (x - Int32Min) % 0x1_0000_0000 + Int32Min
  }
}
