/** The fixed-width integer types the Go code uses, with its wrap-around written out. */
module GoInts {
  const TWO_32: int := 0x1_0000_0000
  const TWO_64: int := 0x1_0000_0000_0000_0000
  const MAX_INT64: int := 0x7FFF_FFFF_FFFF_FFFF

  type byte = x: int | 0 <= x < 0x100
  type uint16 = x: int | 0 <= x < 0x1_0000
  type uint32 = x: int | 0 <= x < 0x1_0000_0000
  type int64 = x: int | -0x8000_0000_0000_0000 <= x < 0x8000_0000_0000_0000

  /** The value an int64 operation stores when its exact result is `x`. */
  function WrapInt64(x: int): int64 {
    (x + 0x8000_0000_0000_0000) % 0x1_0000_0000_0000_0000 - 0x8000_0000_0000_0000
  }

  /** Go's integer division: truncation toward zero. */
  function TruncDiv(a: int, b: int): int
    requires b > 0
  {
    if a >= 0 then a / b else -((-a) / b)
  }

  /** The stored value is congruent to the exact one; its range is the type's. */
  lemma WrapExact(x: int)
    ensures (WrapInt64(x) - x) % TWO_64 == 0
    ensures -0x8000_0000_0000_0000 <= x <= MAX_INT64 ==> WrapInt64(x) == x
  {
    assert WrapInt64(x) - x == -TWO_64 * ((x + 0x8000_0000_0000_0000) / TWO_64);
  }

  /** The remainder is smaller than the divisor and has the dividend's sign. */
  lemma TruncDivExact(a: int, b: int)
    requires b > 0
    ensures var r := a - b * TruncDiv(a, b); -b < r < b && (a >= 0 ==> r >= 0) && (a <= 0 ==> r <= 0)
  {
    if a >= 0 {
      assert a == b * (a / b) + a % b;
    } else {
      assert -a == b * (-a / b) + -a % b;
      assert b * TruncDiv(a, b) == -(b * (-a / b));
    }
  }
}
