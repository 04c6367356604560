/** Fixed-width integer semantics of the C++ the driver is written in:
    the widths of uint8_t, uint16_t, int16_t and int32_t, the narrowing
    conversions between them (two's complement wrap-around) and integer
    division, which truncates toward zero. */
module CInt {

  type byte = x: int | 0 <= x < 0x100
  type uint16 = x: int | 0 <= x < 0x1_0000
  type int16 = x: int | -0x8000 <= x < 0x8000
  type int32 = x: int | -0x8000_0000 <= x < 0x8000_0000

  /** Conversion of any integer to int16_t, keeping the low 16 bits. */
  function Wrap16(x: int): (r: int16)
    ensures -0x8000 <= x < 0x8000 ==> r == x
  {
    (x + 0x8000) % 0x1_0000 - 0x8000
  }

  /** Conversion of any integer to int32_t, keeping the low 32 bits. */
  function Wrap32(x: int): (r: int32)
    ensures -0x8000_0000 <= x < 0x8000_0000 ==> r == x
  {
    (x + 0x8000_0000) % 0x1_0000_0000 - 0x8000_0000
  }

  /** Both conversions keep the value modulo the width. */
  lemma WrapCongruent(x: int)
    ensures (Wrap16(x) - x) % 0x1_0000 == 0
    ensures (Wrap32(x) - x) % 0x1_0000_0000 == 0
  {
  }

  function Abs(x: int): nat
  {
    if x < 0 then -x else x
  }

  /** C's `/` for a positive divisor: the quotient rounded toward zero. */
  function TruncDiv(a: int, b: int): (q: int)
    requires b > 0
    ensures a >= 0 ==> q >= 0
    ensures a <= 0 ==> q <= 0
  {
    if a >= 0 then a / b else -((-a) / b)
  }

  /** The truncated quotient is the one whose magnitude is that of the
      exact quotient rounded down. */
  lemma TruncDivBounds(a: int, b: int)
    requires b > 0
    ensures Abs(TruncDiv(a, b)) * b <= Abs(a) < (Abs(TruncDiv(a, b)) + 1) * b
  {
  }
}
