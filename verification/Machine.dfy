/** Machine arithmetic the components share. */
module Machine {

  const U64: nat := 0x1_0000_0000_0000_0000

  /** Unsigned 64-bit and signed 32-bit integers. */
  type Word = w: int | 0 <= w < U64
  type Int32 = i: int | -0x8000_0000 <= i < 0x8000_0000

  /** Conversion of a double to an int drops the fraction. */
  function Trunc(x: real): int {
    if x >= 0.0 then x.Floor else -((-x).Floor)
  }

  /** ... so the result lies between the number and zero, less than one away from the number. */
  lemma TruncTowardZero(x: real)
    ensures x >= 0.0 ==> 0.0 <= Trunc(x) as real <= x < Trunc(x) as real + 1.0
    ensures x <= 0.0 ==> Trunc(x) as real - 1.0 < x <= Trunc(x) as real <= 0.0
  {
    assert x.Floor as real <= x && (-x).Floor as real <= -x;
  }
}
