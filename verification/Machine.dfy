/** Widths of machine words and units of the clocks. */
module Machine {
  const TWO32: nat := 0x1_0000_0000
  const TWO63: nat := 0x8000_0000_0000_0000
  const TWO64: nat := 0x1_0000_0000_0000_0000

  const SECOND: int := 1_000_000_000
  const MILLISECOND: int := 1_000_000

  /** Division of C++: towards zero. */
  function Truncated(a: int, b: int): int
    requires b > 0
  {
    if a >= 0 then a / b else 0 - (0 - a) / b
  }

  /** `duration_cast` from nanoseconds to milliseconds. */
  function ToMilliseconds(ns: int): int {
    Truncated(ns, MILLISECOND)
  }
}
