/** Fixed-width integers as the C source sees them, over Dafny's unbounded `int`. */
module Words {
  const TWO_63: int := 0x8000_0000_0000_0000
  const TWO_64: int := 0x1_0000_0000_0000_0000

  // uint64_t
  type Word64 = x: int | 0 <= x < TWO_64

  // long long
  type Int64 = x: int | -TWO_63 <= x < TWO_63

  datatype Option<+T> = None | Some(value: T)

  // The bit pattern of a long long read as an unsigned value (what "%" PRIu64 prints for one).
  function AsUnsigned(x: Int64): Word64 {
    if x >= 0 then x else x + TWO_64
  }

  // C's integer division: it truncates toward zero.
  function TruncDiv(a: int, b: int): int
    requires b > 0
  {
    if a >= 0 then a / b else -((-a) / b)
  }
}
