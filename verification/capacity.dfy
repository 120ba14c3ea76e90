/** The growth rule shared by the array-backed structures: a full buffer
    is replaced by one of `max(1, 2k)` slots. */
module Capacity {
  function Max(x: int, y: int): int
  {
    if x < y then y else x
  }
}
