/** The range of the sources' `int`, and the smaller and larger of two numbers. */
module Ints {
  const INT_MAX: int := 0x7FFF_FFFF
  const INT_MIN: int := -0x8000_0000

  function Min(a: int, b: int): int {
    if a < b then a else b
  }

  function Max(x: nat, y: nat): nat {
    if x < y then y else x
  }
}
