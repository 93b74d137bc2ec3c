/** Integers, and the bound of a C int. */
module Integers {
  const INT32_MAX := 0x7FFF_FFFF

  function Min(a: int, b: int): int {
    if a < b then a else b
  }
}
