// What several modules need.
module Arith {
  type byte = n: int | 0 <= n < 256

  function Min(a: int, b: int): int { if a < b then a else b }

  // Row by row, and within a row from left to right: (a,b) comes before (x,y).
  predicate Before(a: int, b: int, x: int, y: int) {
    b < y || (b == y && a < x)
  }
}
