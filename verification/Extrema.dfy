/** Minima and maxima. */
module Extrema {

  function Min(a: int, b: int): int {
    if a < b then a else b
  }

  function Max(a: int, b: int): int {
    if a > b then a else b
  }

  function Lesser(a: real, b: real): real {
    if a < b then a else b
  }
}
