/** The smaller and the larger of two integers, as Python's `min` and `max`. */
module Ints {

  function Min(a: int, b: int): (r: int) {
    if a <= b then a else b
  }

  function Max(a: int, b: int): (r: int) {
    if a <= b then b else a
  }
}
