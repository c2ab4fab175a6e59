/** Small shared helpers: an optional value and the minimum of two integers. */
module Wrappers {

  /** A value that may be absent: a missing dictionary key, or a failed list lookup. */
  datatype Option<+T> = None | Some(value: T)

  function Min(a: int, b: int): int
  {
    if a <= b then a else b
  }
}
