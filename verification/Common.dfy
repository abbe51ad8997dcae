/** Values and arithmetic that every component uses. */
module Common {

  /** A value that may be absent: the source's null and undefined. */
  datatype Option<+T> = None | Some(value: T)

  function Least(a: int, b: int): int {
    if a <= b then a else b
  }
}
