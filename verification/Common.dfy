/** What several modules share. */
module Common {

  /** A result that may be missing: NULL, or a `false` with no output. */
  datatype Option<+T> = None | Some(value: T)

  function Max(a: int, b: int): int {
    if a > b then a else b
  }
}
