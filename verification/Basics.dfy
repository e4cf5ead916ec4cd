/** What several of the models share. */
module Basics {

  /** Values of a 32-bit unsigned integer. */
  const TWO32: nat := 0x1_0000_0000

  datatype Option<+T> = None | Some(value: T)

  function Min(a: int, b: int): int { if a <= b then a else b }
}
