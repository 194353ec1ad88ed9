/** What the components share. */
module Basics {
  type byte = x: int | 0 <= x < 256

  datatype Option<T> = None | Some(value: T)

  function Min(a: nat, b: nat): nat { if a <= b then a else b }

  /** The range of the 32-bit millisecond clock. */
  const WRAP := 0x1_0000_0000
}
