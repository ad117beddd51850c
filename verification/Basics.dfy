/** What several modules need. */
module Basics {

  datatype Option<+T> = None | Some(value: T)

  const KB64: nat := 0x1_0000
  const TWO32: nat := 0x1_0000_0000
  const TWO64: nat := 0x1_0000_0000_0000_0000

  function Min(a: nat, b: nat): nat { if a <= b then a else b }
}
