/** Numbers of values of the fixed-width integer types. */
module Widths {
  const U16: nat := 0x1_0000
  const U32: nat := 0x1_0000_0000
  const U64: nat := 0x1_0000_0000_0000_0000
}
