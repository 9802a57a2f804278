/** The widths of the machine integers in the modelled programs. */
module Widths {
  const INT_MAX := 0x7FFF_FFFF
  const TWO32 := 0x1_0000_0000
  const TWO63 := 0x8000_0000_0000_0000
  const TWO64 := 0x1_0000_0000_0000_0000

  /** File offsets fit in off_t. */
  const LIMIT := 0x8000_0000_0000_0000
}
