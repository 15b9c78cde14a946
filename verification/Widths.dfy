/** The widths of what a note carries, shared by the decay, the circuits and the wire formats. */
module Widths {
  const VALUE_BITS: nat := 63
  const TIMESTAMP_BITS: nat := 40
  const NOTE_KIND_BITS: nat := 1
  const EXPIRY_BITS: nat := 16
  const VALUE_LIMIT: nat := 0x8000_0000_0000_0000
  const TIMESTAMP_LIMIT: nat := 0x100_0000_0000
  const EXPIRY_LIMIT: nat := 0x1_0000
}
