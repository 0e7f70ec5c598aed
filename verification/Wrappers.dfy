/** Types shared by the other modules. */
module Wrappers {
  datatype Option<+T> = None | Some(value: T)

  const UINT64_RANGE := 0x1_0000_0000_0000_0000

  /** Unsigned 64-bit integers. */
  type UInt64 = n: nat | n < UINT64_RANGE
}
