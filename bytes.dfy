/** Byte-sized quantities of the converter firmware and its fixed sizes. */
module Bytes {

  /** An unsigned 8-bit value (`uchar` in the firmware). */
  newtype uint8 = x: int | 0 <= x < 256

  /** The maximum number of independent reports. */
  const MAX_REPORTS: nat := 8

  /** Capacity of the buffer that reports are built into. */
  const REPORT_BUFFER_SIZE: nat := 12

  /** A set of slot indices that only holds slots 0..n-1: the bits of the
      8-bit `must_report` bitfield that are set, when only the first `n`
      slots exist. */
  predicate WithinSlots(slots: set<nat>, n: nat)
  {
    forall j :: j in slots ==> j < n
  }
}
