/**
 Null-flag and condition columns that select rows.
 */
module Masks {

  /** Absent means every row. */
  datatype Mask = All | Bits(bits: seq<bool>)

  predicate On(m: Mask, j: int) {
    m.Bits? ==> 0 <= j < |m.bits| && m.bits[j]
  }
}
