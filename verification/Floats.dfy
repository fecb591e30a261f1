/**
 Floating-point values are carried as bit patterns: 32 bits for `float`, 64 for `double`.
 The conversions the C compiler supplies are parameters, so nothing below depends on rounding.
 */
module Floats {
  import opened Bytes

  datatype FloatOps = FloatOps(
    widen: u32 -> u64,     // (double)f
    narrow: u64 -> u32,    // (float)d
    ofUnsigned: u64 -> u64, // (double)u
    ofNegative: u64 -> u64, // -1.0 - (double)u
    ofSigned: int -> u64,   // (double)i
    toSigned: u64 -> int,   // (int64_t)d
    toUnsigned: u64 -> int) // (uint64_t)d
}
