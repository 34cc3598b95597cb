/** Unsigned 64-bit arithmetic used by the profiler: the saturating
    accumulator and the wrapping subtraction of two cycle-counter readings. */
module Arith {

  const U64Max: int := 0xFFFF_FFFF_FFFF_FFFF
  const U64Modulus: int := 0x1_0000_0000_0000_0000

  /** A value representable as a C `uint64_t`. */
  predicate IsU64(x: int) {
    0 <= x <= U64Max
  }

  function Min(a: int, b: int): (m: int) {
    if a <= b then a else b
  }

  /** `clamped_add`: add two counts, saturating at UINT64_MAX instead of
      wrapping. */
  function ClampedAdd(a: int, b: int): (r: int)
    requires IsU64(a) && IsU64(b)
    ensures IsU64(r)
    ensures r == Min(a + b, U64Max)
    ensures r >= a && r >= b
  {
    if U64Max - a >= b then a + b else U64Max
  }

  /** The C expression `a + b` on `uint64_t`, which wraps modulo 2^64. */
  function WrappingAdd(a: int, b: int): (r: int)
    requires IsU64(a) && IsU64(b)
    ensures IsU64(r)
    ensures (r - a - b) % U64Modulus == 0
  {
    (a + b) % U64Modulus
  }

  /** The C expression `a - b` on `uint64_t` (used for `counter -
      previous_cycles`), which wraps modulo 2^64. */
  function WrappingSub(a: int, b: int): (r: int)
    requires IsU64(a) && IsU64(b)
    ensures IsU64(r)
    ensures (r + b - a) % U64Modulus == 0
    ensures a >= b ==> r == a - b
    ensures a < b ==> r == a - b + U64Modulus
  {
    (a - b) % U64Modulus
  }

  /** Where an unsigned add would wrap to a value below the old count, the
      clamped add stays at the maximum: the accumulator never goes down. */
  lemma ClampedAddNeverWraps(a: int, b: int)
    requires IsU64(a) && IsU64(b)
    requires a + b > U64Max
    ensures ClampedAdd(a, b) == U64Max
    ensures WrappingAdd(a, b) < a
  {
  }

  /** A saturated accumulator stays saturated, whatever is added. */
  lemma SaturationIsSticky(b: int)
    requires IsU64(b)
    ensures ClampedAdd(U64Max, b) == U64Max
  {
  }
}
