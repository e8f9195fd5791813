/**
  Fixed-width unsigned integers as the firmware uses them, C's wrapping
  unsigned arithmetic written out explicitly, and the subset of EFI_STATUS
  values the kext patcher produces.
 */
module EfiTypes {

  const UINT32_LIMIT: int := 0x1_0000_0000
  const UINT64_LIMIT: int := 0x1_0000_0000_0000_0000
  const MAX_UINT32: int := 0xFFFF_FFFF

  type uint8 = x: int | 0 <= x < 0x100
  type uint32 = x: int | 0 <= x < UINT32_LIMIT
  type uint64 = x: int | 0 <= x < UINT64_LIMIT

  /** UINT32 subtraction `a - b` in C: the difference modulo 2^32. */
  function Sub32(a: uint32, b: uint32): (r: uint32)
    ensures a >= b ==> r == a - b
    ensures a < b ==> r == UINT32_LIMIT - (b - a)
  {
    (a - b) % UINT32_LIMIT
  }

  /** UINT64 subtraction `a - b` in C: the difference modulo 2^64. */
  function Sub64(a: uint64, b: uint64): (r: uint64)
    ensures a >= b ==> r == a - b
    ensures a < b ==> r == UINT64_LIMIT - (b - a)
  {
    (a - b) % UINT64_LIMIT
  }

  /**
    OcOverflowAddU64: the wrapped sum, and whether the mathematical sum
    did not fit in 64 bits.
   */
  function OverflowAddU64(a: uint64, b: uint64): (r: (bool, uint64))
    ensures r.1 == (a + b) % UINT64_LIMIT
    // the usual test for a wrapped unsigned sum
    ensures r.0 <==> r.1 < a
    ensures !r.0 ==> r.1 == a + b
  {
    var sum := a + b;
    if sum >= UINT64_LIMIT then (true, sum - UINT64_LIMIT) else (false, sum)
  }

  /**
    The EFI_STATUS codes this core returns. `OtherError` stands for any
    further error code a foreign collaborator may hand back unchanged.
   */
  datatype Status =
    | Success
    | InvalidParameter
    | NotFound
    | BufferTooSmall
    | Unsupported
    | OtherError(code: nat)

  /** EFI_ERROR: every code except Success is an error here. */
  predicate IsError(s: Status) {
    !s.Success?
  }

  /** A value, or the error status that prevented computing it. */
  datatype Result<+T> = Ok(value: T) | Err(error: Status)
}
