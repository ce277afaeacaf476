/** Types and machine-integer constants shared by every module. */
module Basics {

  datatype Option<+T> = None | Some(value: T)

  type Byte = b: int | 0 <= b < 256

  /** A Go string or byte slice; nil and empty are the same value. */
  type Bytes = seq<Byte>

  const U64: int := 0x1_0000_0000_0000_0000
  const U32: int := 0x1_0000_0000
  const I64: int := 0x8000_0000_0000_0000
  const I32: int := 0x8000_0000

  type uint64 = n: nat | n < U64
  type uint32 = n: nat | n < U32

  /** Go's `int` addition on a 64-bit machine: the sum wraps into [-2^63, 2^63). */
  function Wrap64(x: int): (r: int)
    ensures -I64 <= r < I64
    ensures -I64 <= x < I64 ==> r == x
    ensures I64 <= x < U64 ==> r < 0
    ensures (r - x) % U64 == 0
  {
    (x + I64) % U64 - I64
  }

  /** The conversion `int32(x)` of an unsigned 64-bit value. */
  function ToInt32(x: nat): (r: int)
    ensures -I32 <= r < I32
    ensures x < I32 ==> r == x
    ensures (r - x) % U32 == 0
  {
    (x + I32) % U32 - I32
  }

  lemma Regroup(a: Bytes, b: Byte, c: Bytes)
    ensures a + ([b] + c) == (a + [b]) + c
  {
  }
}
