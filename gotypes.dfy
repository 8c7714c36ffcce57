/** Go's fixed-width integer types and the conversions the two programs apply to
    their option values and timestamps. Dafny integers are unbounded, so every
    truncating Go conversion is written out here. */
module GoTypes {

  const BYTE_RANGE: int := 0x100
  const UINT16_RANGE: int := 0x1_0000
  const UINT32_RANGE: int := 0x1_0000_0000

  /** Go `byte` (`uint8`). */
  type Byte = x: int | 0 <= x < BYTE_RANGE
  /** Go `uint16`. */
  type Uint16 = x: int | 0 <= x < UINT16_RANGE
  /** Go `uint32`. */
  type Uint32 = x: int | 0 <= x < UINT32_RANGE
  /** A non-negative `time.Duration` (an int64 count of nanoseconds). */
  type Nanos = x: int | 0 <= x < 0x8000_0000_0000_0000

  /** `uint8(x)` for a Go `int`: keeps the low 8 bits of the two's-complement value. */
  function ToUint8(x: int): (r: Byte)
    ensures (x - r) % BYTE_RANGE == 0
    ensures 0 <= x < BYTE_RANGE ==> r == x
  {
    x % BYTE_RANGE
  }

  /** `uint16(x)` for a Go `int`. */
  function ToUint16(x: int): (r: Uint16)
    ensures (x - r) % UINT16_RANGE == 0
    ensures 0 <= x < UINT16_RANGE ==> r == x
  {
    x % UINT16_RANGE
  }

  /** `uint32(x)` for a Go `int64`. */
  function ToUint32(x: int): (r: Uint32)
    ensures (x - r) % UINT32_RANGE == 0
    ensures 0 <= x < UINT32_RANGE ==> r == x
  {
    x % UINT32_RANGE
  }

  /** A Go `(value, error)` pair where only one side is meaningful. */
  datatype Result<T, E> = Ok(value: T) | Err(error: E)

  /** What an `io.Writer`'s `Write` call reports; the byte count is ignored by both programs. */
  datatype WriteResult<E> = Written | WriteFailed(err: E)
}
