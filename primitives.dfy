/** Machine integer types and failure-carrying results shared by the FIDO U2F models.
    .NET exceptions become `Err`/`Fail` values; a null reference becomes `None`. */
module Primitives {

  /** A .NET `byte`. */
  newtype byte = b: int | 0 <= b < 0x100

  /** A .NET `uint`: unsigned 32-bit, no wrap-around in comparisons. */
  newtype uint32 = n: int | 0 <= n < 0x1_0000_0000

  const UINT32_MAX: uint32 := 0xFFFF_FFFF

  datatype Option<+T> = None | Some(value: T)

  /** A value, or the exception that the C# code throws instead. */
  datatype Result<+T, +E> = Ok(value: T) | Err(error: E)

  /** A void call that returned normally, or the exception it threw. */
  datatype Outcome<+E> = Pass | Fail(error: E)
}
