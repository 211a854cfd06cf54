/** Small value types shared by every component of the account flow. */
module Base {

  /** A value that may be absent; stands for a C# reference or nullable that may be null. */
  datatype Option<+T> = None | Some(value: T)

  /** The outcome of an operation that either produces a value or throws. */
  datatype Result<+R, +E> = Success(value: R) | Failure(error: E)

  /** The outcome of a C# `void` operation: it returns normally or throws. */
  datatype Outcome<+E> = Pass | Fail(error: E)

  /** C#'s `int` (System.Int32). */
  newtype int32 = x: int | -0x8000_0000 <= x < 0x8000_0000

  const Int32Min: int := -0x8000_0000
  const Int32Max: int := 0x7FFF_FFFF

  /** One octet, as produced by a text encoding. */
  newtype byte = x: int | 0 <= x < 256
}
