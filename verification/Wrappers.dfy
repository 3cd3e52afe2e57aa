/** What every module shares. */
module Wrappers {
  // Unsigned 32-bit words count modulo this.
  const U32 := 0x1_0000_0000

  datatype Option<+T> = None | Some(value: T)

  datatype Result<+T, +E> = Success(value: T) | Failure(error: E)
}
