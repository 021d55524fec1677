/** Machine integer widths and failure-carrying wrappers shared by the
    signaling channel and the listener. */
module Types {

  /** Go's `uint32`, the representation of the listener's running status. */
  newtype uint32 = x: int | 0 <= x < 0x1_0000_0000

  /** Go's `uint64`, the type of offer identifiers and session identifiers. */
  newtype uint64 = x: int | 0 <= x < 0x1_0000_0000_0000_0000

  /** Number of distinct `uint64` values. */
  const UINT64_COUNT: int := 0x1_0000_0000_0000_0000

  newtype byte = x: int | 0 <= x < 0x100

  /** An opaque payload (an encoded session description); never interpreted. */
  type Bytes = seq<byte>

  datatype Option<+T> = None | Some(value: T)

  /** A value or the error the Go code returns in its place. */
  datatype Result<+R, +E> = Success(value: R) | Failure(error: E)

  /** A Go function returning only `error`: nil (`Pass`) or an error. */
  datatype Outcome<+E> = Pass | Fail(error: E)
}
