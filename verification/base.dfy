/**
 Machine-level types shared by the rest of the model: Go's `byte` and
 `uint64`, and the optional/failure wrappers used where the Go code returns
 `(value, error)` pairs.
 */
module Base {

  /** Go's `byte`; Go strings are byte sequences, so they are `seq<byte>` here. */
  newtype byte = x: int | 0 <= x < 0x100

  /** 2^64, one more than the largest `uint64`. */
  const TwoTo64: int := 0x1_0000_0000_0000_0000

  /** Go's `uint64`. */
  newtype u64 = x: int | 0 <= x < 0x1_0000_0000_0000_0000

  type Bytes = seq<byte>

  datatype Option<+T> = None | Some(value: T)

  datatype Result<+T, +E> = Success(value: T) | Failure(error: E)
}
