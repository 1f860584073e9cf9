/** Small shared vocabulary: optional values, results and bytes. */
module Base {

  datatype Option<T> = None | Some(value: T)

  /** The outcome of an operation that either yields a value or a
      user-visible error message. */
  datatype Result<T> = Success(value: T) | Failure(message: string)

  /** An octet, as held by Python's `bytes` and `BytesIO`. */
  newtype byte = x: int | 0 <= x < 256

  type Bytes = seq<byte>
}
