/** Small value types shared by the whole model: optional values, results with
    an error, and the bytes that archives and HTTP bodies are made of. */
module Base {

  datatype Option<+T> = None | Some(value: T)

  /** The outcome of an operation that may raise one of the errors in E. */
  datatype Result<+T, +E> = Success(value: T) | Failure(error: E)

  /** A Python `bytes` element. */
  newtype Byte = x: int | 0 <= x < 256

  type Bytes = seq<Byte>
}
