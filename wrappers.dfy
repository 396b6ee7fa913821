/** Option and Result values shared by the queries. */
module Wrappers {

  /** A value that may be absent; `None` stands for a missing (NaN) cell. */
  datatype Option<+T> = None | Some(value: T)

  /** The outcome of an operation that may raise. */
  datatype Result<+T, +E> = Ok(value: T) | Err(error: E)
}
