/** Option and Result values, the Dafny counterparts of Rust's `Option` and `Result`. */
module Results {

  /** An optional value: the outcome of a parser that either produces a `T` or rejects its input. */
  datatype Option<+T> = None | Some(value: T)

  /** A value or an error, as returned by every fallible operation of the configuration loader. */
  datatype Result<+T, +E> = Ok(value: T) | Err(error: E)
}
