/** Option and Result, the shapes of Rust's Option<T> and anyhow::Result<T>
    as this model uses them. */
module Wrappers {

  datatype Option<+T> = None | Some(value: T)

  /** A computed value, or the error that the source would `bail!` with. */
  datatype Result<+T, +E> = Ok(value: T) | Err(error: E)

  /** A success without a value (Rust's `Result<()>`), or an error. */
  datatype Outcome<+E> = Pass | Fail(error: E)

  function Min(a: int, b: int): int
  {
    if a <= b then a else b
  }
}
