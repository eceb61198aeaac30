/** Option and Result, the two failure-carrying types the ledger's Rust API returns. */
module Wrappers {

  /** Rust's `Option<T>`. */
  datatype Option<+T> = None | Some(value: T)

  /** Rust's `Result<T, E>`; every error in the ledger is a static message string. */
  datatype Result<+T, +E> = Ok(value: T) | Err(error: E)
}
