/** Failure-carrying values used by the decoder and the machine: Rust's
    Option, and a Result standing for a panic that aborts the program. */
module Wrappers {

  datatype Option<+T> = None | Some(value: T)

  datatype Result<+T, +E> = Ok(value: T) | Err(error: E)
}
