/** Failure-carrying datatypes shared by the model: `Option` for Rust's
    `Option`, and `Result` for the places where the Rust code would panic
    (an `unwrap` on a missing value, an out-of-range index). */
module Wrappers {

  datatype Option<+T> = None | Some(value: T)

  datatype Result<+T, +E> = Ok(value: T) | Err(error: E)
}
