/** Value wrappers for the outcomes the Rust code produces: `Option`, `Result`
    and, because several operations of the program abort with a panic instead
    of returning, an `Outcome` that records a panic as an explicit value. */
module Wrappers {

  datatype Option<+T> = None | Some(value: T)

  datatype Result<+T, +E> = Ok(value: T) | Err(error: E)

  /** Why a Rust operation aborted. */
  datatype Panic =
    | UnwrapOnNone     // `Option::unwrap` called on `None`
    | SliceOutOfRange  // a slice bound beyond the length of the vector

  /** What a call that may panic produces: it returns a value or it panics. */
  datatype Outcome<+T> = Returned(value: T) | Panicked(reason: Panic)
}
