/** Result and outcome types shared by the codec modules. */
module Wrappers {

  datatype Option<+T> = None | Some(value: T)

  /** Rust's `Result<T, E>`. */
  datatype Result<+T, +E> = Ok(value: T) | Err(error: E)

  /** Why a Rust routine aborts instead of returning. */
  datatype PanicCause =
    | UnwrapOnErr        // `Result::unwrap` on an `Err`
    | UnwrapOnNone       // `Option::unwrap` on a `None`
    | IndexOutOfRange    // `a[i]` with `i >= a.len()`
    | ArithmeticOverflow // unsigned subtraction that would go below zero

  /** The outcome of source code that either returns a `Result` or panics. */
  datatype Outcome<+T, +E> = Returned(result: Result<T, E>) | Panicked(cause: PanicCause)
}
