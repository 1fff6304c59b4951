/**
 * Failure values of the block finder.
 *
 * Each decoder `expect`s a byte from `Vec::pop`; where that panics the model
 * returns `InsufficientData`, carrying the field named in the panic message.
 * `block_size - 84` on a `u32` below 84 is a subtraction overflow
 * (`SizeUnderflow`). The two `anyhow` errors of the scanner are
 * `NetworkValidationFailed` ("network validation failed") and
 * `BlockNotFound` ("failed to find block").
 */
module Errors {

  datatype Error =
    | InsufficientData(field: string)
    | SizeUnderflow
    | NetworkValidationFailed
    | BlockNotFound

  datatype Option<T> = None | Some(value: T)

  /** `anyhow::Result`, usable with `:-` as Rust's `?`. */
  datatype Result<T> = Ok(value: T) | Err(error: Error) {
    predicate IsFailure() {
      Err?
    }

    function PropagateFailure<U>(): Result<U>
      requires Err?
    {
      Err(error)
    }

    function Extract(): T
      requires Ok?
    {
      value
    }
  }
}
