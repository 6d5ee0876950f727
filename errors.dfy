/** Error taxonomy of the driver (src/error.rs) and the result type every operation returns. */
module Errors {

  /** The error kinds. `FamilyCodeMismatch` and `Timeout` belong to the taxonomy but no
      operation of this core raises them. `PinError` stands for a failure reported by the
      pin itself; the line of this model never fails, so it is never raised either. */
  datatype OneWireError =
    | BusNotHigh
    | PinError
    | UnexpectedResponse
    | FamilyCodeMismatch
    | CrcMismatch
    | Timeout

  /** `OneWireResult<T, E>`: a value or one of the error kinds. */
  datatype Result<T> = Ok(value: T) | Err(error: OneWireError)

  /** Rust's `Option<T>`. */
  datatype Option<T> = None | Some(value: T)
}
