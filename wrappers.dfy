/** Outcome types shared by the model: Go's `(value, error)` returns and panics. */
module Wrappers {

  datatype Option<+T> = None | Some(value: T)

  /** `Err` carries the message of the Go error value, or the cause of a panic. */
  datatype Result<+T> = Ok(value: T) | Err(msg: string)
}
