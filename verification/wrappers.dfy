/** Failure-carrying datatypes shared by the model.
    The JavaScript and Python sources signal failure by throwing; here a
    thrown error becomes an `Err` carrying the error's message text. */
module Wrappers {

  datatype Option<+T> = None | Some(value: T)

  /** Either a value or the `message` of the error that was thrown. */
  datatype Result<+T> = Ok(value: T) | Err(message: string)
}
