/** Option, Result and the Python exceptions that the parser can raise. */
module Wrappers {

  datatype Option<+T> = None | Some(value: T)

  /** The exceptions `write_current_item` can raise: a missing dictionary key,
      an `int()` conversion of a non-numeric string, or subscripting `None`. */
  datatype PyError = KeyError(key: string) | ValueError(text: string) | TypeError

  datatype Result<+T> = Ok(value: T) | Err(error: PyError)

  /** How a call ended: normally, or by raising an exception. */
  datatype Status = Done | Raised(error: PyError)
}
