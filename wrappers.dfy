/** Small failure-carrying datatypes shared by the whole model. */
module Wrappers {

  datatype Option<+T> = None | Some(value: T)

  /** A JavaScript `Error` raised by a foreign call (the database driver or bcrypt):
      it carries a message and, unlike the controller's own thrown objects, no status. */
  datatype Fault = Fault(message: string)

  /** The settled value of a promise returned by a foreign call. */
  datatype Result<+T> = Ok(value: T) | Err(fault: Fault)
}
