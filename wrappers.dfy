/** The optional value used wherever the service has "a value or nothing"
    (Python's `None`, a missing header, an exception that was swallowed). */
module Wrappers {

  datatype Option<+T> = None | Some(value: T)
}
