/** The optional value used throughout the model for SQL `.get()` results and
    for request fields that may be absent. */
module Wrappers {
  datatype Option<+T> = None | Some(value: T)
}
