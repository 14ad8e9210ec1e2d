/** The optional value used throughout the model for "nothing chosen yet",
    a missing attribute, or an operation that did not proceed. */
module Wrappers {

  datatype Option<+T> = None | Some(value: T)
}
