/** The optional-value datatype used for operations that can fail on user input. */
module Wrappers {
  datatype Option<T> = None | Some(value: T)
}
