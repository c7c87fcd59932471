/** The optional value used for every parse and every fallible step of the model. */
module Wrappers {
  datatype Option<+T> = None | Some(value: T)
}
