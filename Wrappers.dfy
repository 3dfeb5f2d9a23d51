/** The optional value the model uses where the source returns a match object or `None`. */
module Wrappers {
  datatype Option<+T> = None | Some(value: T)
}
