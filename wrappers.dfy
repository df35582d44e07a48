/** The optional value used where the engine passes or returns a possibly-null pointer. */
module Wrappers {
  datatype Option<+T> = None | Some(value: T)
}
