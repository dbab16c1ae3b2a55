/** The optional value used where the server holds a nullable reference or a field that may be absent. */
module Wrappers {
  datatype Option<+T> = None | Some(value: T)
}
