/** The optional value used where the JavaScript code has `null` or may fail. */
module Wrappers {
  datatype Option<+T> = None | Some(value: T)
}
