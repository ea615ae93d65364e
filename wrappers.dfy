/** The optional value used wherever the JavaScript code returns null or undefined. */
module Wrappers {
  datatype Option<+T> = None | Some(value: T)
}
