/** Option, for a value that may be null or undefined on the JavaScript side. */
module Wrappers {

  datatype Option<+T> = None | Some(value: T)
}
