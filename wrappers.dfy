/** The optional value used for data that may be absent (the browser's cached text). */
module Wrappers {
  datatype Option<+T> = None | Some(value: T)
}
