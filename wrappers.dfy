/** Option, the value that may be absent, used across the contact store model. */
module Wrappers {

  datatype Option<+T> = None | Some(value: T)
}
