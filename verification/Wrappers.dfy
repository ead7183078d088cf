/** An optional result. */
module Wrappers {
  datatype Option<+T> = None | Some(value: T)
}
