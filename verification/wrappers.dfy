/** The optional value used wherever the script works with `undefined` or a missing match. */
module Wrappers {
  datatype Option<+T> = None | Some(value: T)
}
