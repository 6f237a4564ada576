/** Option: a value that may be missing, used for a failed lookup or a failed parse. */
module Wrappers {
  datatype Option<+T> = None | Some(value: T)
}
