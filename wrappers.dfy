/** The usual optional-value datatype: JavaScript's `null` becomes `None`. */
module Wrappers {
  datatype Option<+T> = None | Some(value: T)
}
