/** The optional value used where the browser code returns `null` or `NaN`. */
module Wrappers {
  datatype Option<+T> = None | Some(value: T)
}
