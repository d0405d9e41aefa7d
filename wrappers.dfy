/** The optional value used for "not found", `NaN` and a failed translation. */
module Wrappers {
  datatype Option<+T> = None | Some(value: T)
}
