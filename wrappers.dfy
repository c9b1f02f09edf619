/** The optional-value datatype used where the source uses `null` or `undefined`. */
module Wrappers {

  datatype Option<+T> = None | Some(value: T)
}
