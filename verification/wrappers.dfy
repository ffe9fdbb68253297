/** The optional-value datatype used by the readers of this model. */
module Wrappers {
  datatype Option<+T> = None | Some(value: T)
}
