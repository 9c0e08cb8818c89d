/** The optional-value datatype used for reads and decodes that can fail. */
module Wrappers {
  datatype Option<+T> = None | Some(value: T)
}
