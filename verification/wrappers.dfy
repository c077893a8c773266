/** The optional-value type used for a node's absent or present children. */
module Wrappers {

  /** `None` plays the part of Python's `None`. */
  datatype Option<+T> = None | Some(value: T)
}
