/** The optional-value wrapper used throughout the model. */
module Wrappers {

  /** A value that may be absent: an unset option, an item without an action. */
  datatype Option<+T> = None | Some(value: T)
}
