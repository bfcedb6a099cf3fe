/** The optional result of a lookup that may miss. */
module Wrappers {

  /** `Some(value)` when a result exists, `None` when it does not. */
  datatype Option<+T> = None | Some(value: T)
}
