/** Python's `None` beside a value: a NULL column, a missing cell, an absent domain. */
module Wrappers {
  datatype Option<+T> = None | Some(value: T)
}
