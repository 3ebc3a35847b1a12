/** Python's `None`-or-value, as used for empty list slots and missing image URLs. */
module Wrappers {
  datatype Option<T> = None | Some(value: T)
}
