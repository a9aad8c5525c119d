/** Python's `None`-or-value results, as used for the optional readings. */
module Wrappers {
  datatype Option<+T> = None | Some(value: T)
}
