/** Python's `None`-or-value, used for optional results throughout the model. */
module Wrappers {

  datatype Option<+T> = None | Some(value: T)

}
