/** A value that may be missing: the model's stand-in for a null (NaN) cell. */
module Wrappers {

  datatype Option<+T> = None | Some(value: T)
}
