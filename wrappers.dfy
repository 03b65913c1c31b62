// A value that may be missing, used where the hook would read `undefined`.
module Wrappers {
  datatype Option<T> = None | Some(value: T)
}
