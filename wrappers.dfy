// An optional value, for operations that may refuse their input.
module Wrappers {

  datatype Option<+T> = None | Some(value: T)
}
