// Optional values, for NULL pointers and absent map entries.
module Wrappers {
  datatype Option<T> = None | Some(value: T)
}
