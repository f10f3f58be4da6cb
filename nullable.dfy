/** A C pointer that may be NULL, as a value. */
module Nullable {
  datatype Option<T> = None | Some(value: T)
}
