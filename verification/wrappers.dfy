/** The Option type used wherever the source checks a reference against null. */
module Wrappers {
  datatype Option<T> = None | Some(value: T)
}
