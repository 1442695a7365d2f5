/** Kotlin's nullable results (`T?`) as an option type. */
module Wrappers {
  datatype Option<T> = None | Some(value: T)
}
