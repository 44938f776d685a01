module Wrappers {
  /** Some value, or what the source writes as a null pointer. */
  datatype Option<+T> = None | Some(value: T)
}
