/** Outcomes: a value that may be absent, and a computation that may throw. */
module Wrappers {
  datatype Option<+T> = None | Some(value: T)
}
