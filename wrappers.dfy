/** The Some/None wrapper that stands for a value or JavaScript's `null`. */
module Wrappers {
  datatype Option<+T> = None | Some(value: T)
}
