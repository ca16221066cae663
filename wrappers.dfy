/** The "value or nothing" type used where the source uses `null`. */
module Wrappers {
  datatype Option<+T> = None | Some(value: T)
}
