/** The optional value used where the sources write `T | None`. */
module Wrappers {
  datatype Option<+T> = None | Some(value: T)
}
