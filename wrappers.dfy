/** An optional value, for operations that can raise instead of returning. */
module Wrappers {
  datatype Option<+T> = None | Some(value: T)
}
