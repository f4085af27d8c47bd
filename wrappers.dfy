/** The optional value the source writes as PHP `null` or an unset array index. */
module Wrappers {
  datatype Option<+T> = None | Some(value: T)
}
