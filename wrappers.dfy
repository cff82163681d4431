/** The optional value used for the persisted list, whose storage key may be absent. */
module Wrappers {
  datatype Option<+T> = None | Some(value: T)
}
