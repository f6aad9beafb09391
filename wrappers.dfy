/** The optional value used wherever the game holds `null` or a value. */
module Wrappers {

  datatype Option<+T> = None | Some(value: T)
}
