/** The optional value used where the player's Python code returns `None`. */
module Wrappers {
  datatype Option<+T> = None | Some(value: T)
}
