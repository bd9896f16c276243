/** The optional value the game uses for "no pending direction" and "no vacated cell". */
module Wrappers {
  datatype Option<+T> = None | Some(value: T)
}
