/** The optional value the game code expresses with `null`. */
module Wrappers {

  datatype Option<+T> = None | Some(value: T)
}
