/** The optional values of the game: a board power-up that may be absent and
    an active effect that may be absent (`PowerUp | null` in the component). */
module Wrappers {

  datatype Option<+T> = None | Some(value: T)
}
