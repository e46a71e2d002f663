/** The optional result of the encoder: `None` is the absent value the encoder
    returns on malformed input, `Some(v)` a successful result `v`. */
module Wrappers {

  datatype Option<+T> = None | Some(value: T)
}
