/** The optional value used for `undefined`/`None` in the modelled code. */
module Wrappers {
  datatype Option<+T> = None | Some(value: T)
}
