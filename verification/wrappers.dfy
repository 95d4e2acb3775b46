/** The optional value used for every `Option` the renderer returns. */
module Wrappers {
  datatype Option<+T> = None | Some(value: T)
}
