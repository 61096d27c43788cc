/** The optional value used by the decoders of this project. */
module Wrappers {
  datatype Option<+T> = None | Some(value: T)
}
