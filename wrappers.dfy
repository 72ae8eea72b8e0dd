/** The optional value used by the decoders of this model. */
module Wrappers {
  datatype Option<T> = None | Some(value: T)
}
