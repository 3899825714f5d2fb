/** The optional value the buffer returns wherever the source returns `Option`. */
module Wrappers {
  datatype Option<+T> = None | Some(value: T)
}
