/** The optional value used for the cached original text and the fill colour. */
module Wrappers {

  datatype Option<+T> = None | Some(value: T)
}
