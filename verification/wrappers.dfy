/** The optional value the differ's reference and the console reader return. */
module Wrappers {
  datatype Option<+T> = None | Some(value: T)
}
