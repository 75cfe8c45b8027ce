/** The optional-value datatype used where the source answers `undefined`. */
module Wrappers {

  datatype Option<+T> = None | Some(value: T)

}
