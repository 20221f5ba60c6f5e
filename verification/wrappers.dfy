/** The optional-value datatype used for the source's exception paths. */
module Wrappers {

  datatype Option<+T> = None | Some(value: T)
}
