/** The optional-value datatype shared by the patch engine model. */
module Wrappers {

  datatype Option<+T> = None | Some(value: T)
}
