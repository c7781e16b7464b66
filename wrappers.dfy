/** The optional-value datatype used for reads that may never complete. */
module Wrappers {

  datatype Option<+T> = None | Some(value: T)
}
