/** The optional-value datatype used throughout the auction model. */
module Wrappers {

  /** A value that may be absent, as a nullable database column or an empty query result. */
  datatype Option<+T> = None | Some(value: T)
}
