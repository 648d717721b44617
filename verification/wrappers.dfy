/** The optional-value datatype shared by every module of the model. */
module Wrappers {

  /** A value that may be missing, as an unset environment variable or a
      body that failed to parse. */
  datatype Option<+T> = None | Some(value: T)
}
