/** The optional-value datatype shared by the dictionary and the pipeline. */
module Wrappers {

  /** A value that may be absent: JavaScript's `null`/`undefined` results. */
  datatype Option<+T> = None | Some(value: T)
}
