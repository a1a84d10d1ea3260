/** The absence value returned by the column resolver. */
module Wrappers {

  datatype Option<+T> = None | Some(value: T)
}
