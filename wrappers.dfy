/** The optional column that the search returns (Python's `None` or an int). */
module Wrappers {
  datatype Option<+T> = None | Some(value: T)
}
