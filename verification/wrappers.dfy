/** The optional value that Python expresses with `None` (a failed regex search, a missing match). */
module Wrappers {

  datatype Option<+T> = None | Some(value: T)
}
