/** The usual optional-value datatype, used for regex match results and dict lookups. */
module Wrappers {
  datatype Option<+T> = None | Some(value: T)
}
