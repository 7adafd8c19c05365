/** The usual optional-value datatype, used for "no match", "no lock file" and similar absent values. */
module Wrappers {
  datatype Option<+T> = None | Some(value: T)
}
