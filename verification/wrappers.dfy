/** The optional value used where the source passes `None` or reports that nothing was found. */
module Wrappers {
  datatype Option<+T> = None | Some(value: T)
}
