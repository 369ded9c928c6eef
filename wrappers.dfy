/** The optional value used for operations that can reject their input. */
module Wrappers {
  datatype Option<+T> = None | Some(value: T)
}
