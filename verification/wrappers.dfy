/** A value that may be absent, used for parsers that can reject their input. */
module Wrappers {

  datatype Option<+T> = None | Some(value: T)
}
