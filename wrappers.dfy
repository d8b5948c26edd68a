/** The optional value used for inputs that may be absent and for parsers that may fail. */
module Wrappers {

  datatype Option<+T> = None | Some(value: T)
}
