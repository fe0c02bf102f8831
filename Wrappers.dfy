/** The optional value used for the `Option<String>` timestamp and for parsers that may fail. */
module Wrappers {
  datatype Option<+T> = None | Some(value: T)
}
