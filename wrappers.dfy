/** An optional value, for the results of decoding and parsing that can fail. */
module Wrappers {

  datatype Option<+T> = None | Some(value: T)
}
