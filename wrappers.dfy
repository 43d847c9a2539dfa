/** An optional value: None where the stream lacks the attribute. */
module Wrappers {
  datatype Option<+T> = None | Some(value: T)
}
