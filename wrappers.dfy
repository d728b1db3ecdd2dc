/** An optional value: None stands for a null reference or an empty default tuple. */
module Wrappers {
  datatype Option<+T> = None | Some(value: T)
}
