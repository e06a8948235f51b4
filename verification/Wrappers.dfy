/** Option stands for the nullable pointers and "not found" results of the modelled code. */
module Wrappers {
  datatype Option<+T> = None | Some(value: T)
}
