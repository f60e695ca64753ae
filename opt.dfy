// A nullable value: the model's stand-in for a C pointer that may be NULL.
module Opt {
  datatype Option<+T> = None | Some(value: T)
}
