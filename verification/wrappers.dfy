/** Option: a value or nothing, the outcome of every lookup in the model. */
module Wrappers {

  datatype Option<+T> = None | Some(value: T)
}
