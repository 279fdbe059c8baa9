/** Absence of a value: JavaScript's NaN or Invalid Date where the model needs it. */
module Wrappers {

  datatype Option<+T> = None | Some(value: T)
}
