/** The Option type used for "maybe a value" results throughout the model. */
module Wrappers {

  datatype Option<+T> = None | Some(value: T)
}
