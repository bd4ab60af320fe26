/** The conventional optional-value datatype used throughout the model. */
module Wrappers {

  /** Either nothing (a C NULL pointer) or a value. */
  datatype Option<+T> = None | Some(value: T)
}
