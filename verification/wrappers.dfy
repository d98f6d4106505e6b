/** Option type standing in for the nullable pointers of the modelled code. */
module Wrappers {

  /** `None` plays the role of a NULL pointer, `Some(v)` of a non-null one. */
  datatype Option<+T> = None | Some(value: T)
}
