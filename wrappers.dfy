/** Option type for values that an external collaborator may fail to deliver. */
module Wrappers {
  datatype Option<+T> = None | Some(value: T)
}
