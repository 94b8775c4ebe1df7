/** Option, used for the name the win dialog returns (absent when the dialog is cancelled). */
module Wrappers {
  datatype Option<+T> = None | Some(value: T)
}
