/** Option stands for a value pandas may hold as NaN (or a lookup that may fail). */
module Wrappers {
  datatype Option<+T> = None | Some(value: T)
}
