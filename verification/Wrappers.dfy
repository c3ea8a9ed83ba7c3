/** The wrapper the other modules return where the source returns nothing or an error. */
module Wrappers {
  datatype Option<T> = None | Some(value: T)
}
