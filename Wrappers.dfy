/** The optional value used where the source returns `False` or leaves a
    variable unset. */
module Wrappers {

  datatype Option<T> = None | Some(value: T)
}
