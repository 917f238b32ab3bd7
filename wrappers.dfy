/** Option, the value-or-nothing result used for C's NULL-returning lookups. */
module Wrappers {

  datatype Option<+T> = None | Some(value: T)

}
