/** The optional value used for "found / not found" lookups. */
module Wrappers {

  datatype Option<+T> = None | Some(value: T)

}
