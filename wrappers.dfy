/** The optional value used for the solvers' "found / not found" results. */
module Wrappers {

  datatype Option<+T> = None | Some(value: T)

}
