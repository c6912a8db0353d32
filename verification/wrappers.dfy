/** The optional-value datatype used for absent options and failed lookups. */
module Wrappers {

  datatype Option<+T> = None | Some(value: T)

}
