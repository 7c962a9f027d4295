/** The optional value used for nullable results (`T | null` in the source). */
module Wrappers {

  datatype Option<+T> = None | Some(value: T)
}
