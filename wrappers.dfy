/** The optional value used where the scripts hold a nullable node reference. */
module Wrappers {
  datatype Option<+T> = None | Some(value: T)
}
