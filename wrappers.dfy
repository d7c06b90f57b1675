/** The optional value used for fields that a manifest entry may leave out. */
module Wrappers {
  datatype Option<+T> = None | Some(value: T)
}
