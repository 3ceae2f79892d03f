/** The optional value used for a missing punch direction and for lookups that find nothing. */
module Wrappers {

  datatype Option<+T> = None | Some(value: T)

}
