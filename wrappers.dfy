/** The optional result the source signals with PHP's NULL. */
module Wrappers {

  datatype Option<+T> = None | Some(value: T)

}
