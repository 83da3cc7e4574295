/** Option, for values the PHP code may leave null. */
module Wrappers {

  datatype Option<+T> = None | Some(value: T)
}
