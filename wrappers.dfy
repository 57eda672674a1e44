/** Optional values: Java's nullable references and the outcome of a call that may fail. */
module Wrappers {

  datatype Option<+T> = None | Some(value: T)
}
