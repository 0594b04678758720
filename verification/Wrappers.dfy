/** What a search finds, if anything. */
module Wrappers {

  datatype Option<T> = None | Some(value: T)
}
