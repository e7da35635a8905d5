/** Java's `Optional<T>`, as returned by the repository queries. */
module Wrappers {

  datatype Option<T> = None | Some(value: T)
}
