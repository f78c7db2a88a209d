/** The option type shared by the other modules: a Go pointer that may be nil, a nullable
    SQL column, or a Redis reply that may be nil. */
module Wrappers {
  datatype Option<+T> = None | Some(value: T)
}
