/** A value that may be absent, used for unset settings and for the
    optional fields of an upload entry. */
module Wrappers {
  datatype Option<T> = None | Some(value: T)
}
