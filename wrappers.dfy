/** The optional value used wherever the Java code has `Optional<T>` or a
    reference that may be `null`. */
module Wrappers {

  datatype Option<+T> = None | Some(value: T)
}
