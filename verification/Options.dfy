/** A value that may be missing: Java's null, or no value because of an exception. */
module Options {
  datatype Option<T> = None | Some(value: T)
}
