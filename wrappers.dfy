/** Java's nullable references to immutable values (a String that may be null) become Option. */
module Wrappers {
  datatype Option<+T> = None | Some(value: T)
}
