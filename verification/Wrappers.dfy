/** What may be there or not: a pointer that may be NULL, an answer that may be missing. */
module Wrappers {

  datatype Option<+T> = None | Some(value: T)
}
