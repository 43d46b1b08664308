/** The optional value used wherever the Java code may hand back `null`. */
module Wrappers {

  datatype Option<+T> = None | Some(value: T)
}
