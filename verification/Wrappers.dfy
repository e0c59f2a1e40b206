/** The result types that stand for the program's null pointers and 0/1 answers. */
module Wrappers {
  datatype Option<+T> = None | Some(value: T)
}
