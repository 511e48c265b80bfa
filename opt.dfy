/** The optional value used wherever the C code has a nullable pointer. */
module Opt {
  datatype Option<T> = None | Some(value: T)
}
