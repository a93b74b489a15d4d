/** The optional value used wherever the C code writes through an out-pointer
    only on some paths, or takes a pointer that may be NULL. */
module Wrappers {

  datatype Option<+T> = None | Some(value: T)
}
