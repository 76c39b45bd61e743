/** Optional values, used where the C code passes a pointer that may be NULL
    or a value that may be absent. */
module Wrappers {

  datatype Option<+T> = None | Some(value: T)
}
