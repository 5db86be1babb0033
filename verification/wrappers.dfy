/** Optional values. Wherever the C and C++ sources pass a pointer that may be
    NULL, the model uses `None` for NULL and `Some(x)` for a pointer to `x`. */
module Wrappers {

  datatype Option<+T> = None | Some(value: T)
}
