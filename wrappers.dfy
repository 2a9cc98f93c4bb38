/** The option type used for every field Go keeps behind a pointer. */
module Wrappers {

  /** `None` stands for a nil pointer, `Some(v)` for a pointer to `v`. */
  datatype Option<+T> = None | Some(value: T)
}
