/** Optional values: the model's stand-in for an operation that panics (a failed
    `unwrap`) or a reader that rejects its input. */
module Wrappers {
  datatype Option<+T> = None | Some(value: T)
}
