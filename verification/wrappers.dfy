/** Optional values; `None` stands for JavaScript's `null`. */
module Wrappers {

  /** `None` plays the role of `null`; `Some(v)` carries a present value. */
  datatype Option<+T> = None | Some(value: T)
}
