/** Optional values; `Option` stands for the hook's nullable state. */
module Wrappers {

  /** A value that may be absent: `T | null` in the hook. */
  datatype Option<+T> = None | Some(value: T)
}
