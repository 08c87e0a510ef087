/** Small value wrappers shared by the scheduling and IP-blocking modules. */
module Wrappers {

  /** A value that may be missing: JavaScript `null` (the bye slot, an absent date). */
  datatype Option<T> = None | Some(value: T)
}
