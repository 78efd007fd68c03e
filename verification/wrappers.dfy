/** An optional value; used where the source can panic. */
module Wrappers {

  /** `None` stands for a call that panics. */
  datatype Option<+T> = None | Some(value: T)
}
