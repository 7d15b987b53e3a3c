/** The optional value used for Ruby's `nil`-or-value fields. */
module Wrappers {

  /** `None` stands for Ruby's `nil`; `Some(v)` for a present value. */
  datatype Option<+T> = None | Some(value: T)
}
