/** Optional values and pass/fail outcomes, standing for Ruby's nil and for a raised exception. */
module Wrappers {

  /** `None` stands for Ruby's nil. */
  datatype Option<+T> = None | Some(value: T)

  /** `Fail` stands for an exception that ends the current call. */
  datatype Outcome<+E> = Pass | Fail(error: E)
}
