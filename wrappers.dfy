/** Option and the outcome of a check: Option stands for Guava's Optional, Outcome for a check
    that either passes or throws one of the data tree's exceptions. */
module Wrappers {

  datatype Option<+T> = None | Some(value: T)

  datatype Outcome<+E> = Pass | Fail(error: E)
}
