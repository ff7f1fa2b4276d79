/** Optional values and pass/fail outcomes, used where the Python program raises
    an exception or returns None. */
module Wrappers {

  datatype Option<+T> = None | Some(value: T)

  datatype Outcome<+E> = Pass | Fail(error: E)
}
