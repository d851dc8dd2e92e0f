/** The failure-carrying result type shared by every module: `None` for a lookup that misses
    or an operation that the source aborts with an exception. */
module Wrappers {

  datatype Option<+T> = None | Some(value: T)
}
