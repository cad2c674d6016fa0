/** Option and Result, the two failure-carrying shapes the dashboard's data layer uses:
    `null` for a source that could not be read, and a thrown Error for a table that
    cannot be loaded. */
module Wrappers {

  datatype Option<+T> = None | Some(value: T)

  datatype Result<+R, +E> = Success(value: R) | Failure(error: E)
}
