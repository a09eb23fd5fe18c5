/** Absent-or-present values and success-or-error results, used for optional request
    fields, query results and the outcomes of the external services. */
module Wrappers {

  datatype Option<+T> = None | Some(value: T)

  datatype Result<+R, +E> = Success(value: R) | Failure(error: E)
}
