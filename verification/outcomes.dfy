/** Optional values and success-or-error results, used wherever the
    modelled code can return "nothing" or raise. */
module Outcomes {

  datatype Option<+T> = None | Some(value: T)

  datatype Result<+T, +E> = Success(value: T) | Failure(error: E)
}
