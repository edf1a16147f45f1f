/** Optional values and results with an error, used for the pipeline's
    partial failures (a missing close price, an unparsable row) and for its
    one fatal error (an empty extraction batch). */
module Wrappers {

  datatype Option<+T> = None | Some(value: T)

  datatype Result<+R, +E> = Success(value: R) | Failure(error: E)
}
