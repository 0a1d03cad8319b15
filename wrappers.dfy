/** Optional values and results with an error case, used for JavaScript's
    `null` and for the exceptions the resampler throws. */
module Wrappers {

  /** `None` stands for JavaScript's `null`. */
  datatype Option<+T> = None | Some(value: T)

  /** `Failure` stands for a thrown `Error`. */
  datatype Result<+T, +E> = Success(value: T) | Failure(error: E)
}
