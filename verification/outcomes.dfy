/** Optional values and the failures the analysis raises. */
module Outcomes {

  /** A value that may be missing (a NaN cell of a column). */
  datatype Option<+T> = None | Some(value: T)

  /** The exceptions the statistics can raise on data they cannot summarise. */
  datatype Failure =
    | EmptyMode    // `Series.mode()[0]` on a column without values: the mode series is empty
    | EmptyIdxMax  // `Series.idxmax()` on an empty series
    | NaNToInt     // `int(x)` where x is NaN (the min, max or mean of no values)

  /** The outcome of a computation that may raise one of the failures above. */
  datatype Result<+T> = Ok(value: T) | Err(failure: Failure)
}
