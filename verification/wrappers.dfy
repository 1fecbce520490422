/** The two wrapper types of the model: `Option` for a Year that may be
    missing, `Result` for a step that may stop the run. */
module Wrappers {

  /** A value that may be absent. Stands for pandas' "NA" and Python's None. */
  datatype Option<+T> = None | Some(value: T)

  /** Either a value or the error that prevented computing it. */
  datatype Result<+T, +E> = Success(value: T) | Failure(error: E)
}
