/** Small value types shared by the pipeline stages: optional values, the two
    Python runtime errors the script can raise, and per-entry outcomes. */
module Wrappers {

  datatype Option<T> = None | Some(value: T)

  /** The uncaught exceptions the script can raise: an out-of-range list index
      (short path, empty question file, empty question dict) or a missing
      dictionary key (a story whose dataset is not one of the three buckets). */
  datatype Error = IndexError | KeyError

  /** Result of a whole stage: either its value, or the exception that aborted it. */
  datatype Result<T> = Ok(value: T) | Err(error: Error)

  /** Result of processing one archive entry: a record, a silent skip
      (the Python function returns None), or an exception that aborts the stage. */
  datatype Outcome<T> = Accept(value: T) | Reject | Crash(error: Error)
}
