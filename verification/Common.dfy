/** Failure-carrying results shared by the modules of this project. */
module Common {

  datatype Option<+T> = None | Some(value: T)

  datatype Result<+T> = Ok(value: T) | Err

  /** Durations and times are counted in nanoseconds. */
  const SECOND := 1_000_000_000
}
