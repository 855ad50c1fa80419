/** Option and Result types, and the failures the coordinate resolver can report. */
module Outcomes {

  datatype Option<+T> = None | Some(value: T)

  /** Why a resolution produced no table. */
  datatype Failure =
    | MissingStartTime                // no reference time could be obtained
    | NoMovementData(day: int)        // the log has no movement on the day of the reference time
    | UnknownSerial(serial: string)   // a serial number the registry does not know

  datatype Result<+T> = Ok(value: T) | Err(error: Failure)
}
