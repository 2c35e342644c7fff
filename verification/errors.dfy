/** Failure values of the scheduling core.

    The calendar reports failures by throwing exception objects that carry an
    integer code; the codes below are the ones the core actually throws. Each
    becomes one constructor here, with the code kept in a comment. */
module Errors {

  datatype Error =
    | EventOverlap          // event error 1: overlaps an existing event
    | EventDayFull          // event error 2: ten events already on the day
    | EventNotFound         // event error 3: no event with that title
    | EventShiftOutOfRange  // event error 5: invalid date for shifting
    | EventInvalidInterval  // event error 6: end time before start time
    | EventShiftOverlap     // event error 7: overlap on the shift target
    | DayIsOff              // day error 1: adding to a day off
    | DayViewOutOfRange     // day error 3: invalid day for viewing
    | DayOutOfRange         // day error 4: date before today or after the 31st
    | WeekViewOutOfRange    // day error 5: invalid start day for the week view
    | TimeInvalid           // time error 1: hour or minute out of range
    | MalformedText         // numeric text outside the well-formed digit subset

  datatype Option<+T> = None | Some(value: T) {
    function GetOr(default: T): T {
      match this
      case Some(v) => v
      case None => default
    }
  }

  /** Either a value or the error that the source would have thrown. */
  datatype Result<+T> = Ok(value: T) | Err(error: Error) {
    predicate IsFailure() {
      Err?
    }

    function PropagateFailure<U>(): Result<U>
      requires Err?
    {
      Err(error)
    }

    function Extract(): T
      requires Ok?
    {
      value
    }
  }
}
