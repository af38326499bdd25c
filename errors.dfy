/** Failure values of the library. Every failure of the original is a ValueError
    (an OverflowError for date arithmetic that leaves years 1..9999); the
    constructors below name the check that raised it, as the messages do. */
module Errors {

  datatype Error =
    | InvalidHour(hour: int)
    | InvalidMinute(minute: int)
    | InvalidSecond(second: int)
    | InvalidTime(text: string)
    | InvalidYear(year: int)
    | InvalidMonth(month: int)
    | InvalidDay(day: int, lastDay: int)
    | InvalidDate(text: string)
    | InvalidDateTime(text: string)
    | InvalidWeekday(value: int)
    | CannotFindDay
    | ToDateBeforeDate
    | Overflow

  /** Either a value or the error that was raised instead of returning it. */
  datatype Result<T> = Ok(value: T) | Err(error: Error)

  datatype Option<T> = None | Some(value: T)
}
