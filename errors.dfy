/** The exceptions the modelled code raises, one constructor per kind. */
module Errors {
  import opened Wrappers

  datatype Error =
      /** `Pointer.Year ?? throw`, `Pointer.Month ?? throw`: the named field was null. */
    | NullField(field: string)
      /** `new DateTime(year, month, day)` with a month or day outside the calendar. */
    | DateOutOfRange(year: int, month: int, day: int)
      /** A list was indexed past its end (`dates[0]` on an empty list, `orderedValues[i]`). */
    | IndexOutOfRange
      /** `int.Parse` on text that is not an optional '-' followed by decimal digits. */
    | FormatError
      /** `int.Parse` on a number outside the 32-bit range. */
    | OverflowError
      /** No habit definition with this id for the user. */
    | HabitNotFound(habitId: string)
      /** No month record for the habit and the date's year and month. */
    | DoneRecordNotFound(habitId: string, year: int, month: int, day: int)
      /** The 10 attempts of adding a day were used up. */
    | AddDayExhausted(habitId: string, recordYear: Option<int>, recordMonth: Option<int>, day: int)
      /** The 10 attempts of removing a day were used up. */
    | RemoveDayExhausted(habitId: string, recordYear: Option<int>, recordMonth: Option<int>, day: int)
      /** A store write that is not retried was rejected (version conflict or transient failure). */
    | WriteRejected
}
