/** Errors raised by the calendar codec and the result type that carries them. */
module Errors {

  /** The two message families the parsers throw: "invalid ... format"
      (the text does not have the expected shape) and "invalid ... value"
      (the shape holds but a name or number does not read). Only the
      weekday, month, weekday-index and month/day parsers throw value
      errors; the others throw format errors alone, and pass on the value
      errors of the parsers they call. */
  datatype ErrorKind = FormatError | ValueError

  /** The grammar named in the message: which parser rejected the text. */
  datatype Shape =
    | DurationShape
    | WeekdayShape
    | MonthShape
    | WeekdayIndexedShape
    | WeekdayLastShape
    | MonthDayShape
    | MonthDayLastShape
    | MonthWeekdayShape
    | MonthWeekdayLastShape
    | YearMonthShape
    | YearMonthDayShape
    | YearMonthDayLastShape
    | YearMonthWeekdayShape
    | YearMonthWeekdayLastShape

  /** A `std::domain_error`: its kind, the expected grammar and the text it quotes. */
  datatype Error = Error(kind: ErrorKind, shape: Shape, input: string)

  /** Either a parsed value or the error the parser throws. */
  datatype Result<+T> = Ok(value: T) | Err(error: Error) {

    predicate IsFailure() {
      Err?
    }

    function PropagateFailure<U>(): Result<U>
      requires Err?
    {
      Err(error)
    }

    function Extract(): T
      requires Ok?
    {
      value
    }
  }
}
