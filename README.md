# Calendar and duration text codec

A Dafny model of the text codec in `include/sql/types/date.hpp`. The SQL
layer uses it to turn `std::chrono` durations and `date`-library calendar
values into text and back:

- `format(duration)` prints a signed span as `[-]HH:MM:SS.mmm`.
  `parse_duration` reads `[-]h:m:s[.ms]` back.
- `parse_weekday` and `parse_month` map three-letter English names to a
  weekday (Sunday = 0 … Saturday = 6) or a month (January = 1 … December = 12).
  They use small decision tables on the first two or three characters.
- The composite parsers check a minimum length and separators at fixed
  offsets, then delegate to the name parsers or scan an unsigned number.
  They cover `Mon[2]`, `Mon[last]`, `Jan/15`, `Jan/last`, `Jan/Mon[2]` and
  `Jan/Mon[last]`.
- The year-scoped parsers cover `2024/Jan`, `2024-01-15`, `2024/Jan/last`,
  `2024/Jan/Mon[2]` and `2024/Jan/Mon[last]`. The last three read a signed
  year at the start. They then hand the text after the first `/` to the
  matching composite parser.

The modules are:

- `Errors`: the `Result` type. A failure records whether it is a *format*
  error (the text has the wrong shape) or a *value* error (a name or number
  is wrong). It also records which parser raised it and the text that parser
  was given. These mirror the `std::domain_error` messages. `parse_weekday`,
  `parse_month`, `parse_weekday_indexed` and `parse_month_day` throw both a
  format and a value message. The other parsers throw only a format message
  of their own, and pass on the errors of the parsers they call.
- `Scanf`: decimal text, plus the part of `std::sscanf` the codec relies on.
  A format is a list of directives. `ScanFrom` returns what each stored
  conversion consumed, and its length is the count `sscanf` returns. A
  literal that fails after the last conversion does not lower that count.
  `%hhu` stores the low eight bits of the number it reads.
- `Names`: `parse_weekday` and `parse_month`.
- `Duration`: a duration is an `int` number of milliseconds.
  - `FormatDuration` is `format`.
  - `ParseDuration` is `parse_duration` as written, with the milliseconds read
    into an `unsigned char`.
  - `ParseDurationWide` reads the milliseconds as a full unsigned number. It
    is the corrected parser (see Findings).
- `PartialDates`: the six composite parsers, as plain records.
- `YearDates`: the five year-scoped parsers. `Find` models `std::string::find`.

For each parser, the model also defines a canonical text of the value
(`…Text`). It proves that parsing that text gives the value back.

Behaviour of the code worth noting:

- Hours are printed with `std::setw(2)`, so one hour, two minutes, three
  seconds and four milliseconds, negated, is `-01:02:03.004`.
- `parse_month` never rejects an unknown second or third character. Any
  three-character text that starts with `J` is January, June or July, and
  `Jxx` is July.
- Errors come in two kinds: a format error and a value error.
- The parser that fails quotes the text it was handed. When `parse_year_month`
  rejects a month name, the error quotes only the three characters read as
  the name. `parse_month_weekday` hands on, and so quotes, all the text after
  the `/`. `parse_month_weekday_last` hands on only the three characters after
  the `/` (`str.substr(4, 3)`), so its weekday error quotes just those three.
- `parse_year_month_day` checks no range: `1-13-40` reads as month 13, day 40.

## Model

| member | source | states |
|---|---|---|
| Names.ParseWeekday | include/sql/types/date.hpp:75-88 | shorter than 3 characters is a format error; otherwise a first character outside S, M, T, W, F is a value error; success happens exactly when neither applies |
| Names.ParseMonth | include/sql/types/date.hpp:90-106 | shorter than 3 characters is a format error; otherwise a first character outside J, F, M, A, S, O, N, D is a value error; success happens exactly when neither applies |
| Names.ParseWeekdayName | include/sql/types/date.hpp:79-85 | each of Sun … Sat, followed by any text, reads as its own weekday |
| Names.ParseMonthName | include/sql/types/date.hpp:94-103 | each of Jan … Dec, followed by any text, reads as its own month, tie-breaks included |
| Names.ParseWeekdayPrefix | include/sql/types/date.hpp:79-85 | past the length check, the result depends only on the first two characters |
| Names.ParseMonthPrefix | include/sql/types/date.hpp:94-103 | past the length check, the result depends only on the first three characters |
| Names.ParseMonthFallsThrough | include/sql/types/date.hpp:95-98 | unrecognised tie-break characters still give a month or weekday: Jxx is July, Mxx May, Axx August, Sxx Saturday, Txx Thursday |
| Names.ShortNamesFail | include/sql/types/date.hpp:76-93 | "Su" and "Ju" are format errors that quote the input |
| Scanf.ScanFrom | include/sql/types/date.hpp:43 | `sscanf` never stores more values than its format has conversions |
| Scanf.ScanFits | include/sql/types/date.hpp:43 | each stored field matches its conversion: a non-empty number, unsigned unless `%d`, or a non-NUL `%c` character |
| Scanf.NumberLength | include/sql/types/date.hpp:43 | a numeric conversion never reads past the end of the text |
| Scanf.ScanLitAt | include/sql/types/date.hpp:113 | a matching literal character is consumed and the scan goes on after it |
| Scanf.ScanRunAt | include/sql/types/date.hpp:43 | a numeric conversion over a maximal run of digits stores that run, and the scan goes on after it |
| Scanf.ScanRunThen | include/sql/types/date.hpp:43 | a digit run followed by its separator stores the run and consumes the separator |
| Scanf.ScanNumberAt | include/sql/types/date.hpp:43 | a numeric conversion over the digits `s[i..j]`, not followed by a digit, stores exactly those digits |
| Scanf.ScanFieldAt | include/sql/types/date.hpp:43 | the same, followed by a non-digit separator that is consumed |
| Scanf.ScanNegativeAt | include/sql/types/date.hpp:43 | `%d` and `%lld` read a leading '-' together with the digits after it |
| Scanf.StoredDigits | include/sql/types/date.hpp:43 | the stored value of a run of digits is the value of the digits, as the conversion keeps it |
| Scanf.StoreSmall | include/sql/types/date.hpp:40-42 | a value below 256 survives being stored into an `unsigned char` |
| Scanf.NatText | include/sql/types/date.hpp:24-27 | decimal text of a number: non-empty digits whose value is the number, with no leading zero |
| Scanf.IntText | include/sql/types/date.hpp:162-172 | decimal text of a signed number: a '-' exactly when negative, then the magnitude's text |
| Scanf.ZeroPad | include/sql/types/date.hpp:23-27 | `setfill('0') << setw(n)`: exactly the larger of `n` and the text's length in characters, the original text at the end, only '0' before it, and the same value |
| Scanf.NumberOfInt | include/sql/types/date.hpp:162 | the text of a signed number reads back as that number |
| Duration.Split | include/sql/types/date.hpp:19-22 | the `duration_cast` chain gives minutes < 60, seconds < 60 and milliseconds < 1000, whose weighted sum is the magnitude |
| Duration.SplitTotal | include/sql/types/date.hpp:19-22 | a normal clock is the only split of its total, so the split is unique |
| Duration.Padded | include/sql/types/date.hpp:24-27 | a padded field is all digits, has the field's value, and is exactly 2 (or 3) characters wide when the value is below 100 (or 1000) |
| Duration.ClockText | include/sql/types/date.hpp:23-27 | the clock text is at least 12 characters long and starts with a digit |
| Duration.FormatDuration | include/sql/types/date.hpp:13-29 | the text starts with '-' exactly when the span is negative |
| Duration.PiecesLayout | include/sql/types/date.hpp:23-27 | the pieces joined as `sign hh:mm:ss.mmm` sit at fixed offsets from the end, in the clock layout |
| Duration.ClockTextLayout | include/sql/types/date.hpp:23-27 | a sign followed by a clock's text has at least two hour digits, then `:MM:SS.mmm` with 2, 2 and 3 digits holding the clock's fields |
| Duration.FormatDurationLayout | include/sql/types/date.hpp:13-29 | the formatted text is the sign, at least two hour digits, then `:MM:SS.mmm`, and the fields hold the magnitude's split |
| Duration.ClockConversions | include/sql/types/date.hpp:43 | `%lld:%hhu:%hhu.%hhu` has four conversions: signed, then three unsigned bytes |
| Duration.ParseClock | include/sql/types/date.hpp:32-50 | success happens exactly when the text after an optional leading '-' has the `h:m:s` layout (`HmsLayout`); the only failure is a format error quoting the input; a negative result needs a leading '-'; a leading '-' gives a result of at most zero |
| Duration.Assemble | include/sql/types/date.hpp:46-49 | with non-negative minute, second and millisecond fields, the span's magnitude is the hours, minutes, seconds and milliseconds summed, and its sign is '-' only when the text started with '-' |
| Duration.ScanHms | include/sql/types/date.hpp:43-45 | `%lld:%hhu:%hhu.…` stores at least three values exactly when the text has the `h:m:s` layout: a number, ':', a digit run, ':', a digit |
| Duration.ScanHmsAfter | include/sql/types/date.hpp:43-45 | after an hour number, three values are stored exactly when the minute and second layout follows it |
| Duration.HmsLayoutAfterHour | include/sql/types/date.hpp:43 | once the hour number is read, the `h:m:s` layout depends only on what follows it |
| Duration.ScanHourThen | include/sql/types/date.hpp:43 | a number at the start stores the hour, and then the rest of the format scans on from its end |
| Duration.ScanNoHour | include/sql/types/date.hpp:43-45 | with no number at the start nothing is stored, and the text does not have the `h:m:s` layout |
| Duration.ScanMinuteSecond | include/sql/types/date.hpp:43 | after the hour, `:%hhu:%hhu` stores both values exactly when ':', a digit run, ':' and a digit follow |
| Duration.ScanMinuteField | include/sql/types/date.hpp:43 | from the first minute digit, minutes and seconds are both stored exactly when the minute run is followed by ':' and a digit |
| Duration.ScanSecondsField | include/sql/types/date.hpp:43 | the seconds conversion stores a value exactly when a digit follows the second ':' |
| Duration.ScanMinutesOn | include/sql/types/date.hpp:43 | the minute, second and millisecond runs each store one field |
| Duration.ScanAfterHour | include/sql/types/date.hpp:43 | after the hour, `:m:s.ms` stores its three fields |
| Duration.ScanClockAt | include/sql/types/date.hpp:43 | text in the clock layout stores all four fields, at the hour, minute, second and millisecond runs |
| Duration.ScanSecondsAfterHour | include/sql/types/date.hpp:43 | without a `.ms` part, `:m:s` after the hour stores exactly two fields |
| Duration.ScanSecondsAt | include/sql/types/date.hpp:43 | `h:m:s` without milliseconds stores exactly three fields, so the parse still succeeds |
| Duration.ParseClockAt | include/sql/types/date.hpp:33-49 | in the clock layout, the result is the hour digits in hours, plus the minutes and seconds as an `unsigned char` keeps them, plus the milliseconds as stored, negated when a '-' was stripped |
| Duration.FieldValues | include/sql/types/date.hpp:39-48 | the absolute value of the scanned hour is its digits whether or not it carries a '-'; minutes and seconds are their digits modulo 256 |
| Duration.ParseClockFields | include/sql/types/date.hpp:43-49 | in the clock layout, the result is the assembled stored fields |
| Duration.ParseClockNoMillis | include/sql/types/date.hpp:43-48 | a missing `.ms` leaves the milliseconds at zero |
| Duration.ParseSecondsFields | include/sql/types/date.hpp:43-49 | with only `h:m:s`, the result is the assembled stored fields with zero milliseconds |
| Duration.AssembleRemainder | include/sql/types/date.hpp:46-48 | the millisecond remainder of an assembled span is its millisecond field |
| Duration.RemainderOfMillis | include/sql/types/date.hpp:46-48 | a clock's total, modulo 1000, is its millisecond field |
| Duration.ParseDuration | include/sql/types/date.hpp:31-50 | as written: success happens exactly when the text after an optional leading '-' has the `h:m:s` layout; the only failure is a format error quoting the input; the sign comes only from a leading '-'; the result's millisecond remainder is always below 256 |
| Duration.ParseDurationWide | include/sql/types/date.hpp:31-50 | the corrected parser: succeeds exactly on the same `h:m:s` layout, with the same failure and sign rules, and reads the milliseconds in full |
| Duration.ParseClockOfFormat | include/sql/types/date.hpp:13-50 | parsing formatted text gives back the sign and every field of the split, the milliseconds as the conversion stores them |
| Duration.ParseClockOfLayout | include/sql/types/date.hpp:33-49 | text in the clock layout whose fields hold a normal clock parses to that clock's total, with its sign |
| Duration.ParseWideOfFormat | include/sql/types/date.hpp:13-50 | the corrected parser gives back every field of a formatted span |
| Duration.ParseByteOfFormat | include/sql/types/date.hpp:13-50 | the parser as written gives back every field of a formatted span, with the milliseconds modulo 256 |
| Duration.AssembleSplit | include/sql/types/date.hpp:19-22 | re-assembling a span's split fields, with its sign, gives the span |
| Duration.DurationRoundTrip | include/sql/types/date.hpp:13-50 | with the milliseconds read in full, parsing the formatted text gives back every span |
| Duration.AssembleTruncated | include/sql/types/date.hpp:42-48 | re-assembling with the milliseconds modulo 256 gives the span exactly when its millisecond remainder is below 256 |
| Duration.DurationRoundTripAsWritten | include/sql/types/date.hpp:13-50 | parsing the formatted text gives back the span if and only if its millisecond remainder is below 256 |
| Duration.AssembleTruncatedValue | include/sql/types/date.hpp:42-48 | re-assembling with truncated milliseconds keeps the span except its millisecond remainder, which is reduced modulo 256 |
| Duration.MillisTruncatedLaw | include/sql/types/date.hpp:13-50 | what the parser as written returns for the formatted text of every span: the magnitude with its millisecond remainder reduced modulo 256, then the sign |
| Duration.MillisTruncated | include/sql/types/date.hpp:42-43 | "0:0:0.999" parses as 231 ms |
| Duration.NegationAppliesToTotal | include/sql/types/date.hpp:34-49 | "-1:30:00" is minus ninety minutes: the sign applies to the total, not to the hours |
| Duration.HourSignDiscarded | include/sql/types/date.hpp:47 | "--1:30:00" is also minus ninety minutes: the hour field's own sign is lost to the absolute value |
| Duration.MillisOptional | include/sql/types/date.hpp:43 | "1:30:00" is ninety minutes |
| Duration.SecondsRequired | include/sql/types/date.hpp:43-45 | "1:30" stores only two fields and is a format error |
| Duration.MillisUnscaled | include/sql/types/date.hpp:42-48 | "0:0:1.5" is 1005 ms: the fraction is a count of milliseconds, not a decimal fraction |
| PartialDates.ScanNumberAfter | include/sql/types/date.hpp:113 | after its one-character literal, `%u` stores a number exactly when a digit follows, and the number is that run of digits |
| PartialDates.UnsignedAt | include/sql/types/date.hpp:112-113 | the number `%u` stores is the value of the longest digit text at that point, and zero when no digit is there |
| PartialDates.ParseWeekdayIndexed | include/sql/types/date.hpp:108-117 | a format error exactly when shorter than 6 or '[' is not at index 3; past that, a value error exactly when no digit follows the '['; success exactly when the shape holds, a digit follows the '[' and the name parses; on success the weekday is the name's and the index is the digits; other errors are the name parser's |
| PartialDates.ParseWeekdayLast | include/sql/types/date.hpp:119-124 | a format error exactly when shorter than 9 or "[last]" is not at index 3; success exactly when that holds and the name parses; the weekday is the name's |
| PartialDates.ParseMonthDay | include/sql/types/date.hpp:126-135 | a format error exactly when shorter than 5 or '/' is not at index 3; past that, a value error exactly when no digit follows the '/'; success exactly when the shape holds, a digit follows the '/' and the month parses; on success the month is the name's and the day is the digits; other errors are the month parser's |
| PartialDates.ParseMonthDayLast | include/sql/types/date.hpp:137-142 | a format error exactly when shorter than 8 or "/last" is not at index 3; success exactly when that holds and the month parses |
| PartialDates.ParseMonthWeekday | include/sql/types/date.hpp:144-149 | a format error exactly when shorter than 10, or '/' is not at 3, or '[' is not at 7; success exactly when the month and the `weekday[index]` text after the '/' both parse; a failure of the inner parser is never a format error |
| PartialDates.ParseMonthWeekdayLast | include/sql/types/date.hpp:151-156 | a format error exactly when shorter than 13, or '/' is not at 3, or "[last]" is not at 7; success exactly when the month and the three characters after the '/' both parse |
| PartialDates.NameSepDigits | include/sql/types/date.hpp:109-113 | where the name, the separator and the digits sit in `name sep digits tail` |
| PartialDates.WeekdayIndexedAt | include/sql/types/date.hpp:108-117 | text holding a weekday name, '[' and digits reads as that weekday indexed by the digits |
| PartialDates.WeekdayIndexedReads | include/sql/types/date.hpp:113-116 | a name, '[', digits and anything that does not continue the digits read as that indexed weekday: the ']' is never checked |
| PartialDates.WeekdayIndexedRoundTrip | include/sql/types/date.hpp:108-117 | "Mon[2]"-style text reads back as its weekday and index |
| PartialDates.ClosingBracketUnchecked | include/sql/types/date.hpp:109-113 | "Mon[12" reads as the twelfth Monday; "Mon[1" is a format error, because the length check counts the ']' |
| PartialDates.WeekdayLastReads | include/sql/types/date.hpp:119-124 | a weekday name, "[last]" and anything read as that weekday's last occurrence |
| PartialDates.WeekdayLastRoundTrip | include/sql/types/date.hpp:119-124 | "Mon[last]"-style text reads back |
| PartialDates.MonthDayAt | include/sql/types/date.hpp:126-135 | text holding a month name, '/' and digits reads as that month and day |
| PartialDates.MonthDayReads | include/sql/types/date.hpp:131-134 | a month name, '/', digits and anything that does not continue the digits read as that month and day |
| PartialDates.MonthDayRoundTrip | include/sql/types/date.hpp:126-135 | "Jan/15"-style text reads back |
| PartialDates.DayNotChecked | include/sql/types/date.hpp:134 | "Feb/31" reads as February 31: no range check on the day |
| PartialDates.MonthDayLastReads | include/sql/types/date.hpp:137-142 | a month name, "/last" and anything read as that month's last day |
| PartialDates.MonthDayLastRoundTrip | include/sql/types/date.hpp:137-142 | "Jan/last"-style text reads back |
| PartialDates.MonthWeekdayShapeDelegates | include/sql/types/date.hpp:144-148 | once the outer `month/weekday[index]` shape check passes, the text after the '/' passes the inner `weekday[index]` check, so the inner parser can fail only with a value error |
| PartialDates.MonthWeekdayReads | include/sql/types/date.hpp:144-149 | a month name, '/', a weekday name, '[' and digits read as that month and indexed weekday (e.g. "Jan/Mon[2]") |
| PartialDates.MonthWeekdayRoundTrip | include/sql/types/date.hpp:144-149 | "Jan/Mon[2]"-style text reads back |
| PartialDates.MonthWeekdayLastReads | include/sql/types/date.hpp:151-156 | a month name, '/', a weekday name, "[last]" and anything read as that month and last weekday |
| PartialDates.MonthWeekdayLastRoundTrip | include/sql/types/date.hpp:151-156 | "Jan/Mon[last]"-style text reads back |
| YearDates.Find | include/sql/types/date.hpp:180 | `find('/')` gives the first index holding '/', or none when no index does |
| YearDates.ScanYear | include/sql/types/date.hpp:181 | `%d` at offset 0 stores exactly when the text starts with a digit or '-' and a digit; the year is that number |
| YearDates.FormatConversions | include/sql/types/date.hpp:162-172 | `%d/%c%c%c` is a signed conversion and three characters; `%d-%u-%u` is signed, then two unsigned |
| YearDates.MonthPart | include/sql/types/date.hpp:162 | the `%c%c%c` characters are three |
| YearDates.ScanYearMonth | include/sql/types/date.hpp:162 | all four values are stored exactly when there is a leading number, a '/' and three non-NUL characters; the characters are those after the '/' |
| YearDates.ParseYearMonth | include/sql/types/date.hpp:158-166 | a format error exactly when the `%d/%c%c%c` layout fails; success exactly when the layout holds and the three characters parse as a month; on success the year is the leading number and the month is the three characters' month; a month error quotes those three characters |
| YearDates.MonthNumberEnd | include/sql/types/date.hpp:172 | the month number's end lies within the text |
| YearDates.ScanYearMonthDay | include/sql/types/date.hpp:172 | all three values are stored exactly when there is a leading number and twice a '-' followed by a digit; the fields are those runs |
| YearDates.ParseYearMonthDay | include/sql/types/date.hpp:168-176 | success exactly when the `%d-%u-%u` layout holds, otherwise a format error; the year, month and day are the three numbers read, with no range check |
| YearDates.ParseYearMonthDayLast | include/sql/types/date.hpp:178-185 | a format error exactly when there is no '/' or no leading number; otherwise the year is the leading number and the result or error is `parse_month_day_last` of the text after the first '/' |
| YearDates.ParseYearMonthWeekday | include/sql/types/date.hpp:187-194 | the same, delegating to `parse_month_weekday` |
| YearDates.ParseYearMonthWeekdayLast | include/sql/types/date.hpp:196-203 | the same, delegating to `parse_month_weekday_last` |
| YearDates.IntTextSigned | include/sql/types/date.hpp:181 | the text of a year is read whole by `%d` as that year |
| YearDates.SignedDigitsNoSlash | include/sql/types/date.hpp:180-181 | no character of a year's text is a '/' |
| YearDates.LeadingYear | include/sql/types/date.hpp:181 | signed digits at the start, not followed by a digit, are the number `%d` reads |
| YearDates.YearSlashAt | include/sql/types/date.hpp:180-181 | the year is read, and the first '/' is the one after the year and any '/'-free text |
| YearDates.YearJunkSlash | include/sql/types/date.hpp:180-184 | for year, '/'-free junk, '/', rest: the year is read, the first '/' follows the junk, and the text after it is the rest |
| YearDates.YearMonthTextAt | include/sql/types/date.hpp:162 | year digits, '/' and three non-NUL characters meet the `%d/%c%c%c` layout, with that year and those characters |
| YearDates.YearMonthNameReads | include/sql/types/date.hpp:162 | the same for year, '/', three characters and any tail |
| YearDates.YearMonthReads | include/sql/types/date.hpp:158-166 | year digits, '/' and a month abbreviation read as that year and month, whatever follows |
| YearDates.YearMonthUnknownName | include/sql/types/date.hpp:165 | an unknown month name is a value error that quotes only the three characters |
| YearDates.YearMonthRoundTrip | include/sql/types/date.hpp:158-166 | "2024/Jan"-style text reads back |
| YearDates.DateFieldsAt | include/sql/types/date.hpp:172-175 | a number, '-', digits, '-' and digits found in place are the date read |
| YearDates.DateYear | include/sql/types/date.hpp:172 | the year of year-month-day text is its leading number |
| YearDates.DateMonth | include/sql/types/date.hpp:172 | the month of year-month-day text is its middle run of digits |
| YearDates.DateDay | include/sql/types/date.hpp:172 | the day of year-month-day text is its last run of digits |
| YearDates.YearMonthDayReads | include/sql/types/date.hpp:168-176 | year, '-', month digits, '-', day digits and a non-digit tail read as that date, leading zeros allowed |
| YearDates.YearMonthDayRoundTrip | include/sql/types/date.hpp:168-176 | the unpadded ISO text of a date reads back |
| YearDates.MonthAndDayNotChecked | include/sql/types/date.hpp:175 | "1-13-40" reads as month 13, day 40 |
| YearDates.YearMonthDayLastAt | include/sql/types/date.hpp:180-184 | with the year read and the first '/' found, the text after it decides the month |
| YearDates.YearMonthDayLastAfterSlash | include/sql/types/date.hpp:180-184 | '/'-free text between the year and the first '/' is ignored |
| YearDates.YearMonthDayLastRoundTrip | include/sql/types/date.hpp:178-185 | "2024/Jan/last"-style text reads back |
| YearDates.YearMonthWeekdayAt | include/sql/types/date.hpp:189-193 | with the year read and the first '/' found, the text after it decides the month and weekday |
| YearDates.YearMonthWeekdayAfterSlash | include/sql/types/date.hpp:189-193 | '/'-free text between the year and the first '/' is ignored |
| YearDates.YearMonthWeekdayRoundTrip | include/sql/types/date.hpp:187-194 | "2024/Jan/Mon[2]"-style text reads back |
| YearDates.YearMonthWeekdayLastAt | include/sql/types/date.hpp:198-202 | with the year read and the first '/' found, the text after it decides the month and last weekday |
| YearDates.YearMonthWeekdayLastAfterSlash | include/sql/types/date.hpp:198-202 | '/'-free text between the year and the first '/' is ignored |
| YearDates.YearMonthWeekdayLastRoundTrip | include/sql/types/date.hpp:196-203 | "2024/Jan/Mon[last]"-style text reads back |

## Left out

- Time points (`format` and `parse_time_point`, `include/sql/types/date.hpp:52-73`) are not modelled. The external `date` library does their `%F %T` rendering and parsing, which is not part of this model.
- Calendar validity and storage of the `date` library types are not modelled. That covers `year / month / day`, `weekday[index]`, `ok()` and leap years. Results are plain records, so an index or day that the library would store in a narrower type is kept whole.
- Leading whitespace, which `%d`, `%lld`, `%u` and `%hhu` skip, is not modelled.
- A '+' sign before a number is not modelled.
- A '-' accepted by `%u` and `%hhu` (which store the negated value as unsigned) is not modelled.
- Overflow of `int`, `unsigned` and `long long` is not modelled. All integers are unbounded.
- The only storage width modelled is `%hhu`'s `unsigned char`, because the round trip depends on it.
- The `Rep`/`Period` template parameters of the duration functions are not modelled. Durations are whole milliseconds: no floating-point `Rep`, no coarser or finer period, and no `duration_cast` truncation below a millisecond.
- Exception message strings are reduced to an error kind, the parser's shape and the quoted input.
- C++ does not fix the order in which the two operands of `month / weekday_indexed` and `month / weekday[last]` are evaluated. The model tries the month first. When both fail, C++ may report the other error.
- Text is modelled as a sequence of characters, while `std::string` sizes, offsets and `substr` count bytes. The fixed-offset checks at `include/sql/types/date.hpp:76-156` therefore agree with the model only on ASCII text. For example, "Möo[2]" is `Mon[2]` in the model, but in C++ it is 7 bytes long, `str[3]` is 'o', and `parse_weekday_indexed` throws a format error.
- The canonical `…Text` of composite values is used only to state round trips. It is not claimed to be what the `date` library prints, and printing those values is not part of this codec.

## Findings

| source | as written | input that shows it | evidently intended | confidence | as-written member | corrected member |
|---|---|---|---|---|---|---|
| include/sql/types/date.hpp:42-43 | the milliseconds are read with `%hhu` into an `unsigned char`, which keeps only the value modulo 256 | a span of 999 ms formats as `00:00:00.999` and parses back as 231 ms; "0:0:0.999" parses as 231 ms | every value `format` prints (milliseconds up to 999) parses back to the same span | high (not executed) | Duration.DurationRoundTripAsWritten | Duration.DurationRoundTrip |
