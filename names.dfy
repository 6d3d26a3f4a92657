/** Weekday and month names: the atomic parsers every calendar literal starts with. */
module Names {
  import opened Errors

  /** A weekday in its C encoding: Sunday = 0, ..., Saturday = 6. */
  type Weekday = w: nat | w < 7

  /** A month number: January = 1, ..., December = 12. */
  type Month = m: nat | 1 <= m <= 12 witness 1

  const Sunday: Weekday := 0
  const Monday: Weekday := 1
  const Tuesday: Weekday := 2
  const Wednesday: Weekday := 3
  const Thursday: Weekday := 4
  const Friday: Weekday := 5
  const Saturday: Weekday := 6

  const January: Month := 1
  const February: Month := 2
  const March: Month := 3
  const April: Month := 4
  const May: Month := 5
  const June: Month := 6
  const July: Month := 7
  const August: Month := 8
  const September: Month := 9
  const October: Month := 10
  const November: Month := 11
  const December: Month := 12

  /** The three-letter English abbreviation of a weekday. */
  function WeekdayName(w: Weekday): (r: string)
    ensures |r| == 3
  {
    ["Sun", "Mon", "Tue", "Wed", "Thu", "Fri", "Sat"][w]
  }

  /** The three-letter English abbreviation of a month. */
  function MonthName(m: Month): (r: string)
    ensures |r| == 3
  {
    ["Jan", "Feb", "Mar", "Apr", "May", "Jun", "Jul", "Aug", "Sep", "Oct", "Nov", "Dec"][m - 1]
  }

  /** `parse_weekday`: shorter than three characters is a format error; then the
      first character, and for 'S' and 'T' the second, pick the weekday. */
  function ParseWeekday(s: string): (r: Result<Weekday>)
    ensures |s| < 3 ==> r == Err(Error(FormatError, WeekdayShape, s))
    ensures |s| >= 3 && s[0] !in "SMTWF" ==> r == Err(Error(ValueError, WeekdayShape, s))
    ensures r.Ok? <==> |s| >= 3 && s[0] in "SMTWF"
  {
    if |s| < 3 then Err(Error(FormatError, WeekdayShape, s))
    else
      match s[0]
      case 'S' => Ok(if s[1] == 'u' then Sunday else Saturday)
      case 'M' => Ok(Monday)
      case 'T' => Ok(if s[1] == 'u' then Tuesday else Thursday)
      case 'W' => Ok(Wednesday)
      case 'F' => Ok(Friday)
      case _ => Err(Error(ValueError, WeekdayShape, s))
  }

  /** `parse_month`: shorter than three characters is a format error; then the
      first character, with the second or third as tie-break, picks the month. */
  function ParseMonth(s: string): (r: Result<Month>)
    ensures |s| < 3 ==> r == Err(Error(FormatError, MonthShape, s))
    ensures |s| >= 3 && s[0] !in "JFMASOND" ==> r == Err(Error(ValueError, MonthShape, s))
    ensures r.Ok? <==> |s| >= 3 && s[0] in "JFMASOND"
  {
    if |s| < 3 then Err(Error(FormatError, MonthShape, s))
    else
      match s[0]
      case 'J' => Ok(if s[1] == 'a' then January else if s[2] == 'n' then June else July)
      case 'F' => Ok(February)
      case 'M' => Ok(if s[2] == 'r' then March else May)
      case 'A' => Ok(if s[1] == 'p' then April else August)
      case 'S' => Ok(September)
      case 'O' => Ok(October)
      case 'N' => Ok(November)
      case 'D' => Ok(December)
      case _ => Err(Error(ValueError, MonthShape, s))
  }

  /** Every weekday abbreviation, followed by anything, reads back as its weekday. */
  lemma ParseWeekdayName(w: Weekday, tail: string)
    ensures ParseWeekday(WeekdayName(w) + tail) == Ok(w)
  {
    var s := WeekdayName(w) + tail;
    assert s[..3] == WeekdayName(w);
  }

  /** Every month abbreviation, followed by anything, reads back as its month. */
  lemma ParseMonthName(m: Month, tail: string)
    ensures ParseMonth(MonthName(m) + tail) == Ok(m)
  {
    var s := MonthName(m) + tail;
    assert s[..3] == MonthName(m);
  }

  /** Past the length check only the first two characters matter. */
  lemma ParseWeekdayPrefix(s: string, t: string)
    requires |s| >= 3 && |t| >= 3 && s[..2] == t[..2]
    ensures ParseWeekday(s).Ok? == ParseWeekday(t).Ok?
    ensures ParseWeekday(s).Ok? ==> ParseWeekday(s).value == ParseWeekday(t).value
  {
    assert s[0] == s[..2][0] && s[1] == s[..2][1];
  }

  /** Past the length check only the first three characters matter. */
  lemma ParseMonthPrefix(s: string, t: string)
    requires |s| >= 3 && |t| >= 3 && s[..3] == t[..3]
    ensures ParseMonth(s).Ok? == ParseMonth(t).Ok?
    ensures ParseMonth(s).Ok? ==> ParseMonth(s).value == ParseMonth(t).value
  {
    assert s[0] == s[..3][0] && s[1] == s[..3][1] && s[2] == s[..3][2];
  }

  /** An unrecognised second or third character is not an error: any text of
      three or more characters that starts with 'J' is January, June or July,
      and "Jxx" falls through to July. */
  lemma ParseMonthFallsThrough()
    ensures ParseMonth("Jxx") == Ok(July)
    ensures ParseMonth("Mxx") == Ok(May)
    ensures ParseMonth("Axx") == Ok(August)
    ensures ParseWeekday("Sxx") == Ok(Saturday)
    ensures ParseWeekday("Txx") == Ok(Thursday)
  {
  }

  /** Too-short names fail before any character is inspected. */
  lemma ShortNamesFail()
    ensures ParseWeekday("Su") == Err(Error(FormatError, WeekdayShape, "Su"))
    ensures ParseMonth("Ju") == Err(Error(FormatError, MonthShape, "Ju"))
  {
  }
}
