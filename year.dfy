/** Calendar literals that start with a year: `2024/Jan`, `2024-01-15`,
    `2024/Jan/last`, `2024/Jan/Mon[2]` and `2024/Jan/Mon[last]`. */
module YearDates {
  import opened Errors
  import opened Scanf
  import opened Names
  import opened PartialDates

  datatype Option<T> = None | Some(value: T)

  /** A month of a year. */
  datatype YearMonth = YearMonth(year: int, month: Month)

  /** A date; neither the month nor the day is range-checked. */
  datatype YearMonthDay = YearMonthDay(year: int, month: nat, day: nat)

  /** The last day of a month of a year. */
  datatype YearMonthDayLast = YearMonthDayLast(year: int, monthDayLast: MonthDayLast)

  /** The `n`-th given weekday of a month of a year. */
  datatype YearMonthWeekday = YearMonthWeekday(year: int, monthWeekday: MonthWeekday)

  /** The last given weekday of a month of a year. */
  datatype YearMonthWeekdayLast = YearMonthWeekdayLast(year: int, monthWeekdayLast: MonthWeekdayLast)

  /** `str.find(c, i)`: the first index at or after `i` that holds `c`. */
  function Find(s: string, c: char, i: nat): (r: Option<nat>)
    requires i <= |s|
    ensures r.Some? ==> i <= r.value < |s| && s[r.value] == c
    ensures r.Some? ==> forall k :: i <= k < r.value ==> s[k] != c
    ensures r.None? ==> forall k :: i <= k < |s| ==> s[k] != c
    decreases |s| - i
  {
    if i == |s| then None
    else if s[i] == c then Some(i)
    else Find(s, c, i + 1)
  }

  /** `%d` at the start of the text reads something: a digit, or a '-' and a digit. */
  predicate LeadsWithNumber(s: string) {
    |s| > 0 && (IsDigit(s[0]) || (|s| > 1 && s[0] == '-' && IsDigit(s[1])))
  }

  /** The number `%d` reads at the start of the text. */
  function LeadingNumber(s: string): int {
    NumberAt(s, 0, NumberLength(SignedInt, s, 0))
  }

  /** `sscanf(s.data(), "%d", &y)` stores a year exactly when the text leads
      with a number, and the year is that number. */
  lemma ScanYear(s: string)
    ensures var f := ScanFrom(s, 0, Conv(SignedInt, End));
      && (|f| == 1 <==> LeadsWithNumber(s))
      && (|f| == 1 ==> f[0].Num? && f[0].start == 0 && 0 < f[0].end <= |s|
                       && Stored(s, SignedInt, f[0]) == LeadingNumber(s))
  {
  }

  /** `%d/%c%c%c`: a year, a '/' and three characters. */
  function YearMonthFormat(): Format {
    Conv(SignedInt, Lit('/', Conv(AnyChar, Conv(AnyChar, Conv(AnyChar, End)))))
  }

  /** `%d-%u-%u`: a year, a '-', a month number, a '-' and a day number. */
  function YearMonthDayFormat(): Format {
    Conv(SignedInt, Lit('-', Conv(UnsignedInt, Lit('-', Conv(UnsignedInt, End)))))
  }

  /** The conversions of the two formats, position by position. */
  lemma FormatConversions()
    ensures Arity(YearMonthFormat()) == 4
    ensures ConversionAt(YearMonthFormat(), 0) == SignedInt
    ensures ConversionAt(YearMonthFormat(), 1) == AnyChar
    ensures ConversionAt(YearMonthFormat(), 2) == AnyChar
    ensures ConversionAt(YearMonthFormat(), 3) == AnyChar
    ensures Arity(YearMonthDayFormat()) == 3
    ensures ConversionAt(YearMonthDayFormat(), 0) == SignedInt
    ensures ConversionAt(YearMonthDayFormat(), 1) == UnsignedInt
    ensures ConversionAt(YearMonthDayFormat(), 2) == UnsignedInt
  {
    var ym := Conv(AnyChar, Conv(AnyChar, Conv(AnyChar, End)));
    assert ConversionAt(Lit('/', ym), 2) == AnyChar;
    var ymd := Conv(UnsignedInt, Lit('-', Conv(UnsignedInt, End)));
    assert ConversionAt(Lit('-', ymd), 1) == UnsignedInt;
  }

  /** What `%d/%c%c%c` needs to store all four values: a number at the
      start, a '/' right after it and three more characters, none of them
      the NUL that ends a C string. */
  predicate YearMonthLayout(s: string) {
    LeadsWithNumber(s)
    && var n := NumberLength(SignedInt, s, 0);
    n + 4 <= |s| && s[n] == '/' && s[n + 1] != '\0' && s[n + 2] != '\0' && s[n + 3] != '\0'
  }

  /** The three characters `%c%c%c` reads. */
  function MonthPart(s: string): (r: string)
    requires YearMonthLayout(s)
    ensures |r| == 3
  {
    var n := NumberLength(SignedInt, s, 0);
    s[n + 1..n + 4]
  }

  /** The stored values of `%d/%c%c%c`, when all four are stored. */
  lemma ScanYearMonth(s: string)
    ensures var f := ScanFrom(s, 0, YearMonthFormat());
      && (|f| == 4 <==> YearMonthLayout(s))
      && (|f| == 4 ==> f[0] == Num(0, NumberLength(SignedInt, s, 0))
                       && f[1].Chr? && f[2].Chr? && f[3].Chr?
                       && [f[1].c, f[2].c, f[3].c] == MonthPart(s))
  {
    var n := NumberLength(SignedInt, s, 0);
    if n > 0 {
      var chars := Conv(AnyChar, Conv(AnyChar, Conv(AnyChar, End)));
      assert ScanFrom(s, 0, YearMonthFormat()) == [Num(0, n)] + ScanFrom(s, n, Lit('/', chars));
    }
  }

  /** `parse_year_month`: unless `%d/%c%c%c` stores all four values it is a
      format error; the three characters are then a month name, whose error
      quotes those three characters rather than the whole text. */
  function ParseYearMonth(s: string): (r: Result<YearMonth>)
    ensures r == Err(Error(FormatError, YearMonthShape, s)) <==> !YearMonthLayout(s)
    ensures r.Ok? <==> YearMonthLayout(s) && ParseMonth(MonthPart(s)).Ok?
    ensures r.Ok? ==> YearMonthLayout(s) && r.value.year == LeadingNumber(s)
                      && ParseMonth(MonthPart(s)) == Ok(r.value.month)
    ensures r.Err? && r.error.shape != YearMonthShape
            ==> YearMonthLayout(s) && ParseMonth(MonthPart(s)) == Err(r.error)
  {
    var f := ScanFrom(s, 0, YearMonthFormat());
    ScanYearMonth(s);
    if |f| != 4 then Err(Error(FormatError, YearMonthShape, s))
    else
      var m :- ParseMonth([f[1].c, f[2].c, f[3].c]);
      Ok(YearMonth(Stored(s, SignedInt, f[0]), m))
  }

  /** Where the month number that follows the year and its '-' ends. */
  function MonthNumberEnd(s: string): (p: nat)
    requires NumberLength(SignedInt, s, 0) < |s|
    ensures p <= |s|
  {
    var n := NumberLength(SignedInt, s, 0);
    n + 1 + DigitRun(s, n + 1)
  }

  /** What `%d-%u-%u` needs to store all three values: a number at the
      start, then twice a '-' followed by at least one digit. */
  predicate YearMonthDayLayout(s: string) {
    LeadsWithNumber(s)
    && var n := NumberLength(SignedInt, s, 0);
    n + 1 < |s| && s[n] == '-' && IsDigit(s[n + 1])
    && var p := MonthNumberEnd(s);
    p + 1 < |s| && s[p] == '-' && IsDigit(s[p + 1])
  }

  /** The stored values of `%d-%u-%u`, when all three are stored. */
  lemma ScanYearMonthDay(s: string)
    ensures var f := ScanFrom(s, 0, YearMonthDayFormat());
      && (|f| == 3 <==> YearMonthDayLayout(s))
      && (|f| == 3 ==> var n, p := NumberLength(SignedInt, s, 0), MonthNumberEnd(s);
                       && f[0] == Num(0, n)
                       && f[1] == Num(n + 1, p)
                       && f[2] == Num(p + 1, p + 1 + DigitRun(s, p + 1)))
  {
    var n := NumberLength(SignedInt, s, 0);
    if n > 0 {
      var day := Lit('-', Conv(UnsignedInt, End));
      assert ScanFrom(s, 0, YearMonthDayFormat()) == [Num(0, n)] + ScanFrom(s, n, Lit('-', Conv(UnsignedInt, day)));
      if n + 1 < |s| && s[n] == '-' && IsDigit(s[n + 1]) {
        var p := MonthNumberEnd(s);
        assert ScanFrom(s, n, Lit('-', Conv(UnsignedInt, day))) == [Num(n + 1, p)] + ScanFrom(s, p, day);
      }
    }
  }

  /** `parse_year_month_day`: unless `%d-%u-%u` stores all three values it is
      a format error.  Neither the month nor the day is range-checked. */
  function ParseYearMonthDay(s: string): (r: Result<YearMonthDay>)
    ensures r.Ok? <==> YearMonthDayLayout(s)
    ensures r.Err? ==> r.error == Error(FormatError, YearMonthDayShape, s)
    ensures r.Ok? ==> var n := NumberLength(SignedInt, s, 0);
      r.value == YearMonthDay(LeadingNumber(s), UnsignedAt(s, n + 1), UnsignedAt(s, MonthNumberEnd(s) + 1))
  {
    var f := ScanFrom(s, 0, YearMonthDayFormat());
    ScanYearMonthDay(s);
    if |f| != 3 then Err(Error(FormatError, YearMonthDayShape, s))
    else
      var m, d := DigitsAt(s, f[1].start, f[1].end), DigitsAt(s, f[2].start, f[2].end);
      assert m == Stored(s, UnsignedInt, f[1]) && d == Stored(s, UnsignedInt, f[2]);
      Ok(YearMonthDay(Stored(s, SignedInt, f[0]), m, d))
  }

  /** `parse_year_month_day_last`: no '/' anywhere or no number at the start
      is a format error; the text after the first '/' is then `month/last`. */
  function ParseYearMonthDayLast(s: string): (r: Result<YearMonthDayLast>)
    ensures r == Err(Error(FormatError, YearMonthDayLastShape, s)) <==> Find(s, '/', 0).None? || !LeadsWithNumber(s)
    ensures r.Ok? ==> ParseMonthDayLast(s[Find(s, '/', 0).value + 1..]) == Ok(r.value.monthDayLast)
                      && r.value.year == LeadingNumber(s)
    ensures r.Err? && r.error != Error(FormatError, YearMonthDayLastShape, s)
            ==> ParseMonthDayLast(s[Find(s, '/', 0).value + 1..]) == Err(r.error)
  {
    var pos := Find(s, '/', 0);
    var f := ScanFrom(s, 0, Conv(SignedInt, End));
    ScanYear(s);
    if pos.None? || |f| != 1 then Err(Error(FormatError, YearMonthDayLastShape, s))
    else
      var mdl :- ParseMonthDayLast(s[pos.value + 1..]);
      Ok(YearMonthDayLast(Stored(s, SignedInt, f[0]), mdl))
  }

  /** `parse_year_month_weekday`: no '/' anywhere or no number at the start is
      a format error; the text after the first '/' is then
      `month/weekday[index]`. */
  function ParseYearMonthWeekday(s: string): (r: Result<YearMonthWeekday>)
    ensures r == Err(Error(FormatError, YearMonthWeekdayShape, s)) <==> Find(s, '/', 0).None? || !LeadsWithNumber(s)
    ensures r.Ok? ==> ParseMonthWeekday(s[Find(s, '/', 0).value + 1..]) == Ok(r.value.monthWeekday)
                      && r.value.year == LeadingNumber(s)
    ensures r.Err? && r.error != Error(FormatError, YearMonthWeekdayShape, s)
            ==> ParseMonthWeekday(s[Find(s, '/', 0).value + 1..]) == Err(r.error)
  {
    var pos := Find(s, '/', 0);
    var f := ScanFrom(s, 0, Conv(SignedInt, End));
    ScanYear(s);
    if pos.None? || |f| != 1 then Err(Error(FormatError, YearMonthWeekdayShape, s))
    else
      var mw :- ParseMonthWeekday(s[pos.value + 1..]);
      Ok(YearMonthWeekday(Stored(s, SignedInt, f[0]), mw))
  }

  /** `parse_year_month_weekday_last`: no '/' anywhere or no number at the
      start is a format error; the text after the first '/' is then
      `month/weekday[last]`. */
  function ParseYearMonthWeekdayLast(s: string): (r: Result<YearMonthWeekdayLast>)
    ensures r == Err(Error(FormatError, YearMonthWeekdayLastShape, s)) <==> Find(s, '/', 0).None? || !LeadsWithNumber(s)
    ensures r.Ok? ==> ParseMonthWeekdayLast(s[Find(s, '/', 0).value + 1..]) == Ok(r.value.monthWeekdayLast)
                      && r.value.year == LeadingNumber(s)
    ensures r.Err? && r.error != Error(FormatError, YearMonthWeekdayLastShape, s)
            ==> ParseMonthWeekdayLast(s[Find(s, '/', 0).value + 1..]) == Err(r.error)
  {
    var pos := Find(s, '/', 0);
    var f := ScanFrom(s, 0, Conv(SignedInt, End));
    ScanYear(s);
    if pos.None? || |f| != 1 then Err(Error(FormatError, YearMonthWeekdayLastShape, s))
    else
      var mwl :- ParseMonthWeekdayLast(s[pos.value + 1..]);
      Ok(YearMonthWeekdayLast(Stored(s, SignedInt, f[0]), mwl))
  }

  /** Text `%d` reads whole: digits, or a '-' and digits. */
  predicate SignedDigits(t: string) {
    && |t| > 0
    && (t[0] == '-' ==> |t| > 1 && AllDigits(t[1..]))
    && (t[0] != '-' ==> AllDigits(t))
  }

  /** The value `%d` reads from signed digit text. */
  function SignedValue(t: string): int {
    NumberAt(t, 0, |t|)
  }

  /** A canonical year text is signed digit text with the year's value. */
  lemma IntTextSigned(y: int)
    ensures SignedDigits(IntText(y)) && SignedValue(IntText(y)) == y
  {
    NumberOfInt(y);
  }

  /** No character of signed digit text is a '/'. */
  lemma SignedDigitsNoSlash(t: string)
    requires SignedDigits(t)
    ensures forall k :: 0 <= k < |t| ==> t[k] != '/'
  {
    forall k | 0 <= k < |t|
      ensures t[k] != '/'
    {
      if k > 0 {
        assert t[k] == t[1..][k - 1];
      }
    }
  }

  /** Signed digit text at the start, not followed by a digit, is what `%d` reads. */
  lemma LeadingYear(s: string, t: string)
    requires SignedDigits(t) && |t| <= |s| && s[..|t|] == t
    requires |t| == |s| || !IsDigit(s[|t|])
    ensures LeadsWithNumber(s) && NumberLength(SignedInt, s, 0) == |t|
    ensures LeadingNumber(s) == SignedValue(t)
  {
    var n := |t|;
    var k := if t[0] == '-' then 1 else 0;
    assert s[k..n] == t[k..];
    assert t[k..] == t[k..n];
    DigitsOfSlice(s, k, n);
    DigitRunOf(s, k, n);
    DigitsAtSlice(s, k, n);
    DigitsAtSlice(t, k, n);
  }

  /** Signed digit text, then anything free of '/' that does not go on with
      a digit, then a '/': the year is read and the '/' is the first one. */
  lemma YearSlashAt(s: string, t: string, p: nat)
    requires SignedDigits(t) && |t| <= p < |s| && s[..|t|] == t && s[p] == '/'
    requires |t| == p || !IsDigit(s[|t|])
    requires forall k :: |t| <= k < p ==> s[k] != '/'
    ensures LeadsWithNumber(s) && LeadingNumber(s) == SignedValue(t)
    ensures Find(s, '/', 0) == Some(p)
  {
    LeadingYear(s, t);
    SignedDigitsNoSlash(t);
    forall k | 0 <= k < |t|
      ensures s[k] != '/'
    {
      assert s[k] == t[k];
    }
  }

  /** Signed digit text, then '/'-free text that does not go on with a
      digit, then '/' and the rest: the year is read and the rest follows
      the first '/'. */
  lemma YearJunkSlash(t: string, junk: string, rest: string)
    requires SignedDigits(t)
    requires forall k :: 0 <= k < |junk| ==> junk[k] != '/'
    requires junk == [] || !IsDigit(junk[0])
    ensures var s := t + (junk + ("/" + rest));
      && LeadsWithNumber(s) && LeadingNumber(s) == SignedValue(t)
      && Find(s, '/', 0) == Some(|t| + |junk|)
      && s[|t| + |junk| + 1..] == rest
  {
    var s := t + (junk + ("/" + rest));
    var n, p := |t|, |t| + |junk|;
    assert s[..n] == t && s[p] == '/' && s[p + 1..] == rest;
    assert n < p ==> s[n] == junk[0];
    assert forall k :: n <= k < p ==> s[k] == junk[k - n];
    YearSlashAt(s, t, p);
  }

  /** A year and a month in a canonical text: the year, '/', the month's abbreviation. */
  function YearMonthText(ym: YearMonth): string {
    IntText(ym.year) + ("/" + MonthName(ym.month))
  }

  /** Year digits, '/', and three characters other than NUL, found in place. */
  lemma YearMonthTextAt(s: string, t: string, name: string)
    requires SignedDigits(t) && |name| == 3 && name[0] != '\0' && name[1] != '\0' && name[2] != '\0'
    requires |t| + 4 <= |s| && s[..|t|] == t && s[|t|] == '/' && s[|t| + 1..|t| + 4] == name
    ensures YearMonthLayout(s) && MonthPart(s) == name && LeadingNumber(s) == SignedValue(t)
  {
    LeadingYear(s, t);
    var n := |t|;
    assert s[n + 1] == name[0] && s[n + 2] == name[1] && s[n + 3] == name[2];
  }

  /** Year digits, '/', and three characters other than NUL, then anything:
      the year and the month name those three characters spell. */
  lemma YearMonthNameReads(t: string, name: string, tail: string)
    requires SignedDigits(t) && |name| == 3 && name[0] != '\0' && name[1] != '\0' && name[2] != '\0'
    ensures var s := t + ("/" + (name + tail));
      YearMonthLayout(s) && MonthPart(s) == name && LeadingNumber(s) == SignedValue(t)
  {
    var s := t + ("/" + (name + tail));
    var n := |t|;
    assert s[..n] == t && s[n] == '/';
    assert s[n + 1..n + 4] == name;
    YearMonthTextAt(s, t, name);
  }

  /** A year's digits, '/', and a month's abbreviation read back as that
      year and month, whatever follows; the year may carry leading zeros. */
  lemma YearMonthReads(t: string, m: Month, tail: string)
    requires SignedDigits(t)
    ensures ParseYearMonth(t + ("/" + (MonthName(m) + tail))) == Ok(YearMonth(SignedValue(t), m))
  {
    var name := MonthName(m);
    assert name[0] != '\0' && name[1] != '\0' && name[2] != '\0';
    YearMonthNameReads(t, name, tail);
    ParseMonthName(m, []);
    assert name + [] == name;
  }

  /** An unknown month name is a value error that quotes only the three
      characters read as the name, not the whole text. */
  lemma YearMonthUnknownName(t: string, name: string, tail: string)
    requires SignedDigits(t) && |name| == 3 && name[1] != '\0' && name[2] != '\0'
    requires name[0] !in "JFMASOND\0"
    ensures ParseYearMonth(t + ("/" + (name + tail))) == Err(Error(ValueError, MonthShape, name))
  {
    YearMonthNameReads(t, name, tail);
  }

  /** `parse_year_month` reads back that canonical text. */
  lemma YearMonthRoundTrip(ym: YearMonth)
    ensures ParseYearMonth(YearMonthText(ym)) == Ok(ym)
  {
    IntTextSigned(ym.year);
    YearMonthReads(IntText(ym.year), ym.month, []);
    assert MonthName(ym.month) + [] == MonthName(ym.month);
  }

  /** A date as ISO 8601 writes it without padding: year, '-', month, '-', day. */
  function YearMonthDayText(ymd: YearMonthDay): string {
    IntText(ymd.year) + ("-" + (NatText(ymd.month) + ("-" + NatText(ymd.day))))
  }

  /** A number, '-', a run of digits, '-' and another run of digits, located
      in place, are what `%d-%u-%u` stores. */
  lemma DateFieldsAt(s: string, n: nat, a: nat, e: nat, y: int, m: nat, d: nat)
    requires LeadsWithNumber(s) && NumberLength(SignedInt, s, 0) == n
    requires n + 1 < a && a + 1 < e <= |s| && s[n] == '-' && s[a] == '-'
    requires DigitRun(s, n + 1) == a - n - 1 && DigitRun(s, a + 1) == e - a - 1
    requires LeadingNumber(s) == y && DigitsAt(s, n + 1, a) == m && DigitsAt(s, a + 1, e) == d
    ensures ParseYearMonthDay(s) == Ok(YearMonthDay(y, m, d))
  {
    assert MonthNumberEnd(s) == a;
    assert IsDigit(s[n + 1]) && IsDigit(s[a + 1]);
    assert YearMonthDayLayout(s);
  }

  /** Digit text `d` at `s[i..]`, not followed by a digit, is a run of that length and value. */
  lemma DigitTextRun(s: string, i: nat, d: string)
    requires |d| > 0 && AllDigits(d) && i + |d| <= |s| && s[i..i + |d|] == d
    requires i + |d| == |s| || !IsDigit(s[i + |d|])
    ensures DigitRun(s, i) == |d| && DigitsAt(s, i, i + |d|) == DigitsValue(d)
  {
    DigitsAtText(s, i, d);
    DigitRunOf(s, i, i + |d|);
  }

  /** The year of year digits, '-', month digits, '-', day digits and a tail. */
  lemma DateYear(s: string, t: string, tm: string, td: string, tail: string, n: nat)
    requires SignedDigits(t)
    requires s == t + ("-" + (tm + ("-" + (td + tail)))) && n == |t|
    ensures n < |s| && s[n] == '-'
    ensures LeadsWithNumber(s) && NumberLength(SignedInt, s, 0) == n && LeadingNumber(s) == SignedValue(t)
  {
    assert s[..n] == t;
    LeadingYear(s, t);
  }

  /** The month of year digits, '-', month digits, '-', day digits and a tail. */
  lemma DateMonth(s: string, t: string, tm: string, td: string, tail: string, n: nat, a: nat)
    requires |tm| > 0 && AllDigits(tm)
    requires s == t + ("-" + (tm + ("-" + (td + tail)))) && n == |t| && a == n + 1 + |tm|
    ensures n + 1 < a < |s| && s[a] == '-'
    ensures DigitRun(s, n + 1) == a - n - 1 && DigitsAt(s, n + 1, a) == DigitsValue(tm)
  {
    assert s[n + 1..a] == tm && s[a] == '-';
    DigitTextRun(s, n + 1, tm);
  }

  /** The day of year digits, '-', month digits, '-', day digits and a tail
      that does not go on with a digit. */
  lemma DateDay(s: string, t: string, tm: string, td: string, tail: string, a: nat, e: nat)
    requires |td| > 0 && AllDigits(td)
    requires tail == [] || !IsDigit(tail[0])
    requires s == t + ("-" + (tm + ("-" + (td + tail)))) && a == |t| + 1 + |tm| && e == a + 1 + |td|
    ensures a + 1 < e <= |s|
    ensures DigitRun(s, a + 1) == e - a - 1 && DigitsAt(s, a + 1, e) == DigitsValue(td)
  {
    assert s[a + 1..e] == td;
    assert e < |s| ==> s[e] == tail[0];
    DigitTextRun(s, a + 1, td);
  }

  /** Year, '-', month digits, '-', day digits, then anything that does not
      go on with a digit, read as that date; any of the three may carry
      leading zeros. */
  lemma YearMonthDayReads(t: string, tm: string, td: string, tail: string)
    requires SignedDigits(t)
    requires |tm| > 0 && AllDigits(tm) && |td| > 0 && AllDigits(td)
    requires tail == [] || !IsDigit(tail[0])
    ensures ParseYearMonthDay(t + ("-" + (tm + ("-" + (td + tail)))))
            == Ok(YearMonthDay(SignedValue(t), DigitsValue(tm), DigitsValue(td)))
  {
    var s := t + ("-" + (tm + ("-" + (td + tail))));
    var n := |t|;
    var a := n + 1 + |tm|;
    var e := a + 1 + |td|;
    DateYear(s, t, tm, td, tail, n);
    DateMonth(s, t, tm, td, tail, n, a);
    DateDay(s, t, tm, td, tail, a, e);
    DateFieldsAt(s, n, a, e, SignedValue(t), DigitsValue(tm), DigitsValue(td));
  }

  /** `parse_year_month_day` reads back the unpadded ISO text of a date. */
  lemma YearMonthDayRoundTrip(ymd: YearMonthDay)
    ensures ParseYearMonthDay(YearMonthDayText(ymd)) == Ok(ymd)
  {
    IntTextSigned(ymd.year);
    YearMonthDayReads(IntText(ymd.year), NatText(ymd.month), NatText(ymd.day), []);
    assert NatText(ymd.day) + [] == NatText(ymd.day);
  }

  /** Neither the month nor the day is range-checked: month 13 and day 40 are read as they are. */
  lemma MonthAndDayNotChecked()
    ensures ParseYearMonthDay("1-13-40") == Ok(YearMonthDay(1, 13, 40))
  {
    assert DigitsValue("1") == 1 && DigitsValue("13") == 13 && DigitsValue("40") == 40;
    assert SignedValue("1") == 1;
    YearMonthDayReads("1", "13", "40", []);
    assert "1" + ("-" + ("13" + ("-" + ("40" + [])))) == "1-13-40";
  }

  /** Once the year is read and the first '/' found, the text after it decides the rest. */
  lemma YearMonthDayLastAt(s: string, p: nat, rest: string, y: int, v: MonthDayLast)
    requires LeadsWithNumber(s) && LeadingNumber(s) == y && Find(s, '/', 0) == Some(p)
    requires p + 1 <= |s| && s[p + 1..] == rest && ParseMonthDayLast(rest) == Ok(v)
    ensures ParseYearMonthDayLast(s) == Ok(YearMonthDayLast(y, v))
  {
  }

  /** The text after the first '/' decides the month and day, whatever '/'-free
      text that does not go on with a digit lies between the year and that
      '/': the year's digits need not reach it. */
  lemma YearMonthDayLastAfterSlash(t: string, junk: string, rest: string, v: MonthDayLast)
    requires SignedDigits(t)
    requires forall k :: 0 <= k < |junk| ==> junk[k] != '/'
    requires junk == [] || !IsDigit(junk[0])
    requires ParseMonthDayLast(rest) == Ok(v)
    ensures ParseYearMonthDayLast(t + (junk + ("/" + rest))) == Ok(YearMonthDayLast(SignedValue(t), v))
  {
    var s := t + (junk + ("/" + rest));
    YearJunkSlash(t, junk, rest);
    YearMonthDayLastAt(s, |t| + |junk|, rest, SignedValue(t), v);
  }

  /** A year and the last day of a month in a canonical text. */
  function YearMonthDayLastText(x: YearMonthDayLast): string {
    IntText(x.year) + ("/" + MonthDayLastText(x.monthDayLast))
  }

  /** `parse_year_month_day_last` reads back that canonical text. */
  lemma YearMonthDayLastRoundTrip(x: YearMonthDayLast)
    ensures ParseYearMonthDayLast(YearMonthDayLastText(x)) == Ok(x)
  {
    IntTextSigned(x.year);
    MonthDayLastRoundTrip(x.monthDayLast);
    YearMonthDayLastAfterSlash(IntText(x.year), [], MonthDayLastText(x.monthDayLast), x.monthDayLast);
    assert [] + ("/" + MonthDayLastText(x.monthDayLast)) == "/" + MonthDayLastText(x.monthDayLast);
  }

  /** Once the year is read and the first '/' found, the text after it decides the rest. */
  lemma YearMonthWeekdayAt(s: string, p: nat, rest: string, y: int, v: MonthWeekday)
    requires LeadsWithNumber(s) && LeadingNumber(s) == y && Find(s, '/', 0) == Some(p)
    requires p + 1 <= |s| && s[p + 1..] == rest && ParseMonthWeekday(rest) == Ok(v)
    ensures ParseYearMonthWeekday(s) == Ok(YearMonthWeekday(y, v))
  {
  }

  /** The text after the first '/' decides the month and weekday, whatever '/'-free
      text that does not go on with a digit lies between the year and that
      '/': the year's digits need not reach it. */
  lemma YearMonthWeekdayAfterSlash(t: string, junk: string, rest: string, v: MonthWeekday)
    requires SignedDigits(t)
    requires forall k :: 0 <= k < |junk| ==> junk[k] != '/'
    requires junk == [] || !IsDigit(junk[0])
    requires ParseMonthWeekday(rest) == Ok(v)
    ensures ParseYearMonthWeekday(t + (junk + ("/" + rest))) == Ok(YearMonthWeekday(SignedValue(t), v))
  {
    var s := t + (junk + ("/" + rest));
    YearJunkSlash(t, junk, rest);
    YearMonthWeekdayAt(s, |t| + |junk|, rest, SignedValue(t), v);
  }

  /** A year and the `n`-th weekday of a month in a canonical text. */
  function YearMonthWeekdayText(x: YearMonthWeekday): string {
    IntText(x.year) + ("/" + MonthWeekdayText(x.monthWeekday))
  }

  /** `parse_year_month_weekday` reads back that canonical text. */
  lemma YearMonthWeekdayRoundTrip(x: YearMonthWeekday)
    ensures ParseYearMonthWeekday(YearMonthWeekdayText(x)) == Ok(x)
  {
    IntTextSigned(x.year);
    MonthWeekdayRoundTrip(x.monthWeekday);
    YearMonthWeekdayAfterSlash(IntText(x.year), [], MonthWeekdayText(x.monthWeekday), x.monthWeekday);
    assert [] + ("/" + MonthWeekdayText(x.monthWeekday)) == "/" + MonthWeekdayText(x.monthWeekday);
  }

  /** Once the year is read and the first '/' found, the text after it decides the rest. */
  lemma YearMonthWeekdayLastAt(s: string, p: nat, rest: string, y: int, v: MonthWeekdayLast)
    requires LeadsWithNumber(s) && LeadingNumber(s) == y && Find(s, '/', 0) == Some(p)
    requires p + 1 <= |s| && s[p + 1..] == rest && ParseMonthWeekdayLast(rest) == Ok(v)
    ensures ParseYearMonthWeekdayLast(s) == Ok(YearMonthWeekdayLast(y, v))
  {
  }

  /** The text after the first '/' decides the month and last weekday, whatever '/'-free
      text that does not go on with a digit lies between the year and that
      '/': the year's digits need not reach it. */
  lemma YearMonthWeekdayLastAfterSlash(t: string, junk: string, rest: string, v: MonthWeekdayLast)
    requires SignedDigits(t)
    requires forall k :: 0 <= k < |junk| ==> junk[k] != '/'
    requires junk == [] || !IsDigit(junk[0])
    requires ParseMonthWeekdayLast(rest) == Ok(v)
    ensures ParseYearMonthWeekdayLast(t + (junk + ("/" + rest))) == Ok(YearMonthWeekdayLast(SignedValue(t), v))
  {
    var s := t + (junk + ("/" + rest));
    YearJunkSlash(t, junk, rest);
    YearMonthWeekdayLastAt(s, |t| + |junk|, rest, SignedValue(t), v);
  }

  /** A year and the last weekday of a month in a canonical text. */
  function YearMonthWeekdayLastText(x: YearMonthWeekdayLast): string {
    IntText(x.year) + ("/" + MonthWeekdayLastText(x.monthWeekdayLast))
  }

  /** `parse_year_month_weekday_last` reads back that canonical text. */
  lemma YearMonthWeekdayLastRoundTrip(x: YearMonthWeekdayLast)
    ensures ParseYearMonthWeekdayLast(YearMonthWeekdayLastText(x)) == Ok(x)
  {
    IntTextSigned(x.year);
    MonthWeekdayLastRoundTrip(x.monthWeekdayLast);
    YearMonthWeekdayLastAfterSlash(IntText(x.year), [], MonthWeekdayLastText(x.monthWeekdayLast), x.monthWeekdayLast);
    assert [] + ("/" + MonthWeekdayLastText(x.monthWeekdayLast)) == "/" + MonthWeekdayLastText(x.monthWeekdayLast);
  }
}
