/** Calendar literals without a year: `Mon[2]`, `Mon[last]`, `Jan/15`,
    `Jan/last`, `Jan/Mon[2]` and `Jan/Mon[last]`.  Each parser checks the
    length and the separators of its text (a format error), reads the number
    it needs with `sscanf` (a value error when none is there) and hands the
    names to `parse_weekday` and `parse_month`, whose errors pass through. */
module PartialDates {
  import opened Errors
  import opened Scanf
  import opened Names

  /** The `n`-th given weekday of a month (`weekday[n]`). */
  datatype WeekdayIndexed = WeekdayIndexed(weekday: Weekday, index: nat)

  /** The last given weekday of a month (`weekday[last]`). */
  datatype WeekdayLast = WeekdayLast(weekday: Weekday)

  /** A day of a month, the day not range-checked. */
  datatype MonthDay = MonthDay(month: Month, day: nat)

  /** The last day of a month. */
  datatype MonthDayLast = MonthDayLast(month: Month)

  /** The `n`-th given weekday of a month. */
  datatype MonthWeekday = MonthWeekday(month: Month, weekdayIndexed: WeekdayIndexed)

  /** The last given weekday of a month. */
  datatype MonthWeekdayLast = MonthWeekdayLast(month: Month, weekdayLast: WeekdayLast)

  /** `[%u]`: a '[', an unsigned number and a ']' that no count depends on. */
  function IndexFormat(): Format {
    Lit('[', Conv(UnsignedInt, Lit(']', End)))
  }

  /** `/%u`: a '/' and an unsigned number. */
  function DayFormat(): Format {
    Lit('/', Conv(UnsignedInt, End))
  }

  /** The number `%u` reads from `s[i..]`: the value of the longest digit
      text starting there, and zero when no digit starts there. */
  function UnsignedAt(s: string, i: nat): (r: nat)
    requires i <= |s|
    ensures r == DigitsValue(s[i..i + DigitRun(s, i)])
    ensures i == |s| || !IsDigit(s[i]) ==> r == 0
  {
    DigitsAtSlice(s, i, i + DigitRun(s, i));
    DigitsAt(s, i, i + DigitRun(s, i))
  }

  /** What `sscanf(s.data() + 3, fmt, &n)` does for a one-character literal
      followed by `%u`: it stores a number exactly when a digit follows the
      literal, and the number is the value of the digits there. */
  lemma ScanNumberAfter(s: string, sep: char, next: Format)
    requires |s| > 4 && s[3] == sep && sep != '\0'
    ensures var f := ScanFrom(s, 3, Lit(sep, Conv(UnsignedInt, next)));
      && (|f| > 0 <==> IsDigit(s[4]))
      && (|f| > 0 ==> f[0].Num? && f[0].start == 4 && 4 < f[0].end <= |s|
                      && Stored(s, UnsignedInt, f[0]) == UnsignedAt(s, 4))
  {
  }

  /** `parse_weekday_indexed`: at least six characters with '[' at index 3,
      else a format error; no number after the '[' is a value error; then the
      weekday name, whose errors pass through. */
  function ParseWeekdayIndexed(s: string): (r: Result<WeekdayIndexed>)
    ensures r == Err(Error(FormatError, WeekdayIndexedShape, s)) <==> |s| < 6 || s[3] != '['
    ensures |s| >= 6 && s[3] == '[' ==> (r == Err(Error(ValueError, WeekdayIndexedShape, s)) <==> !IsDigit(s[4]))
    ensures r.Ok? <==> |s| >= 6 && s[3] == '[' && IsDigit(s[4]) && ParseWeekday(s).Ok?
    ensures r.Ok? ==> ParseWeekday(s) == Ok(r.value.weekday) && r.value.index == UnsignedAt(s, 4)
    ensures r.Err? && r.error.shape != WeekdayIndexedShape ==> ParseWeekday(s) == Err(r.error)
  {
    if |s| < 6 || s[3] != '[' then Err(Error(FormatError, WeekdayIndexedShape, s))
    else
      var f := ScanFrom(s, 3, IndexFormat());
      ScanNumberAfter(s, '[', Lit(']', End));
      if |f| != 1 then Err(Error(ValueError, WeekdayIndexedShape, s))
      else
        var w :- ParseWeekday(s);
        Ok(WeekdayIndexed(w, UnsignedAt(s, 4)))
  }

  /** `parse_weekday_last`: at least nine characters with "[last]" at index
      3, else a format error; then the weekday name. */
  function ParseWeekdayLast(s: string): (r: Result<WeekdayLast>)
    ensures r == Err(Error(FormatError, WeekdayLastShape, s)) <==> |s| < 9 || s[3..9] != "[last]"
    ensures r.Ok? <==> |s| >= 9 && s[3..9] == "[last]" && ParseWeekday(s).Ok?
    ensures r.Ok? ==> ParseWeekday(s) == Ok(r.value.weekday)
    ensures r.Err? && r.error.shape != WeekdayLastShape ==> ParseWeekday(s) == Err(r.error)
  {
    if |s| < 9 || s[3..9] != "[last]" then Err(Error(FormatError, WeekdayLastShape, s))
    else
      var w :- ParseWeekday(s);
      Ok(WeekdayLast(w))
  }

  /** `parse_month_day`: at least five characters with '/' at index 3, else a
      format error; no number after the '/' is a value error; then the month
      name.  The day is not range-checked. */
  function ParseMonthDay(s: string): (r: Result<MonthDay>)
    ensures r == Err(Error(FormatError, MonthDayShape, s)) <==> |s| < 5 || s[3] != '/'
    ensures |s| >= 5 && s[3] == '/' ==> (r == Err(Error(ValueError, MonthDayShape, s)) <==> !IsDigit(s[4]))
    ensures r.Ok? <==> |s| >= 5 && s[3] == '/' && IsDigit(s[4]) && ParseMonth(s).Ok?
    ensures r.Ok? ==> ParseMonth(s) == Ok(r.value.month) && r.value.day == UnsignedAt(s, 4)
    ensures r.Err? && r.error.shape != MonthDayShape ==> ParseMonth(s) == Err(r.error)
  {
    if |s| < 5 || s[3] != '/' then Err(Error(FormatError, MonthDayShape, s))
    else
      var f := ScanFrom(s, 3, DayFormat());
      ScanNumberAfter(s, '/', End);
      if |f| != 1 then Err(Error(ValueError, MonthDayShape, s))
      else
        var m :- ParseMonth(s);
        Ok(MonthDay(m, UnsignedAt(s, 4)))
  }

  /** `parse_month_day_last`: at least eight characters with "/last" at index
      3, else a format error; then the month name. */
  function ParseMonthDayLast(s: string): (r: Result<MonthDayLast>)
    ensures r == Err(Error(FormatError, MonthDayLastShape, s)) <==> |s| < 8 || s[3..8] != "/last"
    ensures r.Ok? <==> |s| >= 8 && s[3..8] == "/last" && ParseMonth(s).Ok?
    ensures r.Ok? ==> ParseMonth(s) == Ok(r.value.month)
    ensures r.Err? && r.error.shape != MonthDayLastShape ==> ParseMonth(s) == Err(r.error)
  {
    if |s| < 8 || s[3..8] != "/last" then Err(Error(FormatError, MonthDayLastShape, s))
    else
      var m :- ParseMonth(s);
      Ok(MonthDayLast(m))
  }

  /** `parse_month_weekday`: at least ten characters with '/' at index 3 and
      '[' at index 7, else a format error; then the month name and the
      `weekday[index]` text after the '/'.  Which of the two C++ evaluates
      first is unspecified; the month is taken first here. */
  function ParseMonthWeekday(s: string): (r: Result<MonthWeekday>)
    ensures r == Err(Error(FormatError, MonthWeekdayShape, s)) <==> |s| < 10 || s[3] != '/' || s[7] != '['
    ensures r.Ok? <==> |s| >= 10 && s[3] == '/' && s[7] == '[' && ParseMonth(s).Ok? && ParseWeekdayIndexed(s[4..]).Ok?
    ensures r.Ok? ==> ParseMonth(s) == Ok(r.value.month) && ParseWeekdayIndexed(s[4..]) == Ok(r.value.weekdayIndexed)
    ensures r.Err? && r.error.shape == MonthShape ==> ParseMonth(s) == Err(r.error)
    ensures r.Err? && r.error.shape !in {MonthShape, MonthWeekdayShape} ==> ParseWeekdayIndexed(s[4..]) == Err(r.error)
    ensures r.Err? && r.error.shape == WeekdayIndexedShape ==> r.error.kind == ValueError
  {
    if |s| < 10 || s[3] != '/' || s[7] != '[' then Err(Error(FormatError, MonthWeekdayShape, s))
    else
      var m :- ParseMonth(s);
      var wi :- ParseWeekdayIndexed(s[4..]);
      Ok(MonthWeekday(m, wi))
  }

  /** `parse_month_weekday_last`: at least thirteen characters with '/' at
      index 3 and "[last]" at index 7, else a format error; then the month
      name and the three characters after the '/' as a weekday name. */
  function ParseMonthWeekdayLast(s: string): (r: Result<MonthWeekdayLast>)
    ensures r == Err(Error(FormatError, MonthWeekdayLastShape, s)) <==> |s| < 13 || s[3] != '/' || s[7..13] != "[last]"
    ensures r.Ok? <==> |s| >= 13 && s[3] == '/' && s[7..13] == "[last]" && ParseMonth(s).Ok? && ParseWeekday(s[4..7]).Ok?
    ensures r.Ok? ==> ParseMonth(s) == Ok(r.value.month) && ParseWeekday(s[4..7]) == Ok(r.value.weekdayLast.weekday)
    ensures r.Err? && r.error.shape == MonthShape ==> ParseMonth(s) == Err(r.error)
    ensures r.Err? && r.error.shape !in {MonthShape, MonthWeekdayLastShape} ==> ParseWeekday(s[4..7]) == Err(r.error)
  {
    if |s| < 13 || s[3] != '/' || s[7..13] != "[last]" then Err(Error(FormatError, MonthWeekdayLastShape, s))
    else
      var m :- ParseMonth(s);
      var w :- ParseWeekday(s[4..7]);
      Ok(MonthWeekdayLast(m, WeekdayLast(w)))
  }

  /** A canonical `weekday[index]` text: "Mon[2]". */
  function WeekdayIndexedText(wi: WeekdayIndexed): string {
    WeekdayName(wi.weekday) + ("[" + (NatText(wi.index) + "]"))
  }

  /** A canonical `weekday[last]` text: "Mon[last]". */
  function WeekdayLastText(wl: WeekdayLast): string {
    WeekdayName(wl.weekday) + "[last]"
  }

  /** `month/day` as "Jan/15". */
  function MonthDayText(md: MonthDay): string {
    MonthName(md.month) + ("/" + NatText(md.day))
  }

  /** `month/last` as "Jan/last". */
  function MonthDayLastText(ml: MonthDayLast): string {
    MonthName(ml.month) + "/last"
  }

  /** `month/weekday[index]` as "Jan/Mon[2]". */
  function MonthWeekdayText(mw: MonthWeekday): string {
    MonthName(mw.month) + ("/" + WeekdayIndexedText(mw.weekdayIndexed))
  }

  /** `month/weekday[last]` as "Jan/Mon[last]". */
  function MonthWeekdayLastText(ml: MonthWeekdayLast): string {
    MonthName(ml.month) + ("/" + WeekdayLastText(ml.weekdayLast))
  }

  /** Where the pieces of a three-letter name, a separator, digits and a tail sit. */
  lemma NameSepDigits(name: string, sep: char, t: string, tail: string)
    requires |name| == 3
    requires tail == [] || !IsDigit(tail[0])
    ensures var s := name + ([sep] + (t + tail));
      && |s| == 4 + |t| + |tail| && s[..3] == name && s[3] == sep && s[4..4 + |t|] == t
      && (4 + |t| == |s| || !IsDigit(s[4 + |t|]))
  {
    var s := name + ([sep] + (t + tail));
    assert 4 + |t| < |s| ==> s[4 + |t|] == tail[0];
  }

  /** Text made of a weekday name, a '[' and digits `t`, followed by
      nothing that continues the digits, reads as that weekday indexed by `t`. */
  lemma WeekdayIndexedAt(s: string, w: Weekday, t: string)
    requires |s| >= 6 && s[..3] == WeekdayName(w) && s[3] == '['
    requires |t| > 0 && AllDigits(t) && 4 + |t| <= |s| && s[4..4 + |t|] == t
    requires 4 + |t| == |s| || !IsDigit(s[4 + |t|])
    ensures ParseWeekdayIndexed(s) == Ok(WeekdayIndexed(w, DigitsValue(t)))
  {
    assert s == WeekdayName(w) + s[3..];
    ParseWeekdayName(w, s[3..]);
    DigitsAtText(s, 4, t);
    DigitRunOf(s, 4, 4 + |t|);
  }

  /** A weekday name, '[', digits and anything that does not continue the
      digits reads as that weekday indexed by the digits: the ']' is never
      checked. */
  lemma WeekdayIndexedReads(w: Weekday, t: string, tail: string)
    requires |t| > 0 && AllDigits(t) && |t| + |tail| >= 2
    requires tail == [] || !IsDigit(tail[0])
    ensures ParseWeekdayIndexed(WeekdayName(w) + ("[" + (t + tail))) == Ok(WeekdayIndexed(w, DigitsValue(t)))
  {
    NameSepDigits(WeekdayName(w), '[', t, tail);
    WeekdayIndexedAt(WeekdayName(w) + ("[" + (t + tail)), w, t);
  }

  lemma WeekdayIndexedRoundTrip(wi: WeekdayIndexed)
    ensures ParseWeekdayIndexed(WeekdayIndexedText(wi)) == Ok(wi)
  {
    WeekdayIndexedReads(wi.weekday, NatText(wi.index), "]");
  }

  /** The closing ']' is never looked at, while the length check counts it:
      "Mon[12" reads as the twelfth Monday, "Mon[1" is a format error. */
  lemma ClosingBracketUnchecked()
    ensures ParseWeekdayIndexed("Mon[12") == Ok(WeekdayIndexed(Monday, 12))
    ensures ParseWeekdayIndexed("Mon[1") == Err(Error(FormatError, WeekdayIndexedShape, "Mon[1"))
  {
    assert DigitsValue("12") == 12;
    assert WeekdayName(Monday) + ("[" + ("12" + "")) == "Mon[12";
    WeekdayIndexedReads(Monday, "12", "");
  }

  /** A weekday name followed by "[last]" and anything reads as that weekday's
      last occurrence. */
  lemma WeekdayLastReads(w: Weekday, tail: string)
    ensures ParseWeekdayLast(WeekdayName(w) + ("[last]" + tail)) == Ok(WeekdayLast(w))
  {
    var s := WeekdayName(w) + ("[last]" + tail);
    assert s[3..9] == "[last]";
    ParseWeekdayName(w, "[last]" + tail);
  }

  lemma WeekdayLastRoundTrip(wl: WeekdayLast)
    ensures ParseWeekdayLast(WeekdayLastText(wl)) == Ok(wl)
  {
    WeekdayLastReads(wl.weekday, "");
    assert "[last]" + "" == "[last]";
  }

  /** Text made of a month name, a '/' and digits `t`, followed by nothing
      that continues the digits, reads as that month and day `t`. */
  lemma MonthDayAt(s: string, m: Month, t: string)
    requires |s| >= 5 && s[..3] == MonthName(m) && s[3] == '/'
    requires |t| > 0 && AllDigits(t) && 4 + |t| <= |s| && s[4..4 + |t|] == t
    requires 4 + |t| == |s| || !IsDigit(s[4 + |t|])
    ensures ParseMonthDay(s) == Ok(MonthDay(m, DigitsValue(t)))
  {
    assert s == MonthName(m) + s[3..];
    ParseMonthName(m, s[3..]);
    DigitsAtText(s, 4, t);
    DigitRunOf(s, 4, 4 + |t|);
  }

  /** A month name, '/', digits and anything that does not continue the
      digits reads as that month and day; the day is not range-checked. */
  lemma MonthDayReads(m: Month, t: string, tail: string)
    requires |t| > 0 && AllDigits(t)
    requires tail == [] || !IsDigit(tail[0])
    ensures ParseMonthDay(MonthName(m) + ("/" + (t + tail))) == Ok(MonthDay(m, DigitsValue(t)))
  {
    NameSepDigits(MonthName(m), '/', t, tail);
    MonthDayAt(MonthName(m) + ("/" + (t + tail)), m, t);
  }

  lemma MonthDayRoundTrip(md: MonthDay)
    ensures ParseMonthDay(MonthDayText(md)) == Ok(md)
  {
    MonthDayReads(md.month, NatText(md.day), "");
    assert NatText(md.day) + "" == NatText(md.day);
  }

  /** No day range is checked: "Feb/31" reads as February 31. */
  lemma DayNotChecked()
    ensures ParseMonthDay("Feb/31") == Ok(MonthDay(February, 31))
  {
    assert DigitsValue("31") == 31;
    assert MonthName(February) + ("/" + ("31" + "")) == "Feb/31";
    MonthDayReads(February, "31", "");
  }

  /** A month name followed by "/last" and anything reads as that month's
      last day. */
  lemma MonthDayLastReads(m: Month, tail: string)
    ensures ParseMonthDayLast(MonthName(m) + ("/last" + tail)) == Ok(MonthDayLast(m))
  {
    var s := MonthName(m) + ("/last" + tail);
    assert s[3..8] == "/last";
    ParseMonthName(m, "/last" + tail);
  }

  lemma MonthDayLastRoundTrip(ml: MonthDayLast)
    ensures ParseMonthDayLast(MonthDayLastText(ml)) == Ok(ml)
  {
    MonthDayLastReads(ml.month, "");
    assert "/last" + "" == "/last";
  }

  /** A month name, '/' and `weekday[index]` text reads as that month and
      indexed weekday. */
  lemma MonthWeekdayReads(m: Month, w: Weekday, t: string, tail: string)
    requires |t| > 0 && AllDigits(t) && |t| + |tail| >= 2
    requires tail == [] || !IsDigit(tail[0])
    ensures ParseMonthWeekday(MonthName(m) + ("/" + (WeekdayName(w) + ("[" + (t + tail)))))
      == Ok(MonthWeekday(m, WeekdayIndexed(w, DigitsValue(t))))
  {
    var rest := WeekdayName(w) + ("[" + (t + tail));
    var s := MonthName(m) + ("/" + rest);
    assert s[4..] == rest;
    assert s[3] == '/' && s[7] == rest[3];
    ParseMonthName(m, "/" + rest);
    WeekdayIndexedReads(w, t, tail);
  }

  /** The outer shape check implies the inner one: once `s` passes the
      `month/weekday[index]` check, the text after the '/' passes the
      `weekday[index]` check, so only the index scan or a name can still fail. */
  lemma MonthWeekdayShapeDelegates(s: string)
    requires |s| >= 10 && s[3] == '/' && s[7] == '['
    ensures |s[4..]| >= 6 && s[4..][3] == '['
    ensures ParseWeekdayIndexed(s[4..]).Err? ==> ParseWeekdayIndexed(s[4..]).error.kind == ValueError
  {
  }

  lemma MonthWeekdayRoundTrip(mw: MonthWeekday)
    ensures ParseMonthWeekday(MonthWeekdayText(mw)) == Ok(mw)
  {
    var wi := mw.weekdayIndexed;
    MonthWeekdayReads(mw.month, wi.weekday, NatText(wi.index), "]");
  }

  /** A month name, '/', a weekday name and "[last]" reads as that month and
      weekday's last occurrence. */
  lemma MonthWeekdayLastReads(m: Month, w: Weekday, tail: string)
    ensures ParseMonthWeekdayLast(MonthName(m) + ("/" + (WeekdayName(w) + ("[last]" + tail))))
      == Ok(MonthWeekdayLast(m, WeekdayLast(w)))
  {
    var s := MonthName(m) + ("/" + (WeekdayName(w) + ("[last]" + tail)));
    assert s[4..7] == WeekdayName(w) + "";
    assert s[7..13] == "[last]";
    ParseMonthName(m, "/" + (WeekdayName(w) + ("[last]" + tail)));
    ParseWeekdayName(w, "");
  }

  lemma MonthWeekdayLastRoundTrip(ml: MonthWeekdayLast)
    ensures ParseMonthWeekdayLast(MonthWeekdayLastText(ml)) == Ok(ml)
  {
    MonthWeekdayLastReads(ml.month, ml.weekdayLast.weekday, "");
    assert "[last]" + "" == "[last]";
  }
}
