/** The duration text codec: a signed span of milliseconds to and from
    `[-]HH:MM:SS.mmm`. */
module Duration {
  import opened Errors
  import opened Scanf

  const MillisPerSecond: nat := 1000
  const MillisPerMinute: nat := 60000
  const MillisPerHour: nat := 3600000

  function Abs(d: int): nat {
    if d < 0 then -d else d
  }

  /** A non-negative span broken into clock fields. */
  datatype Clock = Clock(hours: nat, minutes: nat, seconds: nat, millis: nat)

  /** Fields below their carry limits: the decomposition `format` prints. */
  predicate Normal(c: Clock) {
    c.minutes < 60 && c.seconds < 60 && c.millis < 1000
  }

  function TotalMillis(c: Clock): nat {
    c.hours * MillisPerHour + c.minutes * MillisPerMinute + c.seconds * MillisPerSecond + c.millis
  }

  /** The `duration_cast` chain of `format`: whole hours, then whole minutes
      of what is left, then whole seconds, then the remaining milliseconds. */
  function Split(magnitude: nat): (c: Clock)
    ensures Normal(c) && TotalMillis(c) == magnitude
  {
    var h := magnitude / MillisPerHour;
    var m := (magnitude - h * MillisPerHour) / MillisPerMinute;
    var s := (magnitude - h * MillisPerHour - m * MillisPerMinute) / MillisPerSecond;
    Clock(h, m, s, magnitude - h * MillisPerHour - m * MillisPerMinute - s * MillisPerSecond)
  }

  /** A normal clock is the only decomposition `Split` can give for its total. */
  lemma SplitTotal(c: Clock)
    requires Normal(c)
    ensures Split(TotalMillis(c)) == c
  {
    var rest := c.minutes * MillisPerMinute + c.seconds * MillisPerSecond + c.millis;
    assert rest < MillisPerHour;
    assert TotalMillis(c) / MillisPerHour == c.hours;
    var rest2 := c.seconds * MillisPerSecond + c.millis;
    assert rest2 < MillisPerMinute;
    assert rest / MillisPerMinute == c.minutes;
    assert rest2 / MillisPerSecond == c.seconds;
  }

  /** Decimal text of `x` left-padded with '0' to `width` characters. */
  function Padded(x: nat, width: nat): (r: string)
    ensures |r| > 0 && AllDigits(r) && DigitsValue(r) == x
    ensures x < 100 && width == 2 ==> |r| == 2
    ensures x < 1000 && width == 3 ==> |r| == 3
    ensures width <= |r|
  {
    var t := NatText(x);
    assert x < 1000 ==> |t| <= 3 && (x < 100 ==> |t| <= 2) by {
      if x < 1000 {
        NatTextShort(x);
      }
    }
    ZeroPad(t, width)
  }

  lemma NatTextShort(n: nat)
    requires n < 1000
    ensures |NatText(n)| <= 3
    ensures n < 100 ==> |NatText(n)| <= 2
  {
    if n >= 10 {
      assert |NatText(n)| == |NatText(n / 10)| + 1;
      if n / 10 >= 10 {
        assert |NatText(n / 10)| == |NatText(n / 100)| + 1;
      }
    }
  }

  /** Text of a clock: hours in at least two digits, then `:MM:SS.mmm`. */
  function ClockText(c: Clock): (r: string)
    ensures |r| >= 12 && IsDigit(r[0])
  {
    var hh := Padded(c.hours, 2);
    var rest := ":" + (Padded(c.minutes, 2) + (":" + (Padded(c.seconds, 2) + ("." + Padded(c.millis, 3)))));
    assert (hh + rest)[0] == hh[0];
    hh + rest
  }

  /** `format(duration)`: a '-' exactly for a negative span, then the clock
      text of its magnitude. */
  function FormatDuration(d: int): (r: string)
    ensures |r| >= 12 && (r[0] == '-' <==> d < 0)
  {
    var body := ClockText(Split(Abs(d)));
    if d < 0 then "-" + body else body
  }

  /** Where the pieces of `sign hh:mm:ss.mmm` sit: the hour after the sign,
      the other fields counted from the end. */
  lemma PiecesAt(sign: string, hh: string, mm: string, ss: string, ms: string)
    requires |mm| == 2 && |ss| == 2 && |ms| == 3
    ensures var t := sign + (hh + (":" + (mm + (":" + (ss + ("." + ms))))));
      var k, n := |sign|, |t|;
      && n == k + |hh| + 10
      && t[k..n - 10] == hh && t[n - 10] == ':' && t[n - 9..n - 7] == mm
      && t[n - 7] == ':' && t[n - 6..n - 4] == ss && t[n - 4] == '.' && t[n - 3..n] == ms
  {
  }

  /** `s[k..]` reads as `[-]H:M:S.m`: an hour field `s[k..a]` that may carry a
      '-', then minutes `s[a + 1..b]`, seconds `s[b + 1..c]` and milliseconds
      `s[c + 1..e]`, each a non-empty run of digits, separated by ':', ':' and
      '.', and nothing after them that continues the last run. */
  predicate ClockLayout(s: string, k: nat, a: nat, b: nat, c: nat, e: nat) {
    && k < a < b < c < e <= |s|
    && (DigitsBetween(s, k, a) || (s[k] == '-' && k + 1 < a && DigitsBetween(s, k + 1, a)))
    && s[a] == ':' && a + 1 < b && DigitsBetween(s, a + 1, b)
    && s[b] == ':' && b + 1 < c && DigitsBetween(s, b + 1, c)
    && s[c] == '.' && c + 1 < e && DigitsBetween(s, c + 1, e)
    && (e == |s| || !IsDigit(s[e]))
  }

  /** Digit pieces joined as `sign hh:mm:ss.mmm` have the clock layout. */
  lemma PiecesLayout(s: string, sign: string, hh: string, mm: string, ss: string, ms: string, k: nat, n: nat)
    requires |mm| == 2 && |ss| == 2 && |ms| == 3 && |hh| > 0
    requires AllDigits(hh) && AllDigits(mm) && AllDigits(ss) && AllDigits(ms)
    requires s == sign + (hh + (":" + (mm + (":" + (ss + ("." + ms)))))) && k == |sign| && n == |s|
    ensures n == k + |hh| + 10
    ensures ClockLayout(s, k, n - 10, n - 7, n - 4, n) && DigitsBetween(s, k, n - 10)
    ensures s[k..n - 10] == hh && s[n - 9..n - 7] == mm && s[n - 6..n - 4] == ss && s[n - 3..n] == ms
  {
    PiecesAt(sign, hh, mm, ss, ms);
    DigitsOfSlice(s, k, n - 10);
    DigitsOfSlice(s, n - 9, n - 7);
    DigitsOfSlice(s, n - 6, n - 4);
    DigitsOfSlice(s, n - 3, n);
  }

  /** A sign followed by the text of a normal clock has the clock layout,
      with the clock's fields in it. */
  lemma ClockTextLayout(s: string, sign: string, c: Clock, k: nat, n: nat)
    requires Normal(c) && s == sign + ClockText(c) && k == |sign| && n == |s|
    ensures k + 12 <= n
    ensures ClockLayout(s, k, n - 10, n - 7, n - 4, n) && DigitsBetween(s, k, n - 10)
    ensures DigitsValue(s[k..n - 10]) == c.hours
    ensures DigitsValue(s[n - 9..n - 7]) == c.minutes
    ensures DigitsValue(s[n - 6..n - 4]) == c.seconds
    ensures DigitsValue(s[n - 3..n]) == c.millis
  {
    var hh, mm := Padded(c.hours, 2), Padded(c.minutes, 2);
    var ss, ms := Padded(c.seconds, 2), Padded(c.millis, 3);
    assert s == sign + (hh + (":" + (mm + (":" + (ss + ("." + ms))))));
    PiecesLayout(s, sign, hh, mm, ss, ms, k, n);
  }

  /** The formatted text of a span has the clock layout, its sign at the front
      and the fields of the span's clock in it. */
  lemma FormatDurationLayout(d: int, k: nat, n: nat)
    requires k == (if d < 0 then 1 else 0) && n == |FormatDuration(d)|
    ensures var s, c := FormatDuration(d), Split(Abs(d));
      && k + 12 <= n
      && ClockLayout(s, k, n - 10, n - 7, n - 4, n)
      && DigitsBetween(s, k, n - 10)
      && DigitsValue(s[k..n - 10]) == c.hours
      && DigitsValue(s[n - 9..n - 7]) == c.minutes
      && DigitsValue(s[n - 6..n - 4]) == c.seconds
      && DigitsValue(s[n - 3..n]) == c.millis
  {
    var c := Split(Abs(d));
    var sign := if d < 0 then "-" else "";
    ClockTextLayout(FormatDuration(d), sign, c, k, n);
  }

  /** The `sscanf` format of `parse_duration`, `%lld:%hhu:%hhu.%hhu`, with the
      conversion that reads the milliseconds left open. */
  function ClockFormat(millis: Conversion): Format {
    Conv(SignedInt, AfterHour(millis))
  }

  lemma ClockConversions(millis: Conversion)
    ensures Arity(ClockFormat(millis)) == 4
    ensures ConversionAt(ClockFormat(millis), 0) == SignedInt
    ensures ConversionAt(ClockFormat(millis), 1) == UnsignedByte
    ensures ConversionAt(ClockFormat(millis), 2) == UnsignedByte
    ensures ConversionAt(ClockFormat(millis), 3) == millis
  {
    var f3 := Conv(millis, End);
    var f2 := Conv(UnsignedByte, Lit('.', f3));
    var f1 := Conv(UnsignedByte, Lit(':', f2));
    assert ConversionAt(Lit('.', f3), 0) == millis;
    assert ConversionAt(Lit(':', f2), 1) == millis;
    assert ConversionAt(Lit(':', f1), 2) == millis;
  }

  /** `parse_duration` with the milliseconds read by `millis`: strip one leading
      '-', need at least the hour, minute and second fields, assemble the
      magnitude from the absolute hour and the other fields, and negate the
      whole of it when the '-' was there. */
  function ParseClock(s: string, millis: Conversion): (r: Result<int>)
    requires millis == UnsignedByte || millis == UnsignedInt
    ensures r.Err? ==> r.error == Error(FormatError, DurationShape, s)
    ensures r.Ok? <==> HmsLayout(s, if |s| > 0 && s[0] == '-' then 1 else 0)
    ensures r.Ok? && r.value < 0 ==> |s| > 0 && s[0] == '-'
    ensures r.Ok? && |s| > 0 && s[0] == '-' ==> r.value <= 0
  {
    var negative := |s| > 0 && s[0] == '-';
    var start := if negative then 1 else 0;
    var f := ScanFrom(s, start, ClockFormat(millis));
    ScanHms(s, start, millis);
    if |f| < 3 then Err(Error(FormatError, DurationShape, s))
    else
      ScanFits(s, start, ClockFormat(millis));
      ClockConversions(millis);
      var ms := if |f| == 4 then Stored(s, millis, f[3]) else 0;
      Ok(Assemble(negative, Abs(Stored(s, SignedInt, f[0])), Stored(s, UnsignedByte, f[1]),
                  Stored(s, UnsignedByte, f[2]), ms))
  }

  /** The span `parse_duration` builds from its fields: hours, minutes,
      seconds and milliseconds summed, negated when the text started with '-'. */
  function Assemble(negative: bool, h: nat, m: int, sec: int, ms: int): (r: int)
    ensures 0 <= m && 0 <= sec && 0 <= ms ==>
      && Abs(r) == h * MillisPerHour + m * MillisPerMinute + sec * MillisPerSecond + ms
      && (negative ==> r <= 0) && (!negative ==> r >= 0)
  {
    var magnitude := h * MillisPerHour + m * MillisPerMinute + sec * MillisPerSecond + ms;
    if negative then -magnitude else magnitude
  }

  /** What `%lld:%hhu:%hhu` needs to store its three values at `s[k..]`: a
      number (a '-' and digits, or digits), then `MinuteSecondAt` after it. */
  predicate HmsLayout(s: string, k: nat)
    requires k <= |s|
  {
    var n := NumberLength(SignedInt, s, k);
    n > 0 && MinuteSecondAt(s, k + n)
  }

  /** What `:%hhu:%hhu` needs at `s[j..]`: a ':' and a digit, the rest of
      that run, and another ':' and a digit. */
  predicate MinuteSecondAt(s: string, j: nat)
    requires j <= |s|
  {
    j + 1 < |s| && s[j] == ':' && IsDigit(s[j + 1])
    && var b := j + 1 + DigitRun(s, j + 1);
    b + 1 < |s| && s[b] == ':' && IsDigit(s[b + 1])
  }

  /** After the second ':', the seconds conversion stores a value exactly
      when a digit follows. */
  lemma ScanSecondsField(s: string, i: nat, millis: Conversion)
    requires i <= |s| && millis != AnyChar
    ensures |ScanFrom(s, i, Conv(UnsignedByte, Lit('.', Conv(millis, End))))| >= 1
            <==> i < |s| && IsDigit(s[i])
  {
  }

  /** From the first digit of the minutes, the minute and second
      conversions both store a value exactly when the text from the ':'
      before them has the minute and second layout. */
  lemma ScanMinuteField(s: string, j: nat, millis: Conversion)
    requires j + 1 < |s| && s[j] == ':' && IsDigit(s[j + 1]) && millis != AnyChar
    ensures |ScanFrom(s, j + 1, Conv(UnsignedByte, Lit(':', Conv(UnsignedByte, Lit('.', Conv(millis, End))))))| >= 2
            <==> MinuteSecondAt(s, j)
  {
    var f2 := Conv(UnsignedByte, Lit('.', Conv(millis, End)));
    var i, b := j + 1, j + 1 + DigitRun(s, j + 1);
    assert NumberLength(UnsignedByte, s, i) == b - i;
    ScanRunAt(s, i, b, UnsignedByte, Lit(':', f2));
    if b < |s| && s[b] == ':' {
      ScanLitAt(s, b, ':', f2);
      ScanSecondsField(s, b + 1, millis);
    }
  }

  /** After the hour, `:%hhu:%hhu` stores both its values exactly when the
      text there has the minute and second layout. */
  lemma ScanMinuteSecond(s: string, j: nat, millis: Conversion)
    requires j <= |s| && millis != AnyChar
    ensures |ScanFrom(s, j, AfterHour(millis))| >= 2 <==> MinuteSecondAt(s, j)
  {
    var f1 := Conv(UnsignedByte, Lit(':', Conv(UnsignedByte, Lit('.', Conv(millis, End)))));
    assert AfterHour(millis) == Lit(':', f1);
    if j + 1 < |s| && s[j] == ':' && IsDigit(s[j + 1]) {
      ScanLitAt(s, j, ':', f1);
      ScanMinuteField(s, j, millis);
    } else if j < |s| && s[j] == ':' {
      ScanLitAt(s, j, ':', f1);
      assert NumberLength(UnsignedByte, s, j + 1) == 0;
    }
  }

  /** The clock format stores at least its hour, minute and second values
      exactly when the text has the `h:m:s` layout. */
  lemma ScanHms(s: string, k: nat, millis: Conversion)
    requires k <= |s| && millis != AnyChar
    ensures |ScanFrom(s, k, ClockFormat(millis))| >= 3 <==> HmsLayout(s, k)
  {
    var n := NumberLength(SignedInt, s, k);
    if n > 0 {
      ScanHmsAfter(s, k, n, millis);
      HmsLayoutAfterHour(s, k, n);
    } else {
      ScanNoHour(s, k, millis);
    }
  }

  /** With a number at `s[k..k + n]`, the clock format stores its three
      values exactly when the minute and second layout follows the number. */
  lemma ScanHmsAfter(s: string, k: nat, n: nat, millis: Conversion)
    requires k + n <= |s| && n > 0 && NumberLength(SignedInt, s, k) == n && millis != AnyChar
    ensures |ScanFrom(s, k, Conv(SignedInt, AfterHour(millis)))| >= 3 <==> MinuteSecondAt(s, k + n)
  {
    ScanHourThen(s, k, n, millis);
    ScanMinuteSecond(s, k + n, millis);
  }

  /** Once the hour field is `n` characters long, the layout is decided by what follows it. */
  lemma HmsLayoutAfterHour(s: string, k: nat, n: nat)
    requires k + n <= |s| && n > 0 && NumberLength(SignedInt, s, k) == n
    ensures HmsLayout(s, k) <==> MinuteSecondAt(s, k + n)
  {
  }

  /** With a number at `s[k..k + n]`, the clock format stores the hour and
      then what `:%hhu:%hhu.…` stores after it. */
  lemma ScanHourThen(s: string, k: nat, n: nat, millis: Conversion)
    requires k + n <= |s| && n > 0 && NumberLength(SignedInt, s, k) == n
    ensures |ScanFrom(s, k, Conv(SignedInt, AfterHour(millis)))| == 1 + |ScanFrom(s, k + n, AfterHour(millis))|
  {
    ScanRunAt(s, k, k + n, SignedInt, AfterHour(millis));
  }

  /** Without a number at `s[k]`, the clock format stores nothing. */
  lemma ScanNoHour(s: string, k: nat, millis: Conversion)
    requires k <= |s| && NumberLength(SignedInt, s, k) == 0
    ensures ScanFrom(s, k, ClockFormat(millis)) == [] && !HmsLayout(s, k)
  {
  }

  /** The directives of the clock format after its hour conversion. */
  function AfterHour(millis: Conversion): Format {
    Lit(':', Conv(UnsignedByte, Lit(':', Conv(UnsignedByte, Lit('.', Conv(millis, End))))))
  }

  /** Scanning the minute, second and millisecond fields from the first digit
      of the minutes, given where each run of digits ends. */
  lemma ScanMinutesOn(s: string, a: nat, b: nat, c: nat, e: nat, millis: Conversion)
    requires a + 1 < b < c < e <= |s| && millis != AnyChar
    requires DigitRun(s, a + 1) == b - a - 1 && s[b] == ':'
    requires b + 1 < c && DigitRun(s, b + 1) == c - b - 1 && s[c] == '.'
    requires c + 1 < e && NumberLength(millis, s, c + 1) == e - c - 1
    ensures ScanFrom(s, a + 1, Conv(UnsignedByte, Lit(':', Conv(UnsignedByte, Lit('.', Conv(millis, End))))))
      == [Num(a + 1, b), Num(b + 1, c), Num(c + 1, e)]
  {
    var f3 := Conv(millis, End);
    ScanRunAt(s, c + 1, e, millis, End);
    ScanRunThen(s, b + 1, c, UnsignedByte, '.', f3);
    ScanRunThen(s, a + 1, b, UnsignedByte, ':', Conv(UnsignedByte, Lit('.', f3)));
  }

  /** Scanning the minute, second and millisecond fields of the clock layout. */
  lemma ScanAfterHour(s: string, a: nat, b: nat, c: nat, e: nat, millis: Conversion)
    requires millis != AnyChar && a < b < c < e <= |s|
    requires s[a] == ':' && a + 1 < b && DigitsBetween(s, a + 1, b)
    requires s[b] == ':' && b + 1 < c && DigitsBetween(s, b + 1, c)
    requires s[c] == '.' && c + 1 < e && DigitsBetween(s, c + 1, e)
    requires e == |s| || !IsDigit(s[e])
    ensures ScanFrom(s, a, AfterHour(millis)) == [Num(a + 1, b), Num(b + 1, c), Num(c + 1, e)]
  {
    DigitRunOf(s, a + 1, b);
    DigitRunOf(s, b + 1, c);
    NumberLengthOfDigits(millis, s, c + 1, e);
    ScanMinutesOn(s, a, b, c, e, millis);
    ScanLitAt(s, a, ':', Conv(UnsignedByte, Lit(':', Conv(UnsignedByte, Lit('.', Conv(millis, End))))));
  }

  /** Scanning text with the clock layout consumes its four fields. */
  lemma ScanClockAt(s: string, k: nat, a: nat, b: nat, c: nat, e: nat, millis: Conversion)
    requires millis != AnyChar && ClockLayout(s, k, a, b, c, e)
    ensures ScanFrom(s, k, ClockFormat(millis)) == [Num(k, a), Num(a + 1, b), Num(b + 1, c), Num(c + 1, e)]
  {
    var rest := AfterHour(millis);
    assert ClockFormat(millis) == Conv(SignedInt, rest);
    ScanAfterHour(s, a, b, c, e, millis);
    if DigitsBetween(s, k, a) {
      ScanNumberAt(s, k, a, SignedInt, rest);
    } else {
      ScanNegativeAt(s, k, a, rest);
    }
  }

  /** `s[k..]` reads as `[-]H:M:S` with no millisecond field after it: the
      hour, minute and second fields of the clock layout, then the end of the
      text, a character other than '.' or a '.' that no digit follows. */
  predicate SecondsLayout(s: string, k: nat, a: nat, b: nat, c: nat) {
    && k < a < b < c <= |s|
    && (DigitsBetween(s, k, a) || (s[k] == '-' && k + 1 < a && DigitsBetween(s, k + 1, a)))
    && s[a] == ':' && a + 1 < b && DigitsBetween(s, a + 1, b)
    && s[b] == ':' && b + 1 < c && DigitsBetween(s, b + 1, c)
    && (c == |s| || !IsDigit(s[c]))
    && (c + 1 >= |s| || s[c] != '.' || !IsDigit(s[c + 1]))
  }

  /** Scanning the minute and second fields when no millisecond field follows. */
  lemma ScanSecondsAfterHour(s: string, k: nat, a: nat, b: nat, c: nat, millis: Conversion)
    requires (millis == UnsignedByte || millis == UnsignedInt) && SecondsLayout(s, k, a, b, c)
    ensures ScanFrom(s, a, AfterHour(millis)) == [Num(a + 1, b), Num(b + 1, c)]
  {
    var f3 := Conv(millis, End);
    var f2 := Conv(UnsignedByte, Lit('.', f3));
    assert ScanFrom(s, c, Lit('.', f3)) == [];
    ScanNumberAt(s, b + 1, c, UnsignedByte, Lit('.', f3));
    assert ScanFrom(s, b + 1, f2) == [Num(b + 1, c)];
    ScanFieldAt(s, a + 1, b, UnsignedByte, ':', f2);
    ScanLitAt(s, a, ':', Conv(UnsignedByte, Lit(':', f2)));
  }

  /** Scanning text with only hour, minute and second fields stores three values. */
  lemma ScanSecondsAt(s: string, k: nat, a: nat, b: nat, c: nat, millis: Conversion)
    requires (millis == UnsignedByte || millis == UnsignedInt) && SecondsLayout(s, k, a, b, c)
    ensures ScanFrom(s, k, ClockFormat(millis)) == [Num(k, a), Num(a + 1, b), Num(b + 1, c)]
  {
    var rest := AfterHour(millis);
    assert ClockFormat(millis) == Conv(SignedInt, rest);
    ScanSecondsAfterHour(s, k, a, b, c, millis);
    if DigitsBetween(s, k, a) {
      ScanNumberAt(s, k, a, SignedInt, rest);
    } else {
      ScanNegativeAt(s, k, a, rest);
    }
  }

  /** The absolute value of the hour field `s[k..a]` of the clock layout: the
      value of its digits, whether or not a '-' leads them. */
  function HourMagnitude(s: string, k: nat, a: nat): nat
    requires k < a <= |s|
  {
    if s[k] == '-' then DigitsAt(s, k + 1, a) else DigitsAt(s, k, a)
  }

  /** `parse_duration` over text with the clock layout after its optional
      leading '-': the digits of the hour field in hours, the minutes and
      seconds as an `unsigned char` keeps them, the milliseconds as `millis`
      stores them, summed and negated when the '-' was there. */
  lemma ParseClockAt(s: string, a: nat, b: nat, c: nat, e: nat, millis: Conversion)
    requires millis == UnsignedByte || millis == UnsignedInt
    requires ClockLayout(s, if |s| > 0 && s[0] == '-' then 1 else 0, a, b, c, e)
    ensures var k := if |s| > 0 && s[0] == '-' then 1 else 0;
      ParseClock(s, millis) == Ok(Assemble(k == 1, HourMagnitude(s, k, a),
        Store(UnsignedByte, DigitsAt(s, a + 1, b)), Store(UnsignedByte, DigitsAt(s, b + 1, c)),
        Store(millis, DigitsAt(s, c + 1, e))))
  {
    var k := if |s| > 0 && s[0] == '-' then 1 else 0;
    ParseClockFields(s, k, a, b, c, e, millis);
    FieldValues(s, k, a, b, c);
    StoredDigits(s, millis, c + 1, e);
  }

  /** The values the hour, minute and second conversions store for the fields
      of the clock layout. */
  lemma FieldValues(s: string, k: nat, a: nat, b: nat, c: nat)
    requires k < a < b < c <= |s|
    requires DigitsBetween(s, k, a) || (s[k] == '-' && k + 1 < a && DigitsBetween(s, k + 1, a))
    requires a + 1 < b && DigitsBetween(s, a + 1, b)
    requires b + 1 < c && DigitsBetween(s, b + 1, c)
    ensures Abs(Stored(s, SignedInt, Num(k, a))) == HourMagnitude(s, k, a)
    ensures Stored(s, UnsignedByte, Num(a + 1, b)) == Store(UnsignedByte, DigitsAt(s, a + 1, b))
    ensures Stored(s, UnsignedByte, Num(b + 1, c)) == Store(UnsignedByte, DigitsAt(s, b + 1, c))
  {
    StoredDigits(s, UnsignedByte, a + 1, b);
    StoredDigits(s, UnsignedByte, b + 1, c);
  }

  /** `parse_duration` over text with the clock layout, in terms of the values
      the conversions stored. */
  lemma ParseClockFields(s: string, k: nat, a: nat, b: nat, c: nat, e: nat, millis: Conversion)
    requires millis == UnsignedByte || millis == UnsignedInt
    requires k == if |s| > 0 && s[0] == '-' then 1 else 0
    requires ClockLayout(s, k, a, b, c, e)
    ensures ParseClock(s, millis) == Ok(Assemble(k == 1, Abs(Stored(s, SignedInt, Num(k, a))),
      Stored(s, UnsignedByte, Num(a + 1, b)), Stored(s, UnsignedByte, Num(b + 1, c)),
      Stored(s, millis, Num(c + 1, e))))
  {
    ScanClockAt(s, k, a, b, c, e, millis);
  }

  /** The millisecond field is optional: without it `parse_duration` leaves
      the milliseconds at zero. */
  lemma ParseClockNoMillis(s: string, a: nat, b: nat, c: nat, millis: Conversion)
    requires millis == UnsignedByte || millis == UnsignedInt
    requires SecondsLayout(s, if |s| > 0 && s[0] == '-' then 1 else 0, a, b, c)
    ensures var k := if |s| > 0 && s[0] == '-' then 1 else 0;
      ParseClock(s, millis) == Ok(Assemble(k == 1, HourMagnitude(s, k, a),
        Store(UnsignedByte, DigitsAt(s, a + 1, b)), Store(UnsignedByte, DigitsAt(s, b + 1, c)), 0))
  {
    var k := if |s| > 0 && s[0] == '-' then 1 else 0;
    ParseSecondsFields(s, k, a, b, c, millis);
    FieldValues(s, k, a, b, c);
  }

  /** `parse_duration` over text with only the hour, minute and second fields,
      in terms of the values the conversions stored. */
  lemma ParseSecondsFields(s: string, k: nat, a: nat, b: nat, c: nat, millis: Conversion)
    requires millis == UnsignedByte || millis == UnsignedInt
    requires k == if |s| > 0 && s[0] == '-' then 1 else 0
    requires SecondsLayout(s, k, a, b, c)
    ensures ParseClock(s, millis) == Ok(Assemble(k == 1, Abs(Stored(s, SignedInt, Num(k, a))),
      Stored(s, UnsignedByte, Num(a + 1, b)), Stored(s, UnsignedByte, Num(b + 1, c)), 0))
  {
    ScanSecondsAt(s, k, a, b, c, millis);
  }

  /** The millisecond remainder of an assembled span is its millisecond field
      when the other fields are whole. */
  lemma AssembleRemainder(negative: bool, h: nat, m: nat, sec: nat, ms: nat)
    requires ms < 1000
    ensures Abs(Assemble(negative, h, m, sec, ms)) % 1000 == ms
  {
    RemainderOfMillis(Clock(h, m, sec, ms));
  }

  lemma RemainderOfMillis(c: Clock)
    requires c.millis < 1000
    ensures TotalMillis(c) % 1000 == c.millis
  {
    var k := c.hours * 3600 + c.minutes * 60 + c.seconds;
    assert TotalMillis(c) == k * 1000 + c.millis;
    RemainderOfThousands(k, c.millis);
  }

  lemma RemainderOfThousands(k: nat, r: nat)
    requires r < 1000
    ensures (k * 1000 + r) % 1000 == r
  {
    var n := k * 1000 + r;
    assert n / 1000 == k && n % 1000 == r by {
      assert n == 1000 * k + r && 0 <= r < 1000;
    }
  }

  /** `parse_duration` as written: minutes, seconds and milliseconds are read
      into `unsigned char`, so a parsed span never has a millisecond remainder
      of 256 or more. */
  function ParseDuration(s: string): (r: Result<int>)
    ensures r.Err? ==> r.error == Error(FormatError, DurationShape, s)
    ensures r.Ok? <==> HmsLayout(s, if |s| > 0 && s[0] == '-' then 1 else 0)
    ensures r.Ok? && r.value < 0 ==> |s| > 0 && s[0] == '-'
    ensures r.Ok? && |s| > 0 && s[0] == '-' ==> r.value <= 0
    ensures r.Ok? ==> Abs(r.value) % 1000 < 256
  {
    var r := ParseClock(s, UnsignedByte);
    assert r.Ok? ==> Abs(r.value) % 1000 < 256 by {
      if r.Ok? {
        var negative := |s| > 0 && s[0] == '-';
        var start := if negative then 1 else 0;
        var f := ScanFrom(s, start, ClockFormat(UnsignedByte));
        ScanFits(s, start, ClockFormat(UnsignedByte));
        ClockConversions(UnsignedByte);
        var ms := if |f| == 4 then Stored(s, UnsignedByte, f[3]) else 0;
        AssembleRemainder(negative, Abs(Stored(s, SignedInt, f[0])), Stored(s, UnsignedByte, f[1]),
                          Stored(s, UnsignedByte, f[2]), ms);
      }
    }
    r
  }

  /** `parse_duration` with the milliseconds read as a full `unsigned`. */
  function ParseDurationWide(s: string): (r: Result<int>)
    ensures r.Err? ==> r.error == Error(FormatError, DurationShape, s)
    ensures r.Ok? <==> HmsLayout(s, if |s| > 0 && s[0] == '-' then 1 else 0)
    ensures r.Ok? && r.value < 0 ==> |s| > 0 && s[0] == '-'
    ensures r.Ok? && |s| > 0 && s[0] == '-' ==> r.value <= 0
  {
    ParseClock(s, UnsignedInt)
  }

  /** Parsing the formatted text of `d` reads back the fields of its clock,
      the milliseconds as `millis` stores them. */
  lemma ParseClockOfFormat(d: int, millis: Conversion)
    requires millis == UnsignedInt || millis == UnsignedByte
    ensures var c := Split(Abs(d));
      ParseClock(FormatDuration(d), millis)
      == Ok(Assemble(d < 0, c.hours, c.minutes, c.seconds, Store(millis, c.millis)))
  {
    var k, n := if d < 0 then 1 else 0, |FormatDuration(d)|;
    FormatDurationLayout(d, k, n);
    ParseClockOfLayout(FormatDuration(d), k, n, Split(Abs(d)), millis);
  }

  /** Parsing text with the clock layout whose fields hold a normal clock
      reads back that clock. */
  lemma ParseClockOfLayout(s: string, k: nat, n: nat, c: Clock, millis: Conversion)
    requires millis == UnsignedInt || millis == UnsignedByte
    requires Normal(c) && n == |s| && n >= k + 10
    requires k == if |s| > 0 && s[0] == '-' then 1 else 0
    requires
      && ClockLayout(s, k, n - 10, n - 7, n - 4, n)
      && DigitsBetween(s, k, n - 10)
      && DigitsValue(s[k..n - 10]) == c.hours
      && DigitsValue(s[n - 9..n - 7]) == c.minutes
      && DigitsValue(s[n - 6..n - 4]) == c.seconds
      && DigitsValue(s[n - 3..n]) == c.millis
    ensures ParseClock(s, millis) == Ok(Assemble(k == 1, c.hours, c.minutes, c.seconds, Store(millis, c.millis)))
  {
    DigitsAtSlice(s, k, n - 10);
    DigitsAtSlice(s, n - 9, n - 7);
    DigitsAtSlice(s, n - 6, n - 4);
    DigitsAtSlice(s, n - 3, n);
    ParseClockAt(s, n - 10, n - 7, n - 4, n, millis);
    assert HourMagnitude(s, k, n - 10) == c.hours;
    StoreSmall(UnsignedByte, c.minutes);
    StoreSmall(UnsignedByte, c.seconds);
  }

  /** The corrected parser reads back every field of a formatted span. */
  lemma ParseWideOfFormat(d: int)
    ensures var c := Split(Abs(d));
      ParseDurationWide(FormatDuration(d)) == Ok(Assemble(d < 0, c.hours, c.minutes, c.seconds, c.millis))
  {
    ParseClockOfFormat(d, UnsignedInt);
  }

  /** The parser as written reads back the fields of a formatted span, the
      milliseconds reduced modulo 256. */
  lemma ParseByteOfFormat(d: int)
    ensures var c := Split(Abs(d));
      ParseDuration(FormatDuration(d)) == Ok(Assemble(d < 0, c.hours, c.minutes, c.seconds, Store(UnsignedByte, c.millis)))
  {
    ParseClockOfFormat(d, UnsignedByte);
  }

  /** Assembling the clock fields of a span, with its sign, gives the span. */
  lemma AssembleSplit(d: int)
    ensures var c := Split(Abs(d));
      Assemble(d < 0, c.hours, c.minutes, c.seconds, c.millis) == d
  {
    var c := Split(Abs(d));
    assert c.hours * MillisPerHour + c.minutes * MillisPerMinute + c.seconds * MillisPerSecond + c.millis == Abs(d);
  }

  /** Round trip of the corrected parser: every span of milliseconds survives
      formatting and parsing. */
  lemma DurationRoundTrip(d: int)
    ensures ParseDurationWide(FormatDuration(d)) == Ok(d)
  {
    ParseWideOfFormat(d);
    AssembleSplit(d);
  }

  /** Assembling with the milliseconds reduced modulo 256 gives the span back
      exactly when its millisecond remainder is below 256. */
  lemma AssembleTruncated(d: int)
    ensures var c := Split(Abs(d));
      Assemble(d < 0, c.hours, c.minutes, c.seconds, Store(UnsignedByte, c.millis)) == d
      <==> Abs(d) % 1000 < 256
  {
    var c := Split(Abs(d));
    var ms := Store(UnsignedByte, c.millis);
    RemainderOfMillis(c);
    AssembleSplit(d);
    if c.millis < 256 {
      StoreSmall(UnsignedByte, c.millis);
    } else {
      var back := Clock(c.hours, c.minutes, c.seconds, ms);
      RemainderOfMillis(back);
      var total: int := TotalMillis(back);
      assert Assemble(d < 0, c.hours, c.minutes, c.seconds, ms) == if d < 0 then -total else total;
      assert TotalMillis(back) % 1000 != Abs(d) % 1000;
    }
  }

  /** Round trip of `parse_duration` as written: a span survives formatting
      and parsing exactly when its millisecond remainder is below 256. */
  lemma DurationRoundTripAsWritten(d: int)
    ensures ParseDuration(FormatDuration(d)) == Ok(d) <==> Abs(d) % 1000 < 256
  {
    ParseByteOfFormat(d);
    AssembleTruncated(d);
  }

  /** Assembling with the milliseconds reduced modulo 256 keeps the span
      except for its millisecond remainder, which is reduced likewise. */
  lemma AssembleTruncatedValue(d: int)
    ensures var c, m := Split(Abs(d)), Abs(d); var t := m - m % 1000 + m % 1000 % 256;
      Assemble(d < 0, c.hours, c.minutes, c.seconds, Store(UnsignedByte, c.millis)) == if d < 0 then -t else t
  {
    var c := Split(Abs(d));
    RemainderOfMillis(c);
    assert Store(UnsignedByte, c.millis) == Abs(d) % 1000 % 256;
    assert TotalMillis(c) - c.millis == Abs(d) - Abs(d) % 1000;
  }

  /** What the parser as written makes of a formatted span: the millisecond
      remainder of its magnitude is reduced modulo 256, the rest is kept. */
  lemma MillisTruncatedLaw(d: int)
    ensures var m := Abs(d); var t := m - m % 1000 + m % 1000 % 256;
      ParseDuration(FormatDuration(d)) == Ok(if d < 0 then -t else t)
  {
    ParseByteOfFormat(d);
    AssembleTruncatedValue(d);
  }

  /** The discrepancy made concrete: "0:0:0.999", a clock of 999 ms, reads
      back as 231 ms, since 999 does not fit an `unsigned char`. */
  lemma MillisTruncated(s: string)
    requires s == "0:0:0.999"
    ensures ParseDuration(s) == Ok(231)
  {
    StoreSmall(UnsignedByte, 0);
    assert Store(UnsignedByte, 999) == 231;
    assert Assemble(false, 0, 0, 0, 231) == 231;
    assert HourMagnitude(s, 0, 1) == 0;
    assert DigitsAt(s, 2, 3) == 0;
    assert DigitsAt(s, 4, 5) == 0;
    assert DigitsAt(s, 6, 9) == 999;
    ParseClockAt(s, 1, 3, 5, 9, UnsignedByte);
  }

  /** The '-' stripped up front negates the whole span, not only the hours:
      "-1:30:00" is minus ninety minutes. */
  lemma NegationAppliesToTotal(s: string)
    requires s == "-1:30:00"
    ensures ParseDuration(s) == Ok(-5400000)
  {
    StoreSmall(UnsignedByte, 0);
    StoreSmall(UnsignedByte, 30);
    assert Assemble(true, 1, 30, 0, 0) == -5400000;
    assert HourMagnitude(s, 1, 2) == 1;
    assert DigitsAt(s, 3, 5) == 30;
    assert DigitsAt(s, 6, 8) == 0;
    ParseClockNoMillis(s, 2, 5, 8, UnsignedByte);
  }

  /** A second '-', read with the hour field, loses its sign to the absolute
      value: "--1:30:00" is minus ninety minutes as well. */
  lemma HourSignDiscarded(s: string)
    requires s == "--1:30:00"
    ensures ParseDuration(s) == Ok(-5400000)
  {
    StoreSmall(UnsignedByte, 0);
    StoreSmall(UnsignedByte, 30);
    assert Assemble(true, 1, 30, 0, 0) == -5400000;
    assert HourMagnitude(s, 1, 3) == 1;
    assert DigitsAt(s, 4, 6) == 30;
    assert DigitsAt(s, 7, 9) == 0;
    ParseClockNoMillis(s, 3, 6, 9, UnsignedByte);
  }

  /** The milliseconds may be left out: "1:30:00" is ninety minutes. */
  lemma MillisOptional(s: string)
    requires s == "1:30:00"
    ensures ParseDuration(s) == Ok(5400000)
  {
    StoreSmall(UnsignedByte, 0);
    StoreSmall(UnsignedByte, 30);
    assert Assemble(false, 1, 30, 0, 0) == 5400000;
    assert HourMagnitude(s, 0, 1) == 1;
    assert DigitsAt(s, 2, 4) == 30;
    assert DigitsAt(s, 5, 7) == 0;
    ParseClockNoMillis(s, 1, 4, 7, UnsignedByte);
  }

  /** The seconds may not be left out: "1:30" is a format error. */
  lemma SecondsRequired(s: string)
    requires s == "1:30"
    ensures ParseDuration(s) == Err(Error(FormatError, DurationShape, s))
  {
    var rest := Lit(':', Conv(UnsignedByte, Lit('.', Conv(UnsignedByte, End))));
    assert ScanFrom(s, 4, rest) == [];
    ScanNumberAt(s, 2, 4, UnsignedByte, rest);
    ScanNumberAt(s, 0, 1, SignedInt, AfterHour(UnsignedByte));
    assert |ScanFrom(s, 0, ClockFormat(UnsignedByte))| == 2;
  }

  /** The millisecond field is a count, not a decimal fraction: "0:0:1.5" is
      one second and five milliseconds. */
  lemma MillisUnscaled(s: string)
    requires s == "0:0:1.5"
    ensures ParseDuration(s) == Ok(1005)
  {
    StoreSmall(UnsignedByte, 0);
    StoreSmall(UnsignedByte, 1);
    StoreSmall(UnsignedByte, 5);
    assert Assemble(false, 0, 0, 1, 5) == 1005;
    assert HourMagnitude(s, 0, 1) == 0;
    assert DigitsAt(s, 2, 3) == 0;
    assert DigitsAt(s, 4, 5) == 1;
    assert DigitsAt(s, 6, 7) == 5;
    ParseClockAt(s, 1, 3, 5, 7, UnsignedByte);
  }
}
