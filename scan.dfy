/** Decimal text and the part of `std::sscanf` the calendar codec relies on.

    `sscanf(text, fmt, ...)` walks the format left to right.  A literal
    character must match the next input character; a conversion reads a
    value and stores it.  The walk stops at the first directive that fails,
    and the call returns how many conversions were stored.  A literal that
    fails after the last conversion therefore does not lower that count.
    `ScanFrom` returns what each stored conversion consumed, in order, so the
    count is the length of its result.  The `EOF` that `sscanf` returns for
    an input that ends before the first conversion is folded into a count of
    zero: every caller here compares the count with a positive number. */
module Scanf {

  predicate IsDigit(c: char) {
    '0' <= c <= '9'
  }

  predicate AllDigits(s: string) {
    forall i :: 0 <= i < |s| ==> IsDigit(s[i])
  }

  /** Value of a digit character (0 for any other character). */
  function DigitValue(c: char): (d: nat)
    ensures d < 10
  {
    if IsDigit(c) then c as int - '0' as int else 0
  }

  function DigitChar(d: nat): (c: char)
    requires d < 10
    ensures IsDigit(c) && DigitValue(c) == d
  {
    ('0' as int + d) as char
  }

  /** Value of a digit string, most significant digit first. */
  function DigitsValue(s: string): nat {
    if s == [] then 0 else DigitsValue(s[..|s| - 1]) * 10 + DigitValue(s[|s| - 1])
  }

  /** Decimal text of `n` as `operator<<` prints it: no sign, no leading zero. */
  function NatText(n: nat): (r: string)
    ensures |r| > 0 && AllDigits(r)
    ensures DigitsValue(r) == n
    ensures r[0] == '0' ==> n == 0
  {
    if n < 10 then [DigitChar(n)]
    else
      var r := NatText(n / 10) + [DigitChar(n % 10)];
      assert r[..|r| - 1] == NatText(n / 10);
      r
  }

  /** Decimal text of a signed integer: a '-' before the magnitude when negative. */
  function IntText(i: int): (r: string)
    ensures |r| > 0 && (r[0] == '-' <==> i < 0)
    ensures i < 0 ==> r[1..] == NatText(-i)
    ensures i >= 0 ==> r == NatText(i)
  {
    if i < 0 then "-" + NatText(-i) else NatText(i)
  }

  /** A '0' in front of a digit string does not change its value. */
  lemma {:induction false} LeadingZero(s: string)
    ensures DigitsValue("0" + s) == DigitsValue(s)
  {
    if s != [] {
      var t := "0" + s;
      assert t[..|t| - 1] == "0" + s[..|s| - 1];
      LeadingZero(s[..|s| - 1]);
    }
  }

  /** `s` printed with `std::setfill('0') << std::setw(width)`: left-padded
      with '0' to at least `width` characters, never cut. */
  function ZeroPad(s: string, width: nat): (r: string)
    ensures |r| == if |s| < width then width else |s|
    ensures r[|r| - |s|..] == s
    ensures forall i :: 0 <= i < |r| - |s| ==> r[i] == '0'
    ensures AllDigits(s) ==> AllDigits(r) && DigitsValue(r) == DigitsValue(s)
    decreases width - |s|
  {
    if |s| >= width then s
    else
      var r := ZeroPad("0" + s, width);
      ZeroPadStep(s, r);
      r
  }

  /** What padding `"0" + s` says about padding `s`. */
  lemma ZeroPadStep(s: string, r: string)
    requires |s| < |r| && r[|r| - |s| - 1..] == "0" + s
    requires forall i :: 0 <= i < |r| - |s| - 1 ==> r[i] == '0'
    requires AllDigits("0" + s) ==> AllDigits(r) && DigitsValue(r) == DigitsValue("0" + s)
    ensures r[|r| - |s|..] == s
    ensures forall i :: 0 <= i < |r| - |s| ==> r[i] == '0'
    ensures AllDigits(s) ==> AllDigits(r) && DigitsValue(r) == DigitsValue(s)
  {
    var t := "0" + s;
    assert r[|r| - |s|..] == r[|r| - |t|..][1..];
    assert r[|r| - |t|] == r[|r| - |t|..][0];
    LeadingZero(s);
    assert AllDigits(s) ==> AllDigits(t);
  }

  /** Every character of `s[i..j]` is a digit. */
  predicate DigitsBetween(s: string, i: nat, j: nat)
    requires i <= j <= |s|
  {
    forall k :: i <= k < j ==> IsDigit(s[k])
  }

  /** A stretch of `s` whose text is all digits. */
  lemma DigitsOfSlice(s: string, i: nat, j: nat)
    requires i <= j <= |s| && AllDigits(s[i..j])
    ensures DigitsBetween(s, i, j)
  {
    forall k | i <= k < j
      ensures IsDigit(s[k])
    {
      assert s[k] == s[i..j][k - i];
    }
  }

  /** Length of the run of decimal digits that starts at `s[i]`. */
  function DigitRun(s: string, i: nat): (n: nat)
    requires i <= |s|
    ensures i + n <= |s|
    decreases |s| - i
  {
    if i == |s| || !IsDigit(s[i]) then 0 else 1 + DigitRun(s, i + 1)
  }

  /** A run of digits ends exactly where the digits end. */
  lemma {:induction false} DigitRunOf(s: string, i: nat, j: nat)
    requires i <= j <= |s| && DigitsBetween(s, i, j)
    requires j == |s| || !IsDigit(s[j])
    ensures DigitRun(s, i) == j - i
    decreases j - i
  {
    if i < j {
      DigitRunOf(s, i + 1, j);
    }
  }

  /** How many characters a numeric conversion reads at `s[i]`: `%d` and
      `%lld` take an optional '-' and then the longest run of digits, `%u` and
      `%hhu` only the digits; no digit at all reads nothing. */
  function NumberLength(d: Conversion, s: string, i: nat): (n: nat)
    requires i <= |s|
    ensures i + n <= |s|
  {
    if d == SignedInt && i < |s| && s[i] == '-' then
      var k := DigitRun(s, i + 1);
      if k == 0 then 0 else k + 1
    else
      DigitRun(s, i)
  }

  /** A conversion specification of a `scanf` format. */
  datatype Conversion =
    | SignedInt      // %d, %lld
    | UnsignedInt    // %u
    | UnsignedByte   // %hhu: the value is stored into an unsigned char
    | AnyChar        // %c

  /** A `scanf` format, directive by directive. */
  datatype Format =
    | End
    | Lit(c: char, next: Format)                   // an ordinary character
    | Conv(conversion: Conversion, next: Format)   // a conversion

  /** What a conversion consumed: for a numeric conversion the bounds of its
      text `s[start..end]`, for `%c` the character. */
  datatype Field = Num(start: nat, end: nat) | Chr(c: char)

  /** The number of conversions of a format: the most `sscanf` can return. */
  function Arity(fmt: Format): nat {
    match fmt
    case End => 0
    case Lit(_, next) => Arity(next)
    case Conv(_, next) => 1 + Arity(next)
  }

  /** The `i`-th conversion of a format. */
  function ConversionAt(fmt: Format, i: nat): Conversion
    requires i < Arity(fmt)
  {
    match fmt
    case Lit(_, next) => ConversionAt(next, i)
    case Conv(d, next) => if i == 0 then d else ConversionAt(next, i - 1)
  }

  /** What a conversion can have consumed of `s`: a non-empty stretch for a
      number, unsigned unless the conversion is `%d`, and a character other
      than NUL for `%c`. */
  predicate Fits(s: string, d: Conversion, f: Field) {
    if d == AnyChar then f.Chr? && f.c != '\0'
    else f.Num? && f.start < f.end <= |s| && (d != SignedInt ==> s[f.start] != '-')
  }

  /** `sscanf(s.data() + i, fmt, ...)`: what the conversions consumed, in order,
      up to the first directive that fails; the call returns how many there
      are.  A '\0' ends a C string, so no directive reads past one. */
  function ScanFrom(s: string, i: nat, fmt: Format): (r: seq<Field>)
    requires i <= |s|
    ensures |r| <= Arity(fmt)
    decreases fmt
  {
    match fmt
    case End => []
    case Lit(c, next) =>
      if i < |s| && s[i] == c && c != '\0' then ScanFrom(s, i + 1, next) else []
    case Conv(AnyChar, next) =>
      if i < |s| && s[i] != '\0' then [Chr(s[i])] + ScanFrom(s, i + 1, next) else []
    case Conv(d, next) =>
      var n := NumberLength(d, s, i);
      if n == 0 then [] else [Num(i, i + n)] + ScanFrom(s, i + n, next)
  }

  /** Value of the digits `s[i..j]`, read in place. */
  function DigitsAt(s: string, i: nat, j: nat): nat
    requires i <= j <= |s|
    decreases j - i
  {
    if i == j then 0 else DigitsAt(s, i, j - 1) * 10 + DigitValue(s[j - 1])
  }

  /** Reading the digits in place agrees with reading the cut-out text. */
  lemma {:induction false} DigitsAtSlice(s: string, i: nat, j: nat)
    requires i <= j <= |s|
    ensures DigitsAt(s, i, j) == DigitsValue(s[i..j])
    decreases j - i
  {
    if i < j {
      DigitsAtSlice(s, i, j - 1);
      assert s[i..j][..j - i - 1] == s[i..j - 1];
    }
  }

  /** A digit text `d` found in `s` at `i` is a run of digits there, with
      the value of `d`. */
  lemma DigitsAtText(s: string, i: nat, d: string)
    requires i + |d| <= |s| && s[i..i + |d|] == d && AllDigits(d)
    ensures DigitsBetween(s, i, i + |d|)
    ensures DigitsAt(s, i, i + |d|) == DigitsValue(d)
  {
    DigitsOfSlice(s, i, i + |d|);
    DigitsAtSlice(s, i, i + |d|);
  }

  /** The value of the number text `s[i..j]`: an optional '-' and then digits. */
  function NumberAt(s: string, i: nat, j: nat): int
    requires i <= j <= |s|
  {
    if i < j && s[i] == '-' then 0 - DigitsAt(s, i + 1, j) else DigitsAt(s, i, j)
  }

  /** The value a numeric conversion stores: `%hhu` keeps the low eight bits. */
  function Store(d: Conversion, v: int): int {
    if d == UnsignedByte then v % 256 else v
  }

  /** The value a numeric conversion `d` stored for field `f` of `s`. */
  function Stored(s: string, d: Conversion, f: Field): int
    requires f.Num? && f.start <= f.end <= |s|
  {
    Store(d, NumberAt(s, f.start, f.end))
  }

  /** Every field fits the conversion that consumed it. */
  lemma {:induction false} ScanFits(s: string, i: nat, fmt: Format)
    requires i <= |s|
    ensures forall k :: 0 <= k < |ScanFrom(s, i, fmt)| ==> Fits(s, ConversionAt(fmt, k), ScanFrom(s, i, fmt)[k])
    decreases fmt
  {
    match fmt
    case End =>
    case Lit(c, next) =>
      if i < |s| && s[i] == c && c != '\0' {
        ScanFits(s, i + 1, next);
      }
    case Conv(AnyChar, next) =>
      if i < |s| && s[i] != '\0' {
        ScanFits(s, i + 1, next);
      }
    case Conv(d, next) =>
      var n := NumberLength(d, s, i);
      if n > 0 {
        ScanFits(s, i + n, next);
      }
  }

  /** A literal directive that matches `s[i]`. */
  lemma ScanLitAt(s: string, i: nat, c: char, next: Format)
    requires i < |s| && s[i] == c && c != '\0'
    ensures ScanFrom(s, i, Lit(c, next)) == ScanFrom(s, i + 1, next)
  {
  }

  /** A numeric conversion over the digits `s[i..j]`, followed by a non-digit. */
  lemma ScanNumberAt(s: string, i: nat, j: nat, d: Conversion, next: Format)
    requires d != AnyChar
    requires i < j <= |s| && DigitsBetween(s, i, j)
    requires j == |s| || !IsDigit(s[j])
    ensures ScanFrom(s, i, Conv(d, next)) == [Num(i, j)] + ScanFrom(s, j, next)
  {
    NumberLengthOfDigits(d, s, i, j);
    ScanRunAt(s, i, j, d, next);
  }

  /** A numeric conversion that reads `s[i..j]`. */
  lemma ScanRunAt(s: string, i: nat, j: nat, d: Conversion, next: Format)
    requires i < j <= |s| && d != AnyChar && NumberLength(d, s, i) == j - i
    ensures ScanFrom(s, i, Conv(d, next)) == [Num(i, j)] + ScanFrom(s, j, next)
  {
    var rest := ScanFrom(s, j, next);
    assert ScanFrom(s, i, Conv(d, next))
      == [Num(i, i + NumberLength(d, s, i))] + ScanFrom(s, i + NumberLength(d, s, i), next);
  }

  /** A numeric conversion that reads `s[i..j]`, then the separator `s[j]`. */
  lemma ScanRunThen(s: string, i: nat, j: nat, d: Conversion, c: char, next: Format)
    requires i < j < |s| && d != AnyChar && NumberLength(d, s, i) == j - i
    requires s[j] == c && c != '\0'
    ensures ScanFrom(s, i, Conv(d, Lit(c, next))) == [Num(i, j)] + ScanFrom(s, j + 1, next)
  {
    ScanRunAt(s, i, j, d, Lit(c, next));
    ScanLitAt(s, j, c, next);
  }

  /** A numeric conversion at a run of digits reads exactly that run. */
  lemma NumberLengthOfDigits(d: Conversion, s: string, i: nat, j: nat)
    requires i < j <= |s| && DigitsBetween(s, i, j)
    requires j == |s| || !IsDigit(s[j])
    ensures NumberLength(d, s, i) == j - i
  {
    assert IsDigit(s[i]);
    DigitRunOf(s, i, j);
  }

  /** A `%d` conversion over a '-' at `s[i]`, the digits `s[i + 1..j]` and a non-digit. */
  lemma ScanNegativeAt(s: string, i: nat, j: nat, next: Format)
    requires i + 1 < j <= |s| && s[i] == '-' && DigitsBetween(s, i + 1, j)
    requires j == |s| || !IsDigit(s[j])
    ensures ScanFrom(s, i, Conv(SignedInt, next)) == [Num(i, j)] + ScanFrom(s, j, next)
  {
    DigitRunOf(s, i + 1, j);
  }

  /** A numeric conversion over the digits `s[i..j]` and the separator `s[j]`
      after them, both matched. */
  lemma ScanFieldAt(s: string, i: nat, j: nat, d: Conversion, c: char, next: Format)
    requires d != AnyChar
    requires i < j < |s| && DigitsBetween(s, i, j)
    requires s[j] == c && c != '\0' && !IsDigit(c)
    ensures ScanFrom(s, i, Conv(d, Lit(c, next))) == [Num(i, j)] + ScanFrom(s, j + 1, next)
  {
    NumberLengthOfDigits(d, s, i, j);
    ScanRunThen(s, i, j, d, c, next);
  }

  /** The value stored for a run of digits is the value of the digits, as the
      conversion stores it. */
  lemma StoredDigits(s: string, d: Conversion, i: nat, j: nat)
    requires i < j <= |s| && DigitsBetween(s, i, j)
    ensures Stored(s, d, Num(i, j)) == Store(d, DigitsAt(s, i, j))
  {
  }

  /** A value an `unsigned char` holds is stored unchanged by every conversion. */
  lemma StoreSmall(d: Conversion, v: int)
    requires 0 <= v < 256
    ensures Store(d, v) == v
  {
  }

  /** A number printed by `IntText` reads back as itself. */
  lemma NumberOfInt(i: int)
    ensures var t := IntText(i); NumberAt(t, 0, |t|) == i
  {
    var t := IntText(i);
    if i < 0 {
      DigitsAtSlice(t, 1, |t|);
      assert t[1..|t|] == NatText(-i);
    } else {
      DigitsAtSlice(t, 0, |t|);
      assert t[0..|t|] == t;
    }
  }
}
