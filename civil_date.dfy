/**
 * The calendar helpers of date-utils.js (and their copies in app.js):
 * proleptic Gregorian civil dates, day shifting as `Date#setDate` does it,
 * the `todayIso` formatter, the date part of `toISOString`, and the
 * date-only forms of the ECMAScript date-time string format that
 * `new Date(value + "T00:00:00")` accepts. Local time is taken to be UTC,
 * so midnight local time and the UTC date agree.
 */
module CivilDate {
  import opened Wrappers
  import opened JsText

  /** A calendar date; `month` is 1-based (`getMonth() + 1`). */
  datatype Date = Date(year: int, month: int, day: int)

  predicate IsLeapYear(y: int) {
    y % 4 == 0 && (y % 100 != 0 || y % 400 == 0)
  }

  function DaysInMonth(y: int, m: int): (n: int)
    requires 1 <= m <= 12
    ensures 28 <= n <= 31
    ensures n == 29 <==> m == 2 && IsLeapYear(y)
  {
    if m == 2 then (if IsLeapYear(y) then 29 else 28)
    else if m == 4 || m == 6 || m == 9 || m == 11 then 30
    else 31
  }

  predicate Valid(d: Date) {
    1 <= d.month <= 12 && 1 <= d.day <= DaysInMonth(d.year, d.month)
  }

  /** `a` is on or before `b`. */
  predicate NotAfter(a: Date, b: Date) {
    a.year < b.year || (a.year == b.year && (a.month < b.month || (a.month == b.month && a.day <= b.day)))
  }

  // ---------------------------------------------------------------------
  // Day arithmetic

  function NextDay(d: Date): (r: Date)
    requires Valid(d)
    ensures Valid(r) && NotAfter(d, r) && r != d
  {
    if d.day < DaysInMonth(d.year, d.month) then Date(d.year, d.month, d.day + 1)
    else if d.month < 12 then Date(d.year, d.month + 1, 1)
    else Date(d.year + 1, 1, 1)
  }

  function PrevDay(d: Date): (r: Date)
    requires Valid(d)
    ensures Valid(r) && NotAfter(r, d) && r != d
  {
    if d.day > 1 then Date(d.year, d.month, d.day - 1)
    else if d.month > 1 then Date(d.year, d.month - 1, DaysInMonth(d.year, d.month - 1))
    else Date(d.year - 1, 12, 31)
  }

  /** The day `k` days after `d` (before it when `k` is negative). */
  function Shift(d: Date, k: int): (r: Date)
    requires Valid(d)
    ensures Valid(r)
    ensures k >= 0 ==> NotAfter(d, r)
    ensures k <= 0 ==> NotAfter(r, d)
    decreases if k < 0 then -k else k
  {
    if k == 0 then d
    else if k > 0 then Shift(NextDay(d), k - 1)
    else Shift(PrevDay(d), k + 1)
  }

  /**
   * `date.setDate(n)`: day `n` of the date's month, counted from the 1st;
   * a day outside the month carries into the months around it.
   */
  function SetDate(d: Date, n: int): (r: Date)
    requires Valid(d)
    ensures Valid(r)
  {
    Shift(Date(d.year, d.month, 1), n - 1)
  }

  lemma NextPrevInverse(d: Date)
    requires Valid(d)
    ensures PrevDay(NextDay(d)) == d
    ensures NextDay(PrevDay(d)) == d
  {
  }

  lemma ShiftAfterNext(d: Date, k: int)
    requires Valid(d)
    ensures Shift(NextDay(d), k) == Shift(d, k + 1)
  {
    if k < 0 {
      NextPrevInverse(d);
    }
  }

  lemma ShiftAfterPrev(d: Date, k: int)
    requires Valid(d)
    ensures Shift(PrevDay(d), k) == Shift(d, k - 1)
  {
    if k > 0 {
      NextPrevInverse(d);
    }
  }

  /** Shifting by `a` and then by `b` is shifting by `a + b`. */
  lemma {:induction false} ShiftAdd(d: Date, a: int, b: int)
    requires Valid(d)
    ensures Shift(Shift(d, a), b) == Shift(d, a + b)
    decreases if a < 0 then -a else a
  {
    if a > 0 {
      ShiftAdd(NextDay(d), a - 1, b);
      ShiftAfterNext(d, a - 1 + b);
    } else if a < 0 {
      ShiftAdd(PrevDay(d), a + 1, b);
      ShiftAfterPrev(d, a + 1 + b);
    }
  }

  /** A shift by `k` is undone by a shift by `-k`; in particular `+1` then `-1`. */
  lemma ShiftInverse(d: Date, k: int)
    requires Valid(d)
    ensures Shift(Shift(d, k), -k) == d
  {
    ShiftAdd(d, k, -k);
  }

  lemma {:induction false} ShiftWithinMonth(d: Date, j: int)
    requires Valid(d) && d.day == 1
    requires 1 <= j <= DaysInMonth(d.year, d.month)
    ensures Shift(d, j - 1) == Date(d.year, d.month, j)
  {
    if j > 1 {
      ShiftWithinMonth(d, j - 1);
      ShiftAdd(d, j - 2, 1);
    }
  }

  /** `setDate(getDate() + k)` moves the date by exactly `k` days. */
  lemma SetDateIsShift(d: Date, k: int)
    requires Valid(d)
    ensures SetDate(d, d.day + k) == Shift(d, k)
  {
    var first := Date(d.year, d.month, 1);
    ShiftWithinMonth(first, d.day);
    ShiftAdd(first, d.day - 1, k);
  }

  /** The carries of `setDate`: month end, year end, and the day before March 1. */
  lemma Rollovers(y: int, m: int)
    requires 1 <= m < 12
    ensures Shift(Date(y, m, DaysInMonth(y, m)), 1) == Date(y, m + 1, 1)
    ensures Shift(Date(y, 12, 31), 1) == Date(y + 1, 1, 1)
    ensures Shift(Date(y, 3, 1), -1) == Date(y, 2, if IsLeapYear(y) then 29 else 28)
  {
    assert Shift(Date(y, m, DaysInMonth(y, m)), 1) == Shift(Date(y, m + 1, 1), 0);
    assert Shift(Date(y, 12, 31), 1) == Shift(Date(y + 1, 1, 1), 0);
    assert Shift(Date(y, 3, 1), -1) == Shift(Date(y, 2, DaysInMonth(y, 2)), 0);
  }

  // ---------------------------------------------------------------------
  // The range of `Date`: a time value is at most 8.64e15 ms from the epoch

  const FirstDate := Date(-271821, 4, 20)
  const LastDate := Date(275760, 9, 13)

  /** Midnight of `d` is a time value a `Date` can hold. */
  predicate InTimeRange(d: Date) {
    NotAfter(FirstDate, d) && NotAfter(d, LastDate)
  }

  // ---------------------------------------------------------------------
  // Fixed-width numerals

  function Pow10(w: nat): (p: nat)
    ensures p >= 1
  {
    if w == 0 then 1 else 10 * Pow10(w - 1)
  }

  /** The last `width` decimal digits of `n`, zero-padded. */
  function Digits(n: nat, width: nat): (r: string)
    ensures |r| == width && AllDigits(r)
  {
    if width == 0 then "" else Digits(n / 10, width - 1) + [DigitChar(n % 10)]
  }

  lemma {:induction false} DigitsValueOfDigits(n: nat, width: nat)
    requires n < Pow10(width)
    ensures DigitsValue(Digits(n, width)) == n
  {
    if width > 0 {
      assert n / 10 < Pow10(width - 1);
      DigitsValueOfDigits(n / 10, width - 1);
      var s := Digits(n, width);
      assert s[..|s| - 1] == Digits(n / 10, width - 1);
      assert s[|s| - 1] == DigitChar(n % 10);
    }
  }

  lemma {:induction false} DigitsOfDigitsValue(t: string)
    requires AllDigits(t)
    ensures Digits(DigitsValue(t), |t|) == t
    ensures DigitsValue(t) < Pow10(|t|)
  {
    if t != [] {
      var init := t[..|t| - 1];
      DigitsOfDigitsValue(init);
      var v := DigitsValue(t);
      assert v == DigitsValue(init) * 10 + DigitValue(t[|t| - 1]);
      assert v / 10 == DigitsValue(init) && v % 10 == DigitValue(t[|t| - 1]);
      assert init + [t[|t| - 1]] == t;
    }
  }

  /** `String(n)` is the `width`-digit numeral of `n` when `n` has exactly `width` digits. */
  lemma {:induction false} NatToStringIsDigits(n: nat, width: nat)
    requires width >= 1 && Pow10(width - 1) <= n < Pow10(width)
    ensures NatToString(n) == Digits(n, width)
  {
    if width > 1 {
      assert Pow10(width - 2) <= n / 10 < Pow10(width - 1);
      NatToStringIsDigits(n / 10, width - 1);
    }
  }

  /** `String(n).padStart(2, "0")` for a month or day number: exactly its two digits. */
  lemma PadTwo(n: nat)
    requires 1 <= n <= 99
    ensures PadStart(IntToString(n), 2, '0') == Digits(n, 2)
    ensures DigitsValue(PadStart(IntToString(n), 2, '0')) == n
  {
    var s := IntToString(n);
    assert s == NatToString(n);
    if n < 10 {
      NatToStringIsDigits(n, 1);
      assert s == [DigitChar(n)];
      assert PadStart(s, 2, '0') == ['0'] + s;
      assert Digits(n / 10, 1) == [DigitChar(0)];
      assert Digits(n, 2) == Digits(n / 10, 1) + [DigitChar(n % 10)];
    } else {
      assert Pow10(1) <= n < Pow10(2);
      NatToStringIsDigits(n, 2);
      assert PadStart(s, 2, '0') == s;
    }
    DigitsValueOfDigits(n, 2);
  }

  // ---------------------------------------------------------------------
  // Formatting

  /** `todayIso()` of date-utils.js: the unpadded year, then the month and day padded to two digits. */
  function FormatLocal(d: Date): string {
    IntToString(d.year) + "-" + PadStart(IntToString(d.month), 2, '0') + "-" + PadStart(IntToString(d.day), 2, '0')
  }

  /** The year of `toISOString`: four digits in 0..9999, otherwise a sign and six digits. */
  function IsoYear(y: int): string {
    if 0 <= y <= 9999 then Digits(y, 4)
    else if y > 9999 then "+" + Digits(y, 6)
    else "-" + Digits(-y, 6)
  }

  /** The date part of `toISOString` (midnight UTC). */
  function FormatIso(d: Date): string
    requires Valid(d)
  {
    IsoYear(d.year) + "-" + Digits(d.month, 2) + "-" + Digits(d.day, 2)
  }

  /** `toISOString()` of midnight on `d`. */
  function ToIsoString(d: Date): string
    requires Valid(d)
  {
    FormatIso(d) + "T00:00:00.000Z"
  }

  /** `toISOString().split("T")[0]` is the date part. */
  lemma IsoDatePart(d: Date)
    requires Valid(d)
    ensures Split(ToIsoString(d), 'T')[0] == FormatIso(d)
  {
    var p := FormatIso(d);
    assert 'T' !in p by {
      assert forall i :: 0 <= i < |p| ==> IsDigit(p[i]) || p[i] == '-' || p[i] == '+';
    }
    assert ToIsoString(d) == p + ['T'] + "00:00:00.000Z";
    SplitAtSeparator(p, "00:00:00.000Z", 'T');
  }

  /** For four-digit years the two formatters agree. */
  lemma FormatLocalIsIso(d: Date)
    requires Valid(d) && 1000 <= d.year <= 9999
    ensures FormatLocal(d) == FormatIso(d)
  {
    NatToStringIsDigits(d.year, 4);
    PadTwo(d.month);
    PadTwo(d.day);
  }

  /**
   * `todayIso()` is the year, then the month and the day each as exactly
   * two digits that read back as their values.
   */
  lemma TodayIsoFields(d: Date)
    requires Valid(d)
    ensures FormatLocal(d) == IntToString(d.year) + "-" + Digits(d.month, 2) + "-" + Digits(d.day, 2)
    ensures DigitsValue(Digits(d.month, 2)) == d.month && DigitsValue(Digits(d.day, 2)) == d.day
  {
    PadTwo(d.month);
    PadTwo(d.day);
  }

  // ---------------------------------------------------------------------
  // Parsing `value + "T00:00:00"`

  /** The month and day after the year: absent, `-MM`, or `-MM-DD`. */
  function ParseMonthDay(year: int, rest: string): (r: Option<Date>)
    ensures r.Some? ==> Valid(r.value) && r.value.year == year
  {
    if rest == "" then Some(Date(year, 1, 1))
    else if |rest| == 3 && rest[0] == '-' && AllDigits(rest[1..]) then
      var m := DigitsValue(rest[1..]);
      if 1 <= m <= 12 then Some(Date(year, m, 1)) else None
    else if |rest| == 6 && rest[0] == '-' && rest[3] == '-' && AllDigits(rest[1..3]) && AllDigits(rest[4..]) then
      var m := DigitsValue(rest[1..3]);
      var day := DigitsValue(rest[4..]);
      if 1 <= m <= 12 && 1 <= day <= DaysInMonth(year, m) then Some(Date(year, m, day)) else None
    else None
  }

  /**
   * The date `new Date(value + "T00:00:00")` denotes: `YYYY`, `YYYY-MM` or
   * `YYYY-MM-DD`, or the same with the year as a sign and six digits
   * (`-000000` is not allowed). Anything else is an invalid date.
   */
  function ParseDateValue(s: string): (r: Option<Date>)
    ensures r.Some? ==> Valid(r.value)
  {
    if |s| >= 7 && (s[0] == '+' || s[0] == '-') && AllDigits(s[1..7]) then
      var magnitude := DigitsValue(s[1..7]);
      if s[0] == '-' && magnitude == 0 then None
      else ParseMonthDay(if s[0] == '-' then -(magnitude as int) else magnitude, s[7..])
    else if |s| >= 4 && AllDigits(s[..4]) then ParseMonthDay(DigitsValue(s[..4]), s[4..])
    else None
  }

  lemma ParseMonthDayOfFormat(d: Date)
    requires Valid(d)
    ensures ParseMonthDay(d.year, "-" + Digits(d.month, 2) + "-" + Digits(d.day, 2)) == Some(d)
  {
    var rest := "-" + Digits(d.month, 2) + "-" + Digits(d.day, 2);
    DigitsValueOfDigits(d.month, 2);
    DigitsValueOfDigits(d.day, 2);
    assert rest[1..3] == Digits(d.month, 2);
    assert rest[4..] == Digits(d.day, 2);
  }

  lemma ParseFourDigitYear(y: nat, rest: string)
    requires y <= 9999
    ensures ParseDateValue(Digits(y, 4) + rest) == ParseMonthDay(y, rest)
  {
    var s := Digits(y, 4) + rest;
    assert s[..4] == Digits(y, 4) && s[4..] == rest;
    assert IsDigit(s[0]);
    DigitsValueOfDigits(y, 4);
  }

  lemma ParseSixDigitYear(sign: char, magnitude: nat, rest: string)
    requires sign == '+' || sign == '-'
    requires 0 < magnitude < 1000000
    ensures ParseDateValue([sign] + Digits(magnitude, 6) + rest) ==
      ParseMonthDay(if sign == '-' then -(magnitude as int) else magnitude, rest)
  {
    var s := [sign] + Digits(magnitude, 6) + rest;
    assert Pow10(6) == 1000000;
    DigitsValueOfDigits(magnitude, 6);
    assert s[1..7] == Digits(magnitude, 6) && s[7..] == rest;
  }

  lemma ParseFormatIsoFourDigit(d: Date)
    requires Valid(d) && 0 <= d.year <= 9999
    ensures ParseDateValue(FormatIso(d)) == Some(d)
  {
    var rest := "-" + Digits(d.month, 2) + "-" + Digits(d.day, 2);
    ParseMonthDayOfFormat(d);
    assert FormatIso(d) == Digits(d.year, 4) + rest;
    ParseFourDigitYear(d.year, rest);
  }

  lemma ParseFormatIsoPlus(d: Date)
    requires Valid(d) && 9999 < d.year < 1000000
    ensures ParseDateValue(FormatIso(d)) == Some(d)
  {
    var rest := "-" + Digits(d.month, 2) + "-" + Digits(d.day, 2);
    ParseMonthDayOfFormat(d);
    assert FormatIso(d) == ['+'] + Digits(d.year, 6) + rest;
    ParseSixDigitYear('+', d.year, rest);
  }

  lemma ParseFormatIsoMinus(d: Date)
    requires Valid(d) && -1000000 < d.year < 0
    ensures ParseDateValue(FormatIso(d)) == Some(d)
  {
    var rest := "-" + Digits(d.month, 2) + "-" + Digits(d.day, 2);
    ParseMonthDayOfFormat(d);
    assert FormatIso(d) == ['-'] + Digits(-d.year, 6) + rest;
    ParseSixDigitYear('-', -d.year, rest);
  }

  /** Every date a `Date` can hold reads back from its `toISOString` date part. */
  lemma ParseFormatIso(d: Date)
    requires Valid(d) && InTimeRange(d)
    ensures ParseDateValue(FormatIso(d)) == Some(d)
  {
    if 0 <= d.year <= 9999 {
      ParseFormatIsoFourDigit(d);
    } else {
      if d.year > 9999 {
        ParseFormatIsoPlus(d);
      } else {
        ParseFormatIsoMinus(d);
      }
    }
  }

  /** A `YYYY-MM-DD` text with a four-digit year. */
  predicate IsYmd(s: string) {
    |s| == 10 && AllDigits(s[..4]) && s[4] == '-' && AllDigits(s[5..7]) && s[7] == '-' && AllDigits(s[8..])
  }

  /** A valid `YYYY-MM-DD` text is the `toISOString` date part of the date it denotes. */
  lemma ParseYmdFields(s: string)
    requires IsYmd(s) && ParseDateValue(s).Some?
    ensures ParseDateValue(s).value == Date(DigitsValue(s[..4]), DigitsValue(s[5..7]), DigitsValue(s[8..]))
  {
    var rest := s[4..];
    assert !(s[0] == '+' || s[0] == '-') by {
      assert IsDigit(s[..4][0]);
    }
    assert rest[1..3] == s[5..7] && rest[4..] == s[8..];
  }

  lemma FormatIsoOfParsed(s: string)
    requires IsYmd(s) && ParseDateValue(s).Some?
    ensures FormatIso(ParseDateValue(s).value) == s
  {
    var d := ParseDateValue(s).value;
    ParseYmdFields(s);
    DigitsOfDigitsValue(s[..4]);
    DigitsOfDigitsValue(s[5..7]);
    DigitsOfDigitsValue(s[8..]);
    assert Pow10(4) == 10000;
    assert IsoYear(d.year) == s[..4];
    assert s == s[..4] + "-" + s[5..7] + "-" + s[8..];
  }

  // ---------------------------------------------------------------------
  // getShiftedDate

  /** The message of the `RangeError` `toISOString` throws for an invalid date. */
  const InvalidTimeValue := "Invalid time value"

  /**
   * The shift shared by `getShiftedDate` and `shiftDay`: parse at midnight,
   * `setDate(getDate() + direction)`, then `toISOString().split("T")[0]`.
   * An unparsable text or a date outside the range of `Date` throws.
   */
  function ShiftDateText(text: string, direction: int): Result<string> {
    match ParseDateValue(text)
    case None => Err(InvalidTimeValue)
    case Some(d) =>
      if !InTimeRange(d) then Err(InvalidTimeValue)
      else
        var shifted := SetDate(d, d.day + direction);
        if !InTimeRange(shifted) then Err(InvalidTimeValue)
        else Ok(Split(ToIsoString(shifted), 'T')[0])
  }

  /** `getShiftedDate(value, direction)`: an absent or empty value means `todayIso()`. */
  function GetShiftedDate(value: Option<string>, today: Date, direction: int): Result<string> {
    var text := if value.None? || value.value == "" then FormatLocal(today) else value.value;
    ShiftDateText(text, direction)
  }

  /**
   * The shift succeeds exactly when the text denotes a date and both it and
   * the shifted date are in range; the result is the shifted date written
   * as `YYYY-MM-DD` (so it is a valid date that reads back).
   */
  lemma ShiftDateTextSpec(text: string, direction: int)
    ensures var p := ParseDateValue(text);
      && (ShiftDateText(text, direction).Ok? <==>
           p.Some? && InTimeRange(p.value) && InTimeRange(Shift(p.value, direction)))
      && (ShiftDateText(text, direction).Ok? ==>
           && ShiftDateText(text, direction).value == FormatIso(Shift(p.value, direction))
           && ParseDateValue(ShiftDateText(text, direction).value) == Some(Shift(p.value, direction)))
  {
    var p := ParseDateValue(text);
    if p.Some? {
      var d := p.value;
      SetDateIsShift(d, direction);
      var e := Shift(d, direction);
      IsoDatePart(e);
      if InTimeRange(e) {
        ParseFormatIso(e);
      }
    }
  }

  /** `getShiftedDate(d, 0)` is `d` for a valid `YYYY-MM-DD` date. */
  lemma ShiftByZero(s: string, today: Date)
    requires IsYmd(s) && ParseDateValue(s).Some? && InTimeRange(ParseDateValue(s).value)
    ensures GetShiftedDate(Some(s), today, 0) == Ok(s)
  {
    ShiftDateTextSpec(s, 0);
    FormatIsoOfParsed(s);
  }

  /** Shifting by `+1` and then by `-1` gives the original `YYYY-MM-DD` date back. */
  lemma ShiftForwardBack(s: string, today: Date)
    requires IsYmd(s) && GetShiftedDate(Some(s), today, 1).Ok?
    ensures GetShiftedDate(Some(GetShiftedDate(Some(s), today, 1).value), today, -1) == Ok(s)
  {
    ShiftDateTextSpec(s, 1);
    var d := ParseDateValue(s).value;
    var t := GetShiftedDate(Some(s), today, 1).value;
    assert t != "" by {
      assert ParseDateValue(t).Some?;
    }
    ShiftDateTextSpec(t, -1);
    ShiftInverse(d, 1);
    FormatIsoOfParsed(s);
  }

  /** With no value, today is shifted; shifting it by zero gives today's `todayIso()`. */
  lemma ShiftToday(today: Date, direction: int)
    requires Valid(today) && InTimeRange(today) && 1000 <= today.year <= 9999
    ensures GetShiftedDate(None, today, direction) == GetShiftedDate(Some(""), today, direction)
    ensures GetShiftedDate(None, today, direction) == ShiftDateText(FormatIso(today), direction)
    ensures GetShiftedDate(None, today, 0) == Ok(FormatLocal(today))
  {
    FormatLocalIsIso(today);
    ParseFormatIso(today);
    ShiftDateTextSpec(FormatIso(today), 0);
  }

  /** A shift between two dates in range, as `getShiftedDate` performs it on their texts. */
  lemma ShiftBetween(d: Date, k: int, e: Date, today: Date)
    requires Valid(d) && InTimeRange(d) && Valid(e) && InTimeRange(e) && Shift(d, k) == e
    ensures GetShiftedDate(Some(FormatIso(d)), today, k) == Ok(FormatIso(e))
  {
    ParseFormatIso(d);
    assert FormatIso(d) != "";
    ShiftDateTextSpec(FormatIso(d), k);
  }

  /**
   * The rollovers of `setDate` as `getShiftedDate` results: the last day of
   * a month to the 1st of the next, December 31 to January 1, and March 1
   * back to February 29 or 28.
   */
  lemma ShiftedDateRollovers(y: int, m: int, today: Date)
    requires 1 <= m < 12 && -271820 <= y <= 275759
    ensures GetShiftedDate(Some(FormatIso(Date(y, m, DaysInMonth(y, m)))), today, 1) == Ok(FormatIso(Date(y, m + 1, 1)))
    ensures GetShiftedDate(Some(FormatIso(Date(y, 12, 31))), today, 1) == Ok(FormatIso(Date(y + 1, 1, 1)))
    ensures GetShiftedDate(Some(FormatIso(Date(y, 3, 1))), today, -1) == Ok(FormatIso(Date(y, 2, if IsLeapYear(y) then 29 else 28)))
  {
    Rollovers(y, m);
    ShiftBetween(Date(y, m, DaysInMonth(y, m)), 1, Date(y, m + 1, 1), today);
    ShiftBetween(Date(y, 12, 31), 1, Date(y + 1, 1, 1), today);
    ShiftBetween(Date(y, 3, 1), -1, Date(y, 2, if IsLeapYear(y) then 29 else 28), today);
  }

  /** `toISOString` writes March 10, 2024 as `2024-03-10`. */
  lemma FormatIsoExample()
    ensures FormatIso(Date(2024, 3, 10)) == "2024-03-10"
  {
    ExampleDigits();
    assert "2024" + "-" + "03" + "-" + "10" == "2024-03-10";
  }

  lemma ExampleDigits()
    ensures Digits(2024, 4) == "2024" && Digits(3, 2) == "03" && Digits(10, 2) == "10"
  {
    YearDigits();
    assert Digits(3, 2) == Digits(0, 1) + "3";
    assert Digits(10, 2) == Digits(1, 1) + "0";
  }

  lemma YearDigits()
    ensures Digits(2024, 4) == "2024"
  {
    assert Digits(20, 2) == Digits(2, 1) + "0";
    assert Digits(202, 3) == Digits(20, 2) + "2";
    assert Digits(2024, 4) == Digits(202, 3) + "4";
  }
}
