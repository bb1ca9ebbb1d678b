/**
 * The local (Jalali, Solar Hijri) calendar as the service uses it through the
 * jdatetime library: dates and date-times, their ordering, one-day steps, and
 * the fixed `%Y/%m/%d` and `%Y/%m/%d %H:%M:%S` string formats (with `-` as
 * the date separator for the stored form).
 */
module Jalali {
  import opened Wrappers
  import opened Decimal

  datatype Date = Date(year: int, month: int, day: int)

  /** A date with a time of day; sub-second parts play no role in the core. */
  datatype DateTime = DateTime(date: Date, hour: int, minute: int, second: int)

  /** Years are rendered with four digits. */
  const MinYear := 1
  const MaxYear := 9999

  /** The arithmetic 33-year cycle of Jalali leap years. */
  predicate IsLeapYear(year: int)
  {
    year % 33 in {1, 5, 9, 13, 17, 22, 26, 30}
  }

  /** Farvardin..Shahrivar have 31 days, Mehr..Bahman 30, Esfand 29 or 30. */
  function DaysInMonth(year: int, month: int): (n: int)
    requires 1 <= month <= 12
    ensures 29 <= n <= 31
    ensures n == 31 <==> month <= 6
    ensures n == 30 <==> 7 <= month <= 11 || (month == 12 && IsLeapYear(year))
  {
    if month <= 6 then 31
    else if month <= 11 then 30
    else if IsLeapYear(year) then 30
    else 29
  }

  predicate ValidDate(d: Date)
  {
    && MinYear <= d.year <= MaxYear
    && 1 <= d.month <= 12
    && 1 <= d.day <= DaysInMonth(d.year, d.month)
  }

  predicate ValidDateTime(t: DateTime)
  {
    ValidDate(t.date) && 0 <= t.hour < 24 && 0 <= t.minute < 60 && 0 <= t.second < 60
  }

  const FirstDate := Date(MinYear, 1, 1)
  const LastDate := Date(MaxYear, 12, DaysInMonth(MaxYear, 12))

  /** Chronological order of dates: by year, then month, then day. */
  predicate DateLt(a: Date, b: Date)
  {
    || a.year < b.year
    || (a.year == b.year && (a.month < b.month || (a.month == b.month && a.day < b.day)))
  }

  predicate DateLe(a: Date, b: Date)
  {
    DateLt(a, b) || a == b
  }

  /** Chronological order of date-times: by date, then hour, minute, second. */
  predicate DateTimeLt(a: DateTime, b: DateTime)
  {
    || DateLt(a.date, b.date)
    || (a.date == b.date &&
        (|| a.hour < b.hour
         || (a.hour == b.hour && (a.minute < b.minute || (a.minute == b.minute && a.second < b.second)))))
  }

  /** The earlier of two dates. */
  function EarlierDate(a: Date, b: Date): (r: Date)
    ensures DateLe(r, a) && DateLe(r, b)
    ensures r == a || r == b
  {
    if DateLe(a, b) then a else b
  }

  /** The calendar day after `d`. */
  function NextDay(d: Date): (r: Date)
    requires ValidDate(d) && d != LastDate
    ensures ValidDate(r) && DateLt(d, r)
  {
    if d.day < DaysInMonth(d.year, d.month) then Date(d.year, d.month, d.day + 1)
    else if d.month < 12 then Date(d.year, d.month + 1, 1)
    else Date(d.year + 1, 1, 1)
  }

  /** The calendar day before `d`. */
  function PrevDay(d: Date): (r: Date)
    requires ValidDate(d) && d != FirstDate
    ensures ValidDate(r) && DateLt(r, d) && r != LastDate
    ensures NextDay(r) == d
  {
    if d.day > 1 then Date(d.year, d.month, d.day - 1)
    else if d.month > 1 then Date(d.year, d.month - 1, DaysInMonth(d.year, d.month - 1))
    else Date(d.year - 1, 12, DaysInMonth(d.year - 1, 12))
  }

  /** No valid date lies strictly between a date and the day after it. */
  lemma NextDayIsSuccessor(d: Date, e: Date)
    requires ValidDate(d) && d != LastDate && ValidDate(e)
    requires DateLt(d, e)
    ensures DateLe(NextDay(d), e)
  {
  }

  /** Adding `timedelta(days=1)`: the date moves on, the time of day stays. */
  function DayAfter(t: DateTime): (r: DateTime)
    requires ValidDateTime(t) && t.date != LastDate
    ensures ValidDateTime(r) && DateTimeLt(t, r)
    ensures r.date == NextDay(t.date) && (r.hour, r.minute, r.second) == (t.hour, t.minute, t.second)
  {
    t.(date := NextDay(t.date))
  }

  /** Adding `timedelta(days=-1)`. */
  function DayBefore(t: DateTime): (r: DateTime)
    requires ValidDateTime(t) && t.date != FirstDate
    ensures ValidDateTime(r) && DateTimeLt(r, t)
    ensures r.date == PrevDay(t.date) && (r.hour, r.minute, r.second) == (t.hour, t.minute, t.second)
  {
    t.(date := PrevDay(t.date))
  }

  /**
   * Taking `.date()` is monotone: the date of the earlier of two date-times is
   * the earlier of their dates.
   */
  lemma DateOfEarlier(a: DateTime, b: DateTime)
    ensures DateTimeLt(a, b) ==> DateLe(a.date, b.date)
    ensures !DateTimeLt(a, b) ==> DateLe(b.date, a.date)
    ensures (if DateTimeLt(a, b) then a else b).date == EarlierDate(a.date, b.date)
  {
  }

  // ---------------------------------------------------------------------------
  // String formats

  /** `strftime("%Y<sep>%m<sep>%d")`. */
  function FormatDate(d: Date, sep: char): (s: string)
    requires ValidDate(d)
    ensures |s| == 10
  {
    Pad(d.year, 4) + [sep] + Pad(d.month, 2) + [sep] + Pad(d.day, 2)
  }

  /** The `" %H:%M:%S"` tail of a rendered date-time. */
  function FormatTime(t: DateTime): (s: string)
    requires ValidDateTime(t)
    ensures |s| == 9
  {
    " " + Pad(t.hour, 2) + ":" + Pad(t.minute, 2) + ":" + Pad(t.second, 2)
  }

  /** `strftime("%Y<sep>%m<sep>%d %H:%M:%S")`. */
  function FormatDateTime(t: DateTime, sep: char): (s: string)
    requires ValidDateTime(t)
    ensures |s| == 19 && s[..10] == FormatDate(t.date, sep) && s[10..] == FormatTime(t)
  {
    FormatDate(t.date, sep) + FormatTime(t)
  }

  /**
   * `strptime(s, "%Y<sep>%m<sep>%d")`: the fields must be present at their full
   * width and must name a date of the calendar; anything else is `None`
   * (strptime's ValueError).
   */
  function ParseDate(s: string, sep: char): (r: Option<Date>)
    ensures r.Some? ==> ValidDate(r.value)
  {
    if |s| == 10 && s[4] == sep && s[7] == sep
       && AllDigits(s[..4]) && AllDigits(s[5..7]) && AllDigits(s[8..])
    then
      var d := Date(Value(s[..4]), Value(s[5..7]), Value(s[8..]));
      if ValidDate(d) then Some(d) else None
    else None
  }

  /** `strptime(s, "%Y<sep>%m<sep>%d %H:%M:%S")`. */
  function ParseDateTime(s: string, sep: char): (r: Option<DateTime>)
    ensures r.Some? ==> ValidDateTime(r.value)
  {
    if |s| == 19 && s[10] == ' ' && s[13] == ':' && s[16] == ':'
       && AllDigits(s[11..13]) && AllDigits(s[14..16]) && AllDigits(s[17..])
       && ParseDate(s[..10], sep).Some?
    then
      var t := DateTime(ParseDate(s[..10], sep).value, Value(s[11..13]), Value(s[14..16]), Value(s[17..]));
      if ValidDateTime(t) then Some(t) else None
    else None
  }

  lemma FormatDateParts(d: Date, sep: char)
    requires ValidDate(d)
    ensures var s := FormatDate(d, sep);
      s[..4] == Pad(d.year, 4) && s[4] == sep && s[5..7] == Pad(d.month, 2)
      && s[7] == sep && s[8..] == Pad(d.day, 2)
  {
  }

  /** Parsing a rendered date gives the date back. */
  lemma {:induction false} ParseFormatDate(d: Date, sep: char)
    requires ValidDate(d) && !IsDigit(sep)
    ensures ParseDate(FormatDate(d, sep), sep) == Some(d)
  {
    FormatDateParts(d, sep);
    ValueOfPad(d.year, 4);
    ValueOfPad(d.month, 2);
    ValueOfPad(d.day, 2);
  }

  /** A string that parses as a date is the rendering of that date. */
  lemma {:induction false} FormatParseDate(s: string, sep: char)
    requires ParseDate(s, sep).Some?
    ensures FormatDate(ParseDate(s, sep).value, sep) == s
  {
    PadOfValue(s[..4]);
    PadOfValue(s[5..7]);
    PadOfValue(s[8..]);
    assert s == s[..4] + [s[4]] + s[5..7] + [s[7]] + s[8..];
  }

  lemma FormatTimeParts(t: DateTime)
    requires ValidDateTime(t)
    ensures var s := FormatTime(t);
      s[0] == ' ' && s[1..3] == Pad(t.hour, 2) && s[3] == ':' && s[4..6] == Pad(t.minute, 2)
      && s[6] == ':' && s[7..] == Pad(t.second, 2)
  {
  }

  /** Parsing a rendered date-time gives the date-time back. */
  lemma {:induction false} ParseFormatDateTime(t: DateTime, sep: char)
    requires ValidDateTime(t) && !IsDigit(sep)
    ensures ParseDateTime(FormatDateTime(t, sep), sep) == Some(t)
  {
    var s := FormatDateTime(t, sep);
    FormatTimeParts(t);
    assert s[11..13] == s[10..][1..3] && s[14..16] == s[10..][4..6] && s[17..] == s[10..][7..];
    ParseFormatDate(t.date, sep);
    ValueOfPad(t.hour, 2);
    ValueOfPad(t.minute, 2);
    ValueOfPad(t.second, 2);
  }

  /** A string that parses as a date-time is the rendering of that date-time. */
  lemma {:induction false} FormatParseDateTime(s: string, sep: char)
    requires ParseDateTime(s, sep).Some?
    ensures FormatDateTime(ParseDateTime(s, sep).value, sep) == s
  {
    var t := ParseDateTime(s, sep).value;
    FormatParseDate(s[..10], sep);
    PadOfValue(s[11..13]);
    PadOfValue(s[14..16]);
    PadOfValue(s[17..]);
    assert s[10..] == [s[10]] + s[11..13] + [s[13]] + s[14..16] + [s[16]] + s[17..];
    assert FormatTime(t) == s[10..];
    assert s == s[..10] + s[10..];
  }
}
