/**
 * `RealLoadAsString.toDailyRealLoad`: one load given as a Jalali date-time
 * string and a number, checked and turned into a stored record.
 */
module RealLoadAsString {
  import opened Wrappers
  import opened Decimal
  import opened Jalali
  import opened RealLoadModel

  /**
   * The input record. `loadMWh` is what Python's `float()` makes of the
   * field: `None` when the conversion raises.
   */
  datatype RealLoadAsString = RealLoadAsString(datetime: string, loadMWh: Option<real>)

  /** The four ValueErrors, in the order the checks run. */
  datatype ConversionError =
    | BadDateTimeFormat
    | BadLoadNumber
    | ImplausibleYear
    | CreateFailed(reason: string)

  /** Gregorian years above this one mean the date was probably typed in Gregorian. */
  const MaxGregorianYear := 2100

  const InputSeparator := '/'
  const StoredSeparator := '-'

  const CreateFailedPrefix := "Failed to create RealLoadModel: "

  function Message(e: ConversionError): (m: string)
    ensures e.CreateFailed? ==> m == CreateFailedPrefix + e.reason
  {
    match e
    case BadDateTimeFormat => "The given datetime string is not in the proper '1401/01/23 12:00:00' format"
    case BadLoadNumber => "The given load is not a proper number."
    case ImplausibleYear => "The given date for load is incorrect. Probably it's in Jalali format."
    case CreateFailed(reason) => CreateFailedPrefix + reason
  }

  /** `replace(minute=0, second=0)`. */
  function TruncateToHour(t: DateTime): (r: DateTime)
    requires ValidDateTime(t)
    ensures ValidDateTime(r) && r.date == t.date && r.hour == t.hour && r.minute == 0 && r.second == 0
  {
    t.(minute := 0, second := 0)
  }

  /**
   * `toDailyRealLoad`. `gregorianYear` is the year of a Jalali date's
   * Gregorian counterpart (`togregorian().year`); `check` is the record's own
   * validation.
   */
  function ToDailyRealLoad(
    self: RealLoadAsString, locationId: int,
    gregorianYear: Date -> int, check: RealLoad -> Verdict): (r: Result<RealLoad, ConversionError>)
    ensures ParseDateTime(self.datetime, InputSeparator).None? <==> r == Failure(BadDateTimeFormat)
    ensures ParseDateTime(self.datetime, InputSeparator).Some? && self.loadMWh.None? <==> r == Failure(BadLoadNumber)
    ensures r == Failure(ImplausibleYear) <==>
      && ParseDateTime(self.datetime, InputSeparator).Some? && self.loadMWh.Some?
      && gregorianYear(ParseDateTime(self.datetime, InputSeparator).value.date) > MaxGregorianYear
    ensures r.Success? ==>
      && ParseDateTime(self.datetime, InputSeparator).Some?
      && gregorianYear(ParseDateTime(self.datetime, InputSeparator).value.date) <= MaxGregorianYear
      && r.value.locationId == Some(locationId) && Some(r.value.loadMWh) == self.loadMWh
      && r.value.source == None
      && r.value.datetime == FormatDateTime(ParseDateTime(self.datetime, InputSeparator).value, StoredSeparator)
      && check(r.value) == Accepted
    ensures r.Failure? && r.error.CreateFailed? <==>
      && ParseDateTime(self.datetime, InputSeparator).Some? && self.loadMWh.Some?
      && gregorianYear(ParseDateTime(self.datetime, InputSeparator).value.date) <= MaxGregorianYear
      && check(RealLoad(Some(locationId),
           FormatDateTime(ParseDateTime(self.datetime, InputSeparator).value, StoredSeparator),
           self.loadMWh.value, None)).Rejected?
    ensures r.Failure? && r.error.CreateFailed? ==>
      r.error.reason == check(RealLoad(Some(locationId),
           FormatDateTime(ParseDateTime(self.datetime, InputSeparator).value, StoredSeparator),
           self.loadMWh.value, None)).reason
  {
    match ParseDateTime(self.datetime, InputSeparator)
    case None => Failure(BadDateTimeFormat)
    case Some(parsed) =>
      var truncated := TruncateToHour(parsed);
      var loadYear := gregorianYear(truncated.date);
      var stored := FormatDateTime(parsed, StoredSeparator);
      match self.loadMWh
      case None => Failure(BadLoadNumber)
      case Some(load) =>
        if loadYear > MaxGregorianYear then Failure(ImplausibleYear)
        else
          var record := RealLoad(Some(locationId), stored, load, None);
          match check(record)
          case Rejected(reason) => Failure(CreateFailed(reason))
          case Accepted => Success(record)
  }

  /** Changing the two date separators of a `YYYY?MM?DD...` string. */
  lemma SwapSeparators(year: string, month: string, day: string, time: string, a: char, b: char)
    requires |year| == 4 && |month| == 2
    ensures var s := year + [a] + month + [a] + day + time;
      s[..4] + [b] + s[5..7] + [b] + s[8..] == year + [b] + month + [b] + day + time
  {
    var date := year + [a] + month + [a] + day;
    var s := date + time;
    assert s[..4] == year && s[5..7] == month;
    assert s[8..] == date[8..] + time;
    assert date[8..] == day;
  }

  /** The renderings of one date-time with two separators differ only in the separators. */
  lemma SeparatorsSwapped(t: DateTime, a: char, b: char)
    requires ValidDateTime(t)
    ensures var s := FormatDateTime(t, a);
      FormatDateTime(t, b) == s[..4] + [b] + s[5..7] + [b] + s[8..]
  {
    SwapSeparators(Pad(t.date.year, 4), Pad(t.date.month, 2), Pad(t.date.day, 2), FormatTime(t), a, b);
  }

  /** A date-time read with `/` and written with `-` keeps all its fields. */
  lemma Reseparated(s: string, t: DateTime)
    requires ParseDateTime(s, InputSeparator) == Some(t)
    ensures var stored := FormatDateTime(t, StoredSeparator);
      && ParseDateTime(stored, StoredSeparator) == Some(t)
      && stored == s[..4] + [StoredSeparator] + s[5..7] + [StoredSeparator] + s[8..]
  {
    ParseFormatDateTime(t, StoredSeparator);
    FormatParseDateTime(s, InputSeparator);
    SeparatorsSwapped(t, InputSeparator, StoredSeparator);
  }

  /**
   * The stored datetime keeps every field of the input, minutes and seconds
   * included: it reads back (with `-` between the date fields) as the very
   * date-time the input denotes, and as a string it is the input with its two
   * date separators replaced.
   */
  lemma StoredKeepsFields(
    self: RealLoadAsString, locationId: int,
    gregorianYear: Date -> int, check: RealLoad -> Verdict)
    requires ToDailyRealLoad(self, locationId, gregorianYear, check).Success?
    ensures var stored := ToDailyRealLoad(self, locationId, gregorianYear, check).value.datetime;
      && ParseDateTime(stored, StoredSeparator) == ParseDateTime(self.datetime, InputSeparator)
      && stored == self.datetime[..4] + "-" + self.datetime[5..7] + "-" + self.datetime[8..]
  {
    var t := ParseDateTime(self.datetime, InputSeparator).value;
    assert ToDailyRealLoad(self, locationId, gregorianYear, check).value.datetime == FormatDateTime(t, StoredSeparator);
    Reseparated(self.datetime, t);
  }

  /** The Gregorian year of a Jalali date lies 621 or 622 years later. */
  ghost predicate PlausibleConversion(gregorianYear: Date -> int)
  {
    forall d :: ValidDate(d) ==> d.year + 621 <= gregorianYear(d) <= d.year + 622
  }

  /**
   * The sanity check in Jalali terms: a well-formed input whose Jalali year is
   * 1480 or more (for instance a Gregorian date typed as if it were Jalali)
   * is rejected as implausible; one whose year is 1478 or less passes it.
   */
  lemma {:induction false} YearCheckInJalaliTerms(
    self: RealLoadAsString, locationId: int,
    gregorianYear: Date -> int, check: RealLoad -> Verdict)
    requires PlausibleConversion(gregorianYear)
    requires ParseDateTime(self.datetime, InputSeparator).Some? && self.loadMWh.Some?
    ensures var year := ParseDateTime(self.datetime, InputSeparator).value.date.year;
      && (year >= 1480 ==> ToDailyRealLoad(self, locationId, gregorianYear, check) == Failure(ImplausibleYear))
      && (year <= 1478 ==> ToDailyRealLoad(self, locationId, gregorianYear, check) != Failure(ImplausibleYear))
  {
    var d := ParseDateTime(self.datetime, InputSeparator).value.date;
    assert d.year + 621 <= gregorianYear(d) <= d.year + 622;
  }

  /**
   * With a well-formed date-time, a number, and a plausible year, the result
   * is exactly what the record validation makes of the record.
   */
  lemma {:induction false} AcceptedRecord(
    self: RealLoadAsString, locationId: int,
    gregorianYear: Date -> int, check: RealLoad -> Verdict)
    requires ParseDateTime(self.datetime, InputSeparator).Some? && self.loadMWh.Some?
    requires gregorianYear(ParseDateTime(self.datetime, InputSeparator).value.date) <= MaxGregorianYear
    ensures var t := ParseDateTime(self.datetime, InputSeparator).value;
      var record := RealLoad(Some(locationId), FormatDateTime(t, StoredSeparator), self.loadMWh.value, None);
      ToDailyRealLoad(self, locationId, gregorianYear, check)
        == if check(record).Accepted? then Success(record) else Failure(CreateFailed(check(record).reason))
  {
  }

  /** An input already in `YYYY-MM-DD` form is refused as malformed. */
  lemma DashedInputRefused(self: RealLoadAsString, locationId: int,
    gregorianYear: Date -> int, check: RealLoad -> Verdict)
    requires |self.datetime| == 19 && self.datetime[4] == '-'
    ensures ToDailyRealLoad(self, locationId, gregorianYear, check) == Failure(BadDateTimeFormat)
  {
  }
}
