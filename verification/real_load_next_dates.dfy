/**
 * `RealLoadNextDates`: the frozen model of the interval in which loads may be
 * inserted, built by `create` from six dates after three ordering checks.
 */
module RealLoadNextDates {
  import opened Wrappers
  import opened Decimal
  import opened Jalali

  /** The six dates `create` receives. */
  datatype Window = Window(
    fromStart: Date, fromDefault: Date, fromEnd: Date,
    toStart: Date, toDefault: Date, toEnd: Date)

  /** The built model: each date rendered as `%Y/%m/%d`. A datatype value is immutable, as the frozen model is. */
  datatype NextDates = NextDates(
    fromStart: string, fromDefault: string, fromEnd: string,
    toStart: string, toDefault: string, toEnd: string)

  /** The three ValueErrors of `create`, in the order they are checked. */
  datatype CreateError = ToEndBeforeFromEnd | FromOrderViolated | ToOrderViolated

  const DateSeparator := '/'

  /** The text each ValueError carries. */
  function Message(e: CreateError): string
  {
    match e
    case ToEndBeforeFromEnd => "from end date can't be greater than to end date."
    case FromOrderViolated => "The condition 'from_start <= from_default <= from_end' is not satisfied. "
    case ToOrderViolated => "The condition 'to_start <= to_default <= to_end' is not satisfied. "
  }

  /** The three texts are pairwise different, so the text of a ValueError tells which check failed. */
  lemma MessagesDistinct(a: CreateError, b: CreateError)
    requires Message(a) == Message(b)
    ensures a == b
  {
  }

  predicate ValidWindow(w: Window)
  {
    && ValidDate(w.fromStart) && ValidDate(w.fromDefault) && ValidDate(w.fromEnd)
    && ValidDate(w.toStart) && ValidDate(w.toDefault) && ValidDate(w.toEnd)
  }

  /** The invariants a built model's dates satisfy. */
  predicate Ordered(w: Window)
  {
    && DateLe(w.fromEnd, w.toEnd)
    && DateLe(w.fromStart, w.fromDefault) && DateLe(w.fromDefault, w.fromEnd)
    && DateLe(w.toStart, w.toDefault) && DateLe(w.toDefault, w.toEnd)
  }

  /**
   * `RealLoadNextDates.create`: the first violated check decides the error;
   * when none is violated, the six dates are rendered field by field.
   */
  function Create(w: Window): (r: Result<NextDates, CreateError>)
    requires ValidWindow(w)
    ensures r.Success? <==> Ordered(w)
    ensures r == Failure(ToEndBeforeFromEnd) <==> DateLt(w.toEnd, w.fromEnd)
    ensures r == Failure(FromOrderViolated) <==>
      DateLe(w.fromEnd, w.toEnd) && !(DateLe(w.fromStart, w.fromDefault) && DateLe(w.fromDefault, w.fromEnd))
    ensures r == Failure(ToOrderViolated) <==>
      && DateLe(w.fromEnd, w.toEnd) && DateLe(w.fromStart, w.fromDefault) && DateLe(w.fromDefault, w.fromEnd)
      && !(DateLe(w.toStart, w.toDefault) && DateLe(w.toDefault, w.toEnd))
  {
    if DateLt(w.toEnd, w.fromEnd) then Failure(ToEndBeforeFromEnd)
    else if !(DateLe(w.fromStart, w.fromDefault) && DateLe(w.fromDefault, w.fromEnd)) then Failure(FromOrderViolated)
    else if !(DateLe(w.toStart, w.toDefault) && DateLe(w.toDefault, w.toEnd)) then Failure(ToOrderViolated)
    else Success(NextDates(
      FormatDate(w.fromStart, DateSeparator), FormatDate(w.fromDefault, DateSeparator),
      FormatDate(w.fromEnd, DateSeparator), FormatDate(w.toStart, DateSeparator),
      FormatDate(w.toDefault, DateSeparator), FormatDate(w.toEnd, DateSeparator)))
  }

  /** `s` is `d` as zero-padded `YYYY/MM/DD`. */
  predicate RendersAs(s: string, d: Date)
    requires ValidDate(d)
  {
    && |s| == 10 && s[4] == '/' && s[7] == '/'
    && s[..4] == Pad(d.year, 4) && s[5..7] == Pad(d.month, 2) && s[8..] == Pad(d.day, 2)
  }

  /** The six strings of a model, parsed back with the same format. */
  function ParseFields(n: NextDates): Option<Window>
  {
    var fs := ParseDate(n.fromStart, DateSeparator);
    var fd := ParseDate(n.fromDefault, DateSeparator);
    var fe := ParseDate(n.fromEnd, DateSeparator);
    var ts := ParseDate(n.toStart, DateSeparator);
    var td := ParseDate(n.toDefault, DateSeparator);
    var te := ParseDate(n.toEnd, DateSeparator);
    if fs.Some? && fd.Some? && fe.Some? && ts.Some? && td.Some? && te.Some?
    then Some(Window(fs.value, fd.value, fe.value, ts.value, td.value, te.value))
    else None
  }

  /**
   * Every field of a built model is its date as zero-padded `YYYY/MM/DD`, and
   * parsing the fields with `%Y/%m/%d` recovers exactly the six dates given.
   */
  lemma {:induction false} CreateRoundTrip(w: Window)
    requires ValidWindow(w) && Create(w).Success?
    ensures ParseFields(Create(w).value) == Some(w)
    ensures var n := Create(w).value;
      && RendersAs(n.fromStart, w.fromStart) && RendersAs(n.fromDefault, w.fromDefault)
      && RendersAs(n.fromEnd, w.fromEnd) && RendersAs(n.toStart, w.toStart)
      && RendersAs(n.toDefault, w.toDefault) && RendersAs(n.toEnd, w.toEnd)
  {
    ParseFormatDate(w.fromStart, DateSeparator);
    ParseFormatDate(w.fromDefault, DateSeparator);
    ParseFormatDate(w.fromEnd, DateSeparator);
    ParseFormatDate(w.toStart, DateSeparator);
    ParseFormatDate(w.toDefault, DateSeparator);
    ParseFormatDate(w.toEnd, DateSeparator);
    FormatDateParts(w.fromStart, DateSeparator);
    FormatDateParts(w.fromDefault, DateSeparator);
    FormatDateParts(w.fromEnd, DateSeparator);
    FormatDateParts(w.toStart, DateSeparator);
    FormatDateParts(w.toDefault, DateSeparator);
    FormatDateParts(w.toEnd, DateSeparator);
  }

  /** Distinct date sextuples give distinct models: each field determines its argument. */
  lemma {:induction false} CreateInjective(v: Window, w: Window)
    requires ValidWindow(v) && ValidWindow(w)
    requires Create(v).Success? && Create(w).Success?
    requires Create(v) == Create(w)
    ensures v == w
  {
    CreateRoundTrip(v);
    CreateRoundTrip(w);
  }

  /** Every built model's dates, read back, satisfy the three invariants. */
  lemma {:induction false} BuiltModelIsOrdered(w: Window)
    requires ValidWindow(w) && Create(w).Success?
    ensures ParseFields(Create(w).value).Some? && Ordered(ParseFields(Create(w).value).value)
  {
    CreateRoundTrip(w);
  }
}
