/**
 * `generateNextDate`: the window of dates in which a location may still
 * submit loads, from the first and last dates it has loads for and the
 * current time. The database read and the clock are inputs.
 */
module NextDatesRoute {
  import opened Wrappers
  import opened Jalali
  import opened RealLoadNextDates

  /**
   * The location's load dates as the database reports them, already in the
   * local calendar: the first as a date, the last as a date-time.
   */
  datatype DateSummary = DateSummary(firstDate: Date, lastDate: DateTime)

  /** Outcome of the dates query: it raised, it found no row, or it found one. */
  datatype DatesRead = ReadFailed | NoDates | Found(summary: DateSummary)

  /** Both failures are reported as HTTP 500 (internal server error). */
  datatype RouteError = DatesUnavailable | WindowRejected(cause: CreateError)

  /** The HTTP status the route raises for an error. */
  function StatusCode(e: RouteError): int
  {
    500
  }

  /** The inputs lie inside the calendar's range, one day away from its ends. */
  predicate Admissible(read: DatesRead, now: DateTime)
  {
    && ValidDateTime(now) && now.date != FirstDate
    && (read.Found? ==>
          ValidDate(read.summary.firstDate) && ValidDateTime(read.summary.lastDate)
          && read.summary.lastDate.date != LastDate)
  }

  /** `now + timedelta(days=-1)`, as a date. */
  function Yesterday(now: DateTime): Date
    requires ValidDateTime(now) && now.date != FirstDate
  {
    PrevDay(now.date)
  }

  /**
   * The six dates handed to `create`: the first missing day is the day after
   * the last load, held back to yesterday; both intervals start at the first
   * load and end yesterday.
   */
  function ProposedWindow(s: DateSummary, now: DateTime): (w: Window)
    requires Admissible(Found(s), now)
    ensures ValidWindow(w)
    ensures w.fromDefault == EarlierDate(NextDay(s.lastDate.date), Yesterday(now))
    ensures DateLe(w.fromDefault, Yesterday(now))
    ensures w.fromStart == w.toStart == s.firstDate
    ensures w.toDefault == w.fromEnd == w.toEnd == Yesterday(now)
  {
    var firstMissing := DayAfter(s.lastDate);
    var yesterday := DayBefore(now);
    var fromDefault := if DateTimeLt(yesterday, firstMissing) then yesterday else firstMissing;
    DateOfEarlier(yesterday, firstMissing);
    Window(s.firstDate, fromDefault.date, yesterday.date, s.firstDate, yesterday.date, yesterday.date)
  }

  function GenerateNextDate(read: DatesRead, now: DateTime): (r: Result<Option<NextDates>, RouteError>)
    requires Admissible(read, now)
    ensures read == ReadFailed <==> r == Failure(DatesUnavailable)
    ensures read == NoDates <==> r == Success(None)
  {
    match read
    case ReadFailed => Failure(DatesUnavailable)
    case NoDates => Success(None)
    case Found(s) =>
      match Create(ProposedWindow(s, now))
      case Failure(e) => Failure(WindowRejected(e))
      case Success(n) => Success(Some(n))
  }

  /**
   * Every failure of the route is an internal error (500); when `create`
   * refused the window, the error carries `create`'s own error.
   */
  lemma RouteFailureStatus(read: DatesRead, now: DateTime)
    requires Admissible(read, now)
    ensures var r := GenerateNextDate(read, now);
      r.Failure? ==>
        && StatusCode(r.error) == 500
        && (r.error.WindowRejected? <==> read.Found? && Create(ProposedWindow(read.summary, now)).Failure?)
        && (r.error.WindowRejected? ==> Create(ProposedWindow(read.summary, now)) == Failure(r.error.cause))
  {
  }

  /**
   * When the data is current up to yesterday (or beyond), the default "from"
   * date collapses onto yesterday, the default "to" date.
   */
  lemma WindowCollapses(s: DateSummary, now: DateTime)
    requires Admissible(Found(s), now)
    requires DateLe(Yesterday(now), NextDay(s.lastDate.date))
    ensures ProposedWindow(s, now).fromDefault == ProposedWindow(s, now).toDefault == Yesterday(now)
  {
  }

  /**
   * A window is built exactly when the first load date is not after the
   * default "from" date; otherwise `create` rejects it on its second check and
   * the route fails with an internal error.
   */
  lemma {:induction false} WindowBuiltIff(s: DateSummary, now: DateTime)
    requires Admissible(Found(s), now)
    ensures var w := ProposedWindow(s, now);
      GenerateNextDate(Found(s), now).Success? <==> DateLe(s.firstDate, w.fromDefault)
    ensures var w := ProposedWindow(s, now);
      !DateLe(s.firstDate, w.fromDefault) ==>
        GenerateNextDate(Found(s), now) == Failure(WindowRejected(FromOrderViolated))
  {
    var w := ProposedWindow(s, now);
    if DateLe(s.firstDate, w.fromDefault) {
      assert DateLe(w.toStart, w.toDefault);
      assert Ordered(w);
    }
  }

  /**
   * With the first load no later than the last one and no later than
   * yesterday, a window is returned, and its six strings parse back to dates
   * satisfying all of `create`'s invariants.
   */
  lemma {:induction false} WindowReturned(s: DateSummary, now: DateTime)
    requires Admissible(Found(s), now)
    requires DateLe(s.firstDate, s.lastDate.date) && DateLe(s.firstDate, Yesterday(now))
    ensures var r := GenerateNextDate(Found(s), now);
      && r.Success? && r.value.Some?
      && ParseFields(r.value.value) == Some(ProposedWindow(s, now))
      && Ordered(ProposedWindow(s, now))
  {
    var w := ProposedWindow(s, now);
    assert DateLt(s.lastDate.date, NextDay(s.lastDate.date));
    assert DateLe(s.firstDate, w.fromDefault);
    WindowBuiltIff(s, now);
    CreateRoundTrip(w);
  }

  /**
   * The worked example: first load 1400/01/01, last 1401/01/05, today
   * 1401/01/10. The six strings returned read back as 1400/01/01,
   * 1401/01/06, 1401/01/09, 1400/01/01, 1401/01/09 and 1401/01/09.
   */
  lemma ExampleWindow()
    ensures var r := GenerateNextDate(
      Found(DateSummary(Date(1400, 1, 1), DateTime(Date(1401, 1, 5), 0, 0, 0))),
      DateTime(Date(1401, 1, 10), 12, 30, 0));
      && r.Success? && r.value.Some?
      && ParseFields(r.value.value) == Some(Window(
        Date(1400, 1, 1), Date(1401, 1, 6), Date(1401, 1, 9),
        Date(1400, 1, 1), Date(1401, 1, 9), Date(1401, 1, 9)))
  {
    var s := DateSummary(Date(1400, 1, 1), DateTime(Date(1401, 1, 5), 0, 0, 0));
    var now := DateTime(Date(1401, 1, 10), 12, 30, 0);
    var w := Window(Date(1400, 1, 1), Date(1401, 1, 6), Date(1401, 1, 9), Date(1400, 1, 1), Date(1401, 1, 9), Date(1401, 1, 9));
    assert ProposedWindow(s, now) == w;
    assert Create(w).Success?;
    CreateRoundTrip(w);
  }
}
