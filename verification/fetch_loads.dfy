/**
 * `format_loads`: stored hourly records regrouped into one row per date with
 * 24 hour slots `H0`..`H23`, each 0.0 unless a positive load was stored for it.
 */
module FetchLoads {
  import opened Wrappers
  import opened Decimal
  import opened RealLoadModel
  import DefineLoadsAsExcel

  /**
   * A record as read back from the database. A field is `None` when the
   * object lacks that attribute (`hasattr` is false).
   */
  datatype StoredLoad = StoredLoad(datetime: Option<string>, loadMWh: Option<real>)

  /** One output row: `{"date": date, "H0": .., "H23": ..}`; slot `H<n>` is `hours[n]`. */
  datatype DayRow = DayRow(date: string, hours: map<int, real>)

  /** `int(datetime[11:13])` raised ValueError on this text. */
  datatype FormatError = BadHour(text: string)


  /** The slots of a fresh day: every hour 0..23 at 0.0. */
  const EmptyDay: map<int, real> := map h | 0 <= h < HoursPerDay :: 0.0

  /** `s[:10]`. */
  function DatePart(s: string): (d: string)
    ensures |d| == if |s| <= 10 then |s| else 10
    ensures d == s[..|d|]
  {
    if |s| <= 10 then s else s[..10]
  }

  /** `s[11:13]`: at most two characters. */
  function HourText(s: string): (t: string)
    ensures |t| <= 2
  {
    if |s| <= 11 then "" else if |s| <= 13 then s[11..] else s[11..13]
  }

  /** The ASCII whitespace `int()` strips around its digits. */
  predicate IsSpace(c: char)
  {
    c == ' ' || c == '\t' || c == '\n' || c == '\r' || c == '\U{B}' || c == '\U{C}'
  }

  /**
   * `int(t)` on a text of at most two characters: two digits, or one digit
   * alone, after a sign, or beside a blank. Anything else raises ValueError.
   */
  function ParseHour(t: string): (r: Option<int>)
    requires |t| <= 2
    ensures r.Some? ==> -9 <= r.value <= 99
  {
    if |t| == 1 then
      if IsDigit(t[0]) then Some(DigitValue(t[0])) else None
    else if |t| == 2 then
      if IsDigit(t[0]) && IsDigit(t[1]) then Some(10 * DigitValue(t[0]) + DigitValue(t[1]))
      else if IsDigit(t[0]) && IsSpace(t[1]) then Some(DigitValue(t[0]))
      else if (IsSpace(t[0]) || t[0] == '+') && IsDigit(t[1]) then Some(DigitValue(t[1]))
      else if t[0] == '-' && IsDigit(t[1]) then Some(0 - DigitValue(t[1]) as int)
      else None
    else None
  }

  /** A two-digit hour, as strftime's `%H` writes it, reads back as that hour. */
  lemma ParseHourOfPad(h: nat)
    requires h < 100
    ensures ParseHour(Pad(h, 2)) == Some(h)
  {
    var tens, units := h / 10, h % 10;
    assert h == 10 * tens + units && tens < 10 && units < 10;
    assert Pad(h, 2) == Pad(tens, 1) + [DigitChar(units)];
    assert Pad(tens, 1) == Pad(tens / 10, 0) + [DigitChar(tens % 10)];
    assert Pad(h, 2) == [DigitChar(tens), DigitChar(units)];
    assert DigitValue(DigitChar(tens)) == tens && DigitValue(DigitChar(units)) == units;
  }

  /** The timestamp the Excel route stores for hour `h` of a date reads back here as that date and hour. */
  lemma StampReadsBack(date: string, h: nat)
    requires |date| == 10 && h < HoursPerDay
    ensures DatePart(DefineLoadsAsExcel.HourStamp(date, h)) == date
    ensures ParseHour(HourText(DefineLoadsAsExcel.HourStamp(date, h))) == Some(h)
  {
    var s := DefineLoadsAsExcel.HourStamp(date, h);
    assert HourText(s) == Pad(h, 2);
    ParseHourOfPad(h);
  }

  /** The record has both attributes the loop looks at. */
  predicate HasFields(x: StoredLoad)
  {
    x.datetime.Some? && x.loadMWh.Some?
  }

  /** The record has both attributes and an hour `int()` can read. */
  predicate Readable(x: StoredLoad)
  {
    HasFields(x) && ParseHour(HourText(x.datetime.value)).Some?
  }

  function DateOf(x: StoredLoad): string
    requires HasFields(x)
  {
    DatePart(x.datetime.value)
  }

  function HourOf(x: StoredLoad): int
    requires Readable(x)
  {
    ParseHour(HourText(x.datetime.value)).value
  }

  /** The record writes a slot: it is readable and its load is positive. */
  predicate Contributes(x: StoredLoad)
  {
    Readable(x) && x.loadMWh.value > 0.0
  }

  /** The record writes a slot of date `d`. */
  predicate ContributesTo(x: StoredLoad, d: string)
  {
    Contributes(x) && DateOf(x) == d
  }

  /** The state of the loop: dates in insertion order, and the slots of each date. */
  datatype Table = Table(order: seq<string>, days: map<string, map<int, real>>)

  const EmptyTable := Table([], map[])

  /** `date_loads[date][f"H{hour}"] = load`, the date's slots created on first use. */
  function Put(t: Table, date: string, hour: int, load: real): Table
  {
    var day := if date in t.days then t.days[date] else EmptyDay;
    Table(if date in t.days then t.order else t.order + [date], t.days[date := day[hour := load]])
  }

  /** One iteration of the loop. */
  function Step(t: Table, x: StoredLoad): Result<Table, FormatError>
  {
    if !HasFields(x) then Success(t)
    else if !Readable(x) then Failure(BadHour(HourText(x.datetime.value)))
    else if x.loadMWh.value > 0.0 then Success(Put(t, DateOf(x), HourOf(x), x.loadMWh.value))
    else Success(t)
  }

  /** The loop over `xs`, from table `t`; the first exception ends it. */
  function Accumulate(t: Table, xs: seq<StoredLoad>): Result<Table, FormatError>
    decreases |xs|
  {
    if xs == [] then Success(t)
    else match Step(t, xs[0])
      case Failure(e) => Failure(e)
      case Success(t') => Accumulate(t', xs[1..])
  }

  function Run(xs: seq<StoredLoad>): Result<Table, FormatError>
  {
    Accumulate(EmptyTable, xs)
  }

  /** The final list comprehension: one row per date, in the table's order. */
  function Rows(t: Table): (rows: seq<DayRow>)
    ensures |rows| == |t.order|
    ensures forall i :: 0 <= i < |rows| ==> rows[i].date == t.order[i]
  {
    seq(|t.order|, i requires 0 <= i < |t.order| =>
      DayRow(t.order[i], if t.order[i] in t.days then t.days[t.order[i]] else EmptyDay))
  }

  /** What `format_loads(loads)` returns, or the exception it raises. */
  function FormatLoadsSpec(xs: seq<StoredLoad>): Result<seq<DayRow>, FormatError>
  {
    match Run(xs)
    case Failure(e) => Failure(e)
    case Success(t) => Success(Rows(t))
  }

  /** `format_loads`: the loop fills a dictionary of dates in place, then the rows are built from it. */
  method FormatLoads(xs: seq<StoredLoad>) returns (r: Result<seq<DayRow>, FormatError>)
    ensures r == FormatLoadsSpec(xs)
  {
    var order: seq<string> := [];
    var days: map<string, map<int, real>> := map[];
    for i := 0 to |xs|
      invariant Accumulate(Table(order, days), xs[i..]) == Run(xs)
    {
      assert xs[i..][0] == xs[i] && xs[i..][1..] == xs[i + 1..];
      var x := xs[i];
      ghost var before := Table(order, days);
      if x.datetime.Some? && x.loadMWh.Some? {
        var date := DatePart(x.datetime.value);
        var hour := ParseHour(HourText(x.datetime.value));
        if hour.None? {
          return Failure(BadHour(HourText(x.datetime.value)));
        }
        if x.loadMWh.value > 0.0 {
          if date !in days {
            order := order + [date];
            days := days[date := EmptyDay];
          }
          days := days[date := days[date][hour.value := x.loadMWh.value]];
          assert days == before.days[date := days[date]];
        }
      }
      assert Step(before, x) == Success(Table(order, days));
    }
    assert xs[|xs|..] == [];
    return Success(Rows(Table(order, days)));
  }

  // ---------------------------------------------------------------------------
  // Reference definitions: what the rows should hold, read off the input

  /** The dates of the contributing records, in input order, repeats kept. */
  function ContributingDates(xs: seq<StoredLoad>): seq<string>
  {
    if xs == [] then []
    else
      var x := xs[|xs| - 1];
      ContributingDates(xs[..|xs| - 1]) + (if Contributes(x) then [DateOf(x)] else [])
  }

  /** `s` with every repeat dropped, each element kept where it first occurs. */
  function FirstOccurrences(s: seq<string>): (r: seq<string>)
    ensures forall d :: d in r <==> d in s
    ensures forall i, j :: 0 <= i < j < |r| ==> r[i] != r[j]
  {
    if s == [] then []
    else
      var init := s[..|s| - 1];
      assert forall d :: d in s <==> d in init || d == s[|s| - 1];
      if s[|s| - 1] in init then FirstOccurrences(init) else FirstOccurrences(init) + [s[|s| - 1]]
  }

  /** In `s`, an occurrence of `a` comes before any occurrence of `b`. */
  predicate ComesFirst(s: seq<string>, a: string, b: string)
  {
    exists p :: 0 <= p < |s| && s[p] == a && forall q :: 0 <= q <= p ==> s[q] != b
  }

  /** `FirstOccurrences` keeps the order in which the elements first occur. */
  lemma {:induction false} FirstOccurrencesOrder(s: seq<string>)
    ensures forall i, j :: 0 <= i < j < |FirstOccurrences(s)| ==> ComesFirst(s, FirstOccurrences(s)[i], FirstOccurrences(s)[j])
  {
    if s != [] {
      var init, c := s[..|s| - 1], s[|s| - 1];
      FirstOccurrencesOrder(init);
      var r, r' := FirstOccurrences(s), FirstOccurrences(init);
      assert r == r' || r == r' + [c];
      forall i, j | 0 <= i < j < |r| ensures ComesFirst(s, r[i], r[j]) {
        assert r[i] == r'[i];
        if j < |r'| {
          assert r[j] == r'[j];
          assert ComesFirst(init, r'[i], r'[j]);
          var p :| 0 <= p < |init| && init[p] == r[i] && forall q :: 0 <= q <= p ==> init[q] != r[j];
          assert s[p] == r[i] && forall q :: 0 <= q <= p ==> s[q] == init[q];
        } else {
          assert c !in init && r[j] == c;
          assert r[i] in r';
          var p :| 0 <= p < |init| && init[p] == r[i];
          forall q | 0 <= q <= p ensures s[q] != c {
            assert s[q] == init[q];
          }
          assert s[p] == r[i];
        }
      }
    }
  }

  /** The record at `x` is positive and stored for this date and hour. */
  predicate WritesSlot(x: StoredLoad, d: string, h: int)
  {
    ContributesTo(x, d) && HourOf(x) == h
  }

  /** The load of the last record, in input order, that writes slot `h` of date `d`. */
  function LastLoad(xs: seq<StoredLoad>, d: string, h: int): Option<real>
  {
    if xs == [] then None
    else
      var x := xs[|xs| - 1];
      if WritesSlot(x, d, h) then Some(x.loadMWh.value) else LastLoad(xs[..|xs| - 1], d, h)
  }

  // ---------------------------------------------------------------------------
  // The reference definitions, characterised by quantifiers over the input

  /** A contributing record puts its date among the contributing dates. */
  lemma {:induction false} ContributingDatesHas(xs: seq<StoredLoad>, d: string, k: nat)
    requires k < |xs| && ContributesTo(xs[k], d)
    ensures d in ContributingDates(xs)
  {
    var n := |xs| - 1;
    if k < n {
      ContributingDatesHas(xs[..n], d, k);
    }
  }

  /** Every contributing date comes from a contributing record. */
  lemma {:induction false} ContributingDatesWitness(xs: seq<StoredLoad>, d: string) returns (k: nat)
    requires d in ContributingDates(xs)
    ensures k < |xs| && ContributesTo(xs[k], d)
  {
    var n := |xs| - 1;
    if ContributesTo(xs[n], d) {
      k := n;
    } else {
      k := ContributingDatesWitness(xs[..n], d);
    }
  }

  lemma ContributingDatesSpec(xs: seq<StoredLoad>, d: string)
    ensures d in ContributingDates(xs) <==> exists k :: 0 <= k < |xs| && ContributesTo(xs[k], d)
  {
    if d in ContributingDates(xs) {
      var k := ContributingDatesWitness(xs, d);
    }
    forall k | 0 <= k < |xs| && ContributesTo(xs[k], d) ensures d in ContributingDates(xs) {
      ContributingDatesHas(xs, d, k);
    }
  }

  /** A record writing the slot means `LastLoad` finds one. */
  lemma {:induction false} LastLoadFound(xs: seq<StoredLoad>, d: string, h: int, k: nat)
    requires k < |xs| && WritesSlot(xs[k], d, h)
    ensures LastLoad(xs, d, h).Some?
  {
    var n := |xs| - 1;
    if k < n && !WritesSlot(xs[n], d, h) {
      LastLoadFound(xs[..n], d, h, k);
    }
  }

  /** What `LastLoad` finds is the load of a record writing the slot, after which none does. */
  lemma {:induction false} LastLoadWitness(xs: seq<StoredLoad>, d: string, h: int) returns (k: nat)
    requires LastLoad(xs, d, h).Some?
    ensures k < |xs| && WritesSlot(xs[k], d, h) && xs[k].loadMWh.value == LastLoad(xs, d, h).value
    ensures forall j :: k < j < |xs| ==> !WritesSlot(xs[j], d, h)
  {
    var n := |xs| - 1;
    if WritesSlot(xs[n], d, h) {
      k := n;
    } else {
      k := LastLoadWitness(xs[..n], d, h);
      forall j | k < j < |xs| ensures !WritesSlot(xs[j], d, h) {
        if j < n {
          assert xs[j] == xs[..n][j];
        }
      }
    }
  }

  /**
   * `LastLoad` is the load of a record that writes the slot and after which
   * no record writes it; it is `None` exactly when no record writes it.
   */
  lemma LastLoadSpec(xs: seq<StoredLoad>, d: string, h: int)
    ensures LastLoad(xs, d, h).None? <==> forall k :: 0 <= k < |xs| ==> !WritesSlot(xs[k], d, h)
    ensures LastLoad(xs, d, h).Some? ==>
      exists k :: 0 <= k < |xs| && WritesSlot(xs[k], d, h) && xs[k].loadMWh.value == LastLoad(xs, d, h).value
        && forall j :: k < j < |xs| ==> !WritesSlot(xs[j], d, h)
  {
    if LastLoad(xs, d, h).Some? {
      var k := LastLoadWitness(xs, d, h);
    }
    forall k | 0 <= k < |xs| && WritesSlot(xs[k], d, h) ensures LastLoad(xs, d, h).Some? {
      LastLoadFound(xs, d, h, k);
    }
  }

  /** No slot of a date is written unless the date has a contributing record. */
  lemma {:induction false} LastLoadDate(xs: seq<StoredLoad>, d: string, h: int)
    requires d !in ContributingDates(xs)
    ensures LastLoad(xs, d, h).None?
  {
    if xs != [] {
      LastLoadDate(xs[..|xs| - 1], d, h);
    }
  }

  // ---------------------------------------------------------------------------
  // The loop, against the reference definitions

  lemma {:induction false} AccumulateAppend(t: Table, xs: seq<StoredLoad>, ys: seq<StoredLoad>)
    ensures Accumulate(t, xs + ys) ==
      match Accumulate(t, xs)
      case Failure(e) => Failure(e)
      case Success(t') => Accumulate(t', ys)
    decreases |xs|
  {
    if xs != [] {
      assert (xs + ys)[0] == xs[0] && (xs + ys)[1..] == xs[1..] + ys;
      match Step(t, xs[0])
      case Failure(e) =>
      case Success(t') => AccumulateAppend(t', xs[1..], ys);
    } else {
      assert xs + ys == ys;
    }
  }

  /** Running the loop over one more record is one more step. */
  lemma RunSnoc(xs: seq<StoredLoad>, x: StoredLoad)
    ensures Run(xs + [x]) ==
      match Run(xs)
      case Failure(e) => Failure(e)
      case Success(t) => Step(t, x)
  {
    AccumulateAppend(EmptyTable, xs, [x]);
    if Run(xs).Success? {
      var t := Run(xs).value;
      assert [x][1..] == [];
      assert Accumulate(t, [x]) == Step(t, x);
    }
  }

  /** The loop runs to the end exactly when every record with both attributes has a readable hour. */
  lemma {:induction false} RunSucceeds(xs: seq<StoredLoad>)
    ensures Run(xs).Success? <==> forall k :: 0 <= k < |xs| && HasFields(xs[k]) ==> Readable(xs[k])
  {
    if xs != [] {
      var init := xs[..|xs| - 1];
      assert xs == init + [xs[|xs| - 1]];
      RunSnoc(init, xs[|xs| - 1]);
      RunSucceeds(init);
      assert forall k :: 0 <= k < |init| ==> init[k] == xs[k];
    }
  }

  /** The table the loop has built after reading `xs`. */
  ghost predicate Describes(t: Table, xs: seq<StoredLoad>)
  {
    && t.order == FirstOccurrences(ContributingDates(xs))
    && (forall d :: d in t.days <==> d in t.order)
    && (forall d, h :: d in t.days && 0 <= h < HoursPerDay ==> h in t.days[d])
    && (forall d, h :: d in t.days && h in t.days[d] ==> t.days[d][h] == LastLoad(xs, d, h).GetOr(0.0))
    && (forall d, h :: d in t.days && h in t.days[d] && !(0 <= h < HoursPerDay) ==> LastLoad(xs, d, h).Some?)
    && (forall d, h :: d in t.days && LastLoad(xs, d, h).Some? ==> h in t.days[d])
  }

  /** A record that writes no slot leaves the table, and the reference definitions, as they were. */
  lemma StepInert(t: Table, xs: seq<StoredLoad>, x: StoredLoad)
    requires Describes(t, xs) && Readable(x) && !Contributes(x)
    ensures Step(t, x) == Success(t) && Describes(t, xs + [x])
  {
    var ys := xs + [x];
    assert ys[..|ys| - 1] == xs && ys[|ys| - 1] == x;
    assert ContributingDates(ys) == ContributingDates(xs);
    forall d, h ensures LastLoad(ys, d, h) == LastLoad(xs, d, h) {
    }
  }

  /** A positive record writes its slot, creating its date's row when it is the date's first. */
  lemma StepWrites(t: Table, xs: seq<StoredLoad>, x: StoredLoad)
    requires Describes(t, xs) && Contributes(x)
    ensures Step(t, x).Success? && Describes(Step(t, x).value, xs + [x])
  {
    assert Step(t, x) == Success(Put(t, DateOf(x), HourOf(x), x.loadMWh.value));
    OrderAfterWrite(t, xs, x);
    HoursAfterWrite(t, xs, x);
    SlotsAfterWrite(t, xs, x);
    WrittenAfterWrite(t, xs, x);
  }

  /** Every slot some positive record has written, in any hour, is present after the write. */
  lemma WrittenAfterWrite(t: Table, xs: seq<StoredLoad>, x: StoredLoad)
    requires Describes(t, xs) && Contributes(x)
    ensures var t' := Put(t, DateOf(x), HourOf(x), x.loadMWh.value);
      forall d, h :: d in t'.days && LastLoad(xs + [x], d, h).Some? ==> h in t'.days[d]
  {
    var ys := xs + [x];
    assert ys[..|ys| - 1] == xs && ys[|ys| - 1] == x;
    var t' := Put(t, DateOf(x), HourOf(x), x.loadMWh.value);
    forall d, h | d in t'.days && LastLoad(ys, d, h).Some? ensures h in t'.days[d] {
      if !(d == DateOf(x) && h == HourOf(x)) {
        assert !WritesSlot(x, d, h);
        assert LastLoad(ys, d, h) == LastLoad(xs, d, h);
        if d !in t.days {
          LastLoadDate(xs, d, h);
        }
      }
    }
  }

  lemma HoursAfterWrite(t: Table, xs: seq<StoredLoad>, x: StoredLoad)
    requires Describes(t, xs) && Contributes(x)
    ensures var t' := Put(t, DateOf(x), HourOf(x), x.loadMWh.value);
      forall d, h :: d in t'.days && 0 <= h < HoursPerDay ==> h in t'.days[d]
  {
    var t' := Put(t, DateOf(x), HourOf(x), x.loadMWh.value);
    forall d, h | d in t'.days && 0 <= h < HoursPerDay ensures h in t'.days[d] {
      if d != DateOf(x) {
        assert t'.days[d] == t.days[d];
      }
    }
  }

  lemma SlotsAfterWrite(t: Table, xs: seq<StoredLoad>, x: StoredLoad)
    requires Describes(t, xs) && Contributes(x)
    ensures var t' := Put(t, DateOf(x), HourOf(x), x.loadMWh.value);
      && (forall d, h :: d in t'.days && h in t'.days[d] ==> t'.days[d][h] == LastLoad(xs + [x], d, h).GetOr(0.0))
      && (forall d, h :: d in t'.days && h in t'.days[d] && !(0 <= h < HoursPerDay) ==> LastLoad(xs + [x], d, h).Some?)
  {
    var t' := Put(t, DateOf(x), HourOf(x), x.loadMWh.value);
    forall d, h | d in t'.days && h in t'.days[d]
      ensures t'.days[d][h] == LastLoad(xs + [x], d, h).GetOr(0.0)
      ensures !(0 <= h < HoursPerDay) ==> LastLoad(xs + [x], d, h).Some?
    {
      SlotAfterWrite(t, xs, x, d, h);
    }
  }

  /** A date joins the order when its first positive record is read. */
  lemma OrderAfterWrite(t: Table, xs: seq<StoredLoad>, x: StoredLoad)
    requires Describes(t, xs) && Contributes(x)
    ensures var t' := Put(t, DateOf(x), HourOf(x), x.loadMWh.value);
      && t'.order == FirstOccurrences(ContributingDates(xs + [x]))
      && forall d :: d in t'.days <==> d in t'.order
  {
    var ys := xs + [x];
    assert ys[..|ys| - 1] == xs && ys[|ys| - 1] == x;
    var date := DateOf(x);
    var cd := ContributingDates(xs);
    assert ContributingDates(ys) == cd + [date];
    assert (cd + [date])[..|cd + [date]| - 1] == cd;
    assert date in t.days <==> date in cd;
  }

  lemma SlotAfterWrite(t: Table, xs: seq<StoredLoad>, x: StoredLoad, d: string, h: int)
    requires Describes(t, xs) && Contributes(x)
    requires var t' := Put(t, DateOf(x), HourOf(x), x.loadMWh.value); d in t'.days && h in t'.days[d]
    ensures var t' := Put(t, DateOf(x), HourOf(x), x.loadMWh.value);
      && t'.days[d][h] == LastLoad(xs + [x], d, h).GetOr(0.0)
      && (!(0 <= h < HoursPerDay) ==> LastLoad(xs + [x], d, h).Some?)
  {
    var ys := xs + [x];
    assert ys[..|ys| - 1] == xs && ys[|ys| - 1] == x;
    var date, hour := DateOf(x), HourOf(x);
    if d == date && h == hour {
      assert WritesSlot(x, d, h);
    } else {
      assert !WritesSlot(x, d, h);
      assert LastLoad(ys, d, h) == LastLoad(xs, d, h);
      if d == date && date !in t.days {
        LastLoadDate(xs, d, h);
      }
    }
  }

  /** What the loop has built, in terms of the reference definitions. */
  lemma {:induction false} RunDescribes(xs: seq<StoredLoad>)
    requires Run(xs).Success?
    ensures Describes(Run(xs).value, xs)
  {
    if xs != [] {
      var init, x := xs[..|xs| - 1], xs[|xs| - 1];
      assert xs == init + [x];
      RunSnoc(init, x);
      RunDescribes(init);
      var t := Run(init).value;
      if !HasFields(x) {
        assert ContributingDates(xs) == ContributingDates(init);
        forall d, h ensures LastLoad(xs, d, h) == LastLoad(init, d, h) {
        }
      } else if Contributes(x) {
        StepWrites(t, init, x);
      } else {
        StepInert(t, init, x);
      }
    }
  }

  // ---------------------------------------------------------------------------
  // What `format_loads` returns

  /** `format_loads` raises exactly when some record with both attributes has an hour `int()` cannot read. */
  lemma FormatLoadsSucceeds(xs: seq<StoredLoad>)
    ensures FormatLoadsSpec(xs).Success? <==> forall k :: 0 <= k < |xs| && HasFields(xs[k]) ==> Readable(xs[k])
  {
    RunSucceeds(xs);
  }

  /**
   * The rows: one per date that has a positive record, in the order of each
   * date's first positive record, no date twice; slot `h` of a row holds the
   * load of the last positive record for that date and hour, 0.0 when there
   * is none; a slot outside 0..23 exists exactly when such a record wrote it.
   */
  lemma {:induction false} FormatLoadsRows(xs: seq<StoredLoad>)
    requires FormatLoadsSpec(xs).Success?
    ensures var rows := FormatLoadsSpec(xs).value;
      var dates := FirstOccurrences(ContributingDates(xs));
      && |rows| == |dates|
      && (forall i :: 0 <= i < |rows| ==> rows[i].date == dates[i])
      && (forall i, j :: 0 <= i < j < |rows| ==> rows[i].date != rows[j].date)
      && (forall i, h :: 0 <= i < |rows| && 0 <= h < HoursPerDay ==>
            h in rows[i].hours && rows[i].hours[h] == LastLoad(xs, rows[i].date, h).GetOr(0.0))
      && (forall i, h :: 0 <= i < |rows| && h in rows[i].hours && !(0 <= h < HoursPerDay) ==>
            LastLoad(xs, rows[i].date, h).Some? && rows[i].hours[h] == LastLoad(xs, rows[i].date, h).value)
      && (forall i, h :: 0 <= i < |rows| && LastLoad(xs, rows[i].date, h).Some? ==> h in rows[i].hours)
  {
    RunDescribes(xs);
  }

  /** A date appears in the output exactly when some readable record of that date has a positive load. */
  lemma {:induction false} DateAppearsIff(xs: seq<StoredLoad>, d: string)
    requires FormatLoadsSpec(xs).Success?
    ensures var rows := FormatLoadsSpec(xs).value;
      (exists i :: 0 <= i < |rows| && rows[i].date == d)
        <==> exists k :: 0 <= k < |xs| && ContributesTo(xs[k], d)
  {
    FormatLoadsRows(xs);
    ContributingDatesSpec(xs, d);
    var rows := FormatLoadsSpec(xs).value;
    var dates := FirstOccurrences(ContributingDates(xs));
    if d in dates {
      var i :| 0 <= i < |dates| && dates[i] == d;
      assert rows[i].date == d;
    }
  }

  /** When every positive record's hour is within 0..23, every row has exactly the slots H0..H23. */
  lemma {:induction false} RowsHaveDaySlots(xs: seq<StoredLoad>)
    requires FormatLoadsSpec(xs).Success?
    requires forall k :: 0 <= k < |xs| && Contributes(xs[k]) ==> 0 <= HourOf(xs[k]) < HoursPerDay
    ensures forall row :: row in FormatLoadsSpec(xs).value ==> row.hours.Keys == EmptyDay.Keys
  {
    FormatLoadsRows(xs);
    var rows := FormatLoadsSpec(xs).value;
    forall row | row in rows ensures row.hours.Keys == EmptyDay.Keys {
      forall h | h in row.hours ensures 0 <= h < HoursPerDay {
        if !(0 <= h < HoursPerDay) {
          LastLoadSpec(xs, row.date, h);
        }
      }
    }
  }

  /**
   * A record that writes no slot and raises nothing (one lacking an
   * attribute, or with a readable hour and a load of at most 0) can be
   * removed without changing the result.
   */
  lemma {:induction false} InertRecordIrrelevant(xs: seq<StoredLoad>, x: StoredLoad, ys: seq<StoredLoad>)
    requires HasFields(x) ==> Readable(x)
    requires !Contributes(x)
    ensures FormatLoadsSpec(xs + [x] + ys) == FormatLoadsSpec(xs + ys)
  {
    AccumulateAppend(EmptyTable, xs + [x], ys);
    AccumulateAppend(EmptyTable, xs, ys);
    RunSnoc(xs, x);
    if Run(xs).Success? {
      assert Step(Run(xs).value, x) == Success(Run(xs).value);
    }
  }

  lemma EmptyInput()
    ensures FormatLoadsSpec([]) == Success([])
  {
  }

  /**
   * The rows come in input order, not date order: a later date read first is
   * listed first.
   */
  lemma RowsNotSortedByDate()
    ensures var r := FormatLoadsSpec([
        StoredLoad(Some("1401-01-02 05:00:00"), Some(10.0)),
        StoredLoad(Some("1401-01-01 05:00:00"), Some(20.0))]);
      r.Success? && |r.value| == 2 && r.value[0].date == "1401-01-02" && r.value[1].date == "1401-01-01"
  {
    var a := StoredLoad(Some("1401-01-02 05:00:00"), Some(10.0));
    var b := StoredLoad(Some("1401-01-01 05:00:00"), Some(20.0));
    assert HourText(a.datetime.value) == "05" && HourText(b.datetime.value) == "05";
    assert DatePart(a.datetime.value) == "1401-01-02" && DatePart(b.datetime.value) == "1401-01-01";
    var t1 := Put(EmptyTable, "1401-01-02", 5, 10.0);
    assert Step(EmptyTable, a) == Success(t1);
    assert Step(t1, b) == Success(Put(t1, "1401-01-01", 5, 20.0));
    assert [a, b][1..] == [b];
  }

  /** An hour `int()` reads as -5 adds a slot `H-5` to the row, beside H0..H23. */
  lemma NegativeHourSlot()
    ensures var r := FormatLoadsSpec([StoredLoad(Some("1401-01-01 -5:00:00"), Some(3.0))]);
      r.Success? && |r.value| == 1 && -5 in r.value[0].hours && r.value[0].hours[-5] == 3.0
  {
    var a := StoredLoad(Some("1401-01-01 -5:00:00"), Some(3.0));
    assert HourText(a.datetime.value) == "-5";
    assert ParseHour("-5") == Some(-5);
    assert DatePart(a.datetime.value) == "1401-01-01";
    assert Step(EmptyTable, a) == Success(Put(EmptyTable, "1401-01-01", -5, 3.0));
  }

  // ---------------------------------------------------------------------------
  // Rows sorted by date, as the closing comment of `format_loads` intends

  /** Python's `<=` on strings: lexicographic by code point. */
  predicate StrLe(a: string, b: string)
  {
    if a == [] then true
    else if b == [] then false
    else if a[0] != b[0] then a[0] < b[0]
    else StrLe(a[1..], b[1..])
  }

  lemma {:induction false} StrLeTotal(a: string, b: string)
    ensures StrLe(a, b) || StrLe(b, a)
  {
    if a != [] && b != [] && a[0] == b[0] {
      StrLeTotal(a[1..], b[1..]);
    }
  }

  lemma {:induction false} StrLeTransitive(a: string, b: string, c: string)
    requires StrLe(a, b) && StrLe(b, c)
    ensures StrLe(a, c)
  {
    if a != [] && b != [] && c != [] && a[0] == b[0] && b[0] == c[0] {
      StrLeTransitive(a[1..], b[1..], c[1..]);
    }
  }

  predicate SortedByDate(rows: seq<DayRow>)
  {
    forall i, j :: 0 <= i < j < |rows| ==> StrLe(rows[i].date, rows[j].date)
  }

  /** Place `r` before the first row whose date is not below its own. */
  function InsertByDate(r: DayRow, rows: seq<DayRow>): seq<DayRow>
  {
    if rows == [] then [r]
    else if StrLe(r.date, rows[0].date) then [r] + rows
    else [rows[0]] + InsertByDate(r, rows[1..])
  }

  lemma {:induction false} InsertByDateMultiset(r: DayRow, rows: seq<DayRow>)
    ensures multiset(InsertByDate(r, rows)) == multiset(rows) + multiset{r}
  {
    if rows != [] && !StrLe(r.date, rows[0].date) {
      InsertByDateMultiset(r, rows[1..]);
      assert rows == [rows[0]] + rows[1..];
    }
  }

  /** Every row of the result is `r` or a row of `rows`. */
  lemma InsertByDateFrom(r: DayRow, rows: seq<DayRow>, x: DayRow)
    requires x in InsertByDate(r, rows)
    ensures x == r || x in rows
  {
    InsertByDateMultiset(r, rows);
    assert x in multiset(InsertByDate(r, rows));
  }

  lemma {:induction false} InsertByDateSorted(r: DayRow, rows: seq<DayRow>)
    requires SortedByDate(rows)
    ensures SortedByDate(InsertByDate(r, rows))
  {
    if rows == [] {
    } else if StrLe(r.date, rows[0].date) {
      forall j | 0 < j < |rows| ensures StrLe(r.date, rows[j].date) {
        StrLeTransitive(r.date, rows[0].date, rows[j].date);
      }
    } else {
      StrLeTotal(r.date, rows[0].date);
      var tail := rows[1..];
      InsertByDateSorted(r, tail);
      var rest := InsertByDate(r, tail);
      var out := [rows[0]] + rest;
      forall j | 0 <= j < |rest| ensures StrLe(rows[0].date, rest[j].date) {
        InsertByDateFrom(r, tail, rest[j]);
        if rest[j] != r {
          var k :| 0 <= k < |tail| && tail[k] == rest[j];
          assert rows[k + 1] == rest[j];
        }
      }
      forall i, j | 0 <= i < j < |out| ensures StrLe(out[i].date, out[j].date) {
        if i > 0 {
          assert out[i] == rest[i - 1];
        }
        assert out[j] == rest[j - 1];
      }
    }
  }

  /** Insertion sort of the rows by date. */
  function SortByDate(rows: seq<DayRow>): seq<DayRow>
  {
    if rows == [] then [] else InsertByDate(rows[0], SortByDate(rows[1..]))
  }

  /** The sort keeps exactly the rows it is given and orders them by date. */
  lemma {:induction false} SortByDateSpec(rows: seq<DayRow>)
    ensures multiset(SortByDate(rows)) == multiset(rows)
    ensures SortedByDate(SortByDate(rows))
  {
    if rows != [] {
      SortByDateSpec(rows[1..]);
      InsertByDateMultiset(rows[0], SortByDate(rows[1..]));
      InsertByDateSorted(rows[0], SortByDate(rows[1..]));
      assert rows == [rows[0]] + rows[1..];
    }
  }

  /**
   * `format_loads` with the sort its closing comment announces: the same rows,
   * ascending by date.
   */
  function SortedFormatLoads(xs: seq<StoredLoad>): (r: Result<seq<DayRow>, FormatError>)
    ensures r.Success? <==> FormatLoadsSpec(xs).Success?
    ensures r.Failure? ==> r == FormatLoadsSpec(xs)
    ensures r.Success? ==> SortedByDate(r.value) && multiset(r.value) == multiset(FormatLoadsSpec(xs).value)
  {
    match FormatLoadsSpec(xs)
    case Failure(e) => Failure(e)
    case Success(rows) =>
      SortByDateSpec(rows);
      Success(SortByDate(rows))
  }
}
