/**
 * `defineRealLoadAsExcelFile`: every row of the uploaded sheet carries a date
 * and 24 hour columns `H0`..`H23`; each non-empty cell becomes one hourly
 * record, any failure rejects the whole upload, and only a fully mapped sheet
 * is written, in one call.
 */
module DefineLoadsAsExcel {
  import opened Wrappers
  import opened Decimal
  import opened RealLoadModel

  /** A cell as pandas reads it: empty (NaN), a number `float()` accepts, or anything else. */
  datatype Cell = Blank | Number(value: real) | NotANumber

  /**
   * A sheet row: the text of its `date` cell (`None` when the sheet has no
   * such column) and its other cells by column name.
   */
  datatype Row = Row(date: Option<string>, columns: map<string, Cell>)

  /** The exceptions the mapping loop can raise: KeyError, float()'s ValueError, the record's ValidationError. */
  datatype MapError = MissingColumn(name: string) | NotConvertible(column: string) | Invalid(reason: string)

  type Loads = Result<seq<RealLoad>, MapError>

  const DateColumn := "date"
  const ManualSource := "manual"

  /** `f"H{hour}"`. */
  function HourColumn(h: nat): (name: string)
    requires h < HoursPerDay
    ensures |name| >= 2 && name[0] == 'H'
  {
    "H" + (if h < 10 then Pad(h, 1) else Pad(h, 2))
  }

  /** The column name is `H` followed by the hour in decimal, without leading zeros. */
  lemma HourColumnReadsHour(h: nat)
    requires h < HoursPerDay
    ensures var name := HourColumn(h); AllDigits(name[1..]) && Value(name[1..]) == h
    ensures var name := HourColumn(h); h == 0 || name[1] != '0'
  {
    var name := HourColumn(h);
    if h < 10 {
      assert name[1..] == Pad(h, 1);
      ValueOfPad(h, 1);
      assert Pad(h, 1) == Pad(h / 10, 0) + [DigitChar(h % 10)];
    } else {
      assert name[1..] == Pad(h, 2);
      ValueOfPad(h, 2);
      assert Pad(h, 2) == Pad(h / 10, 1) + [DigitChar(h % 10)];
      assert Pad(h / 10, 1) == Pad(h / 100, 0) + [DigitChar(h / 10 % 10)];
      assert name[1] == DigitChar(h / 10);
    }
  }

  /** Distinct hours read distinct columns. */
  lemma HourColumnInjective(a: nat, b: nat)
    requires a < HoursPerDay && b < HoursPerDay
    requires HourColumn(a) == HourColumn(b)
    ensures a == b
  {
    HourColumnReadsHour(a);
    HourColumnReadsHour(b);
  }

  /** `f"{date} {time(hour=h).strftime('%H:%M:%S')}"`. */
  function HourStamp(date: string, h: nat): (s: string)
    requires h < HoursPerDay
    ensures |s| == |date| + 9 && s[..|date|] == date && s[|date|..] == " " + Pad(h, 2) + ":00:00"
  {
    date + " " + Pad(h, 2) + ":00:00"
  }

  function HourRecord(date: string, h: nat, load: real): RealLoad
    requires h < HoursPerDay
  {
    RealLoad(None, HourStamp(date, h), load, Some(ManualSource))
  }

  /** Run `a`, then `b`: the first failure wins, otherwise the records are concatenated. */
  function Then(a: Loads, b: Loads): Loads
  {
    if a.Failure? then a else if b.Failure? then b else Success(a.value + b.value)
  }

  /** What one hour cell of a row contributes: nothing, one record, or the exception. */
  function CellLoads(date: string, row: Row, h: nat, check: RealLoad -> Verdict): Loads
    requires h < HoursPerDay
  {
    var column := HourColumn(h);
    if column !in row.columns then Failure(MissingColumn(column))
    else match row.columns[column]
      case Blank => Success([])
      case NotANumber => Failure(NotConvertible(column))
      case Number(v) =>
        match check(HourRecord(date, h, v))
        case Rejected(reason) => Failure(Invalid(reason))
        case Accepted => Success([HourRecord(date, h, v)])
  }

  /** Hours `h`..23 of a row, in ascending order. */
  function HoursLoads(date: string, row: Row, h: nat, check: RealLoad -> Verdict): Loads
    requires h <= HoursPerDay
    decreases HoursPerDay - h
  {
    if h == HoursPerDay then Success([])
    else Then(CellLoads(date, row, h, check), HoursLoads(date, row, h + 1, check))
  }

  function RowLoads(row: Row, check: RealLoad -> Verdict): Loads
  {
    if row.date.None? then Failure(MissingColumn(DateColumn))
    else HoursLoads(row.date.value, row, 0, check)
  }

  /** The whole sheet, row after row. */
  function SheetLoads(rows: seq<Row>, check: RealLoad -> Verdict): Loads
  {
    if rows == [] then Success([])
    else Then(RowLoads(rows[0], check), SheetLoads(rows[1..], check))
  }

  lemma ThenAssociative(a: Loads, b: Loads, c: Loads)
    ensures Then(Then(a, b), c) == Then(a, Then(b, c))
  {
    if a.Success? && b.Success? && c.Success? {
      assert (a.value + b.value) + c.value == a.value + (b.value + c.value);
    }
  }

  lemma ThenNothing(b: Loads)
    ensures Then(Success([]), b) == b
  {
    if b.Success? {
      assert [] + b.value == b.value;
    }
  }

  lemma SheetLoadsAt(rows: seq<Row>, i: nat, check: RealLoad -> Verdict)
    requires i < |rows|
    ensures SheetLoads(rows[i..], check) == Then(RowLoads(rows[i], check), SheetLoads(rows[i + 1..], check))
  {
    assert rows[i..][0] == rows[i] && rows[i..][1..] == rows[i + 1..];
  }

  /** Taking one more hour cell off the front of what remains to be mapped. */
  lemma HoursLoadsStep(date: string, row: Row, h: nat, check: RealLoad -> Verdict, rest: Loads)
    requires h < HoursPerDay
    ensures Then(HoursLoads(date, row, h, check), rest)
         == Then(CellLoads(date, row, h, check), Then(HoursLoads(date, row, h + 1, check), rest))
  {
    ThenAssociative(CellLoads(date, row, h, check), HoursLoads(date, row, h + 1, check), rest);
  }

  /**
   * The nested loop of the route: rows in order, hours 0..23 in order, empty
   * cells skipped, and the first exception abandons the whole list.
   */
  method MapSheet(rows: seq<Row>, check: RealLoad -> Verdict) returns (r: Loads)
    ensures r == SheetLoads(rows, check)
  {
    var loads: seq<RealLoad> := [];
    var i := 0;
    assert rows[0..] == rows;
    ThenNothing(SheetLoads(rows, check));
    while i < |rows|
      invariant 0 <= i <= |rows|
      invariant SheetLoads(rows, check) == Then(Success(loads), SheetLoads(rows[i..], check))
    {
      var row := rows[i];
      ghost var later := SheetLoads(rows[i + 1..], check);
      SheetLoadsAt(rows, i, check);
      if row.date.None? {
        assert SheetLoads(rows[i..], check) == Failure(MissingColumn(DateColumn));
        return Failure(MissingColumn(DateColumn));
      }
      var date := row.date.value;
      assert RowLoads(row, check) == HoursLoads(date, row, 0, check);
      var hour := 0;
      while hour < HoursPerDay
        invariant 0 <= hour <= HoursPerDay
        invariant SheetLoads(rows, check) == Then(Success(loads), Then(HoursLoads(date, row, hour, check), later))
      {
        ghost var remaining := Then(HoursLoads(date, row, hour + 1, check), later);
        HoursLoadsStep(date, row, hour, check, later);
        var column := HourColumn(hour);
        if column !in row.columns {
          assert CellLoads(date, row, hour, check) == Failure(MissingColumn(column));
          return Failure(MissingColumn(column));
        }
        var cell := row.columns[column];
        if cell.Blank? {
          assert CellLoads(date, row, hour, check) == Success([]);
          ThenNothing(remaining);
          hour := hour + 1;
          continue;
        }
        if cell.NotANumber? {
          assert CellLoads(date, row, hour, check) == Failure(NotConvertible(column));
          return Failure(NotConvertible(column));
        }
        var record := HourRecord(date, hour, cell.value);
        var verdict := check(record);
        if verdict.Rejected? {
          assert CellLoads(date, row, hour, check) == Failure(Invalid(verdict.reason));
          return Failure(Invalid(verdict.reason));
        }
        assert CellLoads(date, row, hour, check) == Success([record]);
        ThenAssociative(Success(loads), Success([record]), remaining);
        loads := loads + [record];
        hour := hour + 1;
      }
      ThenNothing(later);
      i := i + 1;
    }
    assert SheetLoads(rows[i..], check) == Success([]);
    assert loads + [] == loads;
    return Success(loads);
  }

  // ---------------------------------------------------------------------------
  // What the mapping produces, stated cell by cell

  /** Hour `x` of the row holds a number. */
  predicate Filled(row: Row, x: nat)
    requires x < HoursPerDay
  {
    HourColumn(x) in row.columns && row.columns[HourColumn(x)].Number?
  }

  /** The number in hour `x`'s cell (0.0 where there is none). */
  function CellValue(row: Row, x: nat): real
    requires x < HoursPerDay
  {
    if Filled(row, x) then row.columns[HourColumn(x)].value else 0.0
  }

  /** Hour `x` raises nothing: its column exists, and a non-empty cell is a number the record validation accepts. */
  predicate CellOk(date: string, row: Row, x: nat, check: RealLoad -> Verdict)
    requires x < HoursPerDay
  {
    && HourColumn(x) in row.columns
    && !row.columns[HourColumn(x)].NotANumber?
    && (Filled(row, x) ==> check(HourRecord(date, x, CellValue(row, x))).Accepted?)
  }

  predicate RowOk(row: Row, check: RealLoad -> Verdict)
  {
    row.date.Some? && CellsOkFrom(row.date.value, row, 0, check)
  }

  /** Which of the 24 hour cells hold a number. */
  function FilledMask(row: Row): (m: seq<bool>)
    ensures |m| == HoursPerDay
  {
    seq(HoursPerDay, x requires 0 <= x < HoursPerDay => Filled(row, x))
  }

  /** The positions from `h` on that `mask` marks, ascending. */
  function Marked(mask: seq<bool>, h: nat): (hs: seq<nat>)
    requires h <= |mask|
    ensures forall k :: 0 <= k < |hs| ==> h <= hs[k] < |mask|
    decreases |mask| - h
  {
    if h == |mask| then []
    else (if mask[h] then [h] else []) + Marked(mask, h + 1)
  }

  /** A marked position from `h` on is listed. */
  lemma {:induction false} MarkedHas(mask: seq<bool>, h: nat, x: nat)
    requires h <= x < |mask| && mask[x]
    ensures x in Marked(mask, h)
    decreases |mask| - h
  {
    var here: seq<nat> := if mask[h] then [h] else [];
    assert Marked(mask, h) == here + Marked(mask, h + 1);
    if h < x {
      MarkedHas(mask, h + 1, x);
    }
  }

  /** Only marked positions are listed. */
  lemma {:induction false} MarkedOnlyMarked(mask: seq<bool>, h: nat, x: nat)
    requires h <= |mask| && x in Marked(mask, h)
    ensures h <= x < |mask| && mask[x]
    decreases |mask| - h
  {
    var here: seq<nat> := if mask[h] then [h] else [];
    assert Marked(mask, h) == here + Marked(mask, h + 1);
    if x !in here {
      MarkedOnlyMarked(mask, h + 1, x);
    }
  }

  /** The filled hours from `h` on, ascending. */
  function FilledHours(row: Row, h: nat): (hs: seq<nat>)
    requires h <= HoursPerDay
    ensures forall k :: 0 <= k < |hs| ==> h <= hs[k] < HoursPerDay
  {
    Marked(FilledMask(row), h)
  }

  /** The listing from `h` is hour `h` when filled, then the listing from `h + 1`. */
  lemma FilledHoursStep(row: Row, h: nat)
    requires h < HoursPerDay
    ensures FilledHours(row, h) == (if Filled(row, h) then [h] else []) + FilledHours(row, h + 1)
  {
    assert FilledMask(row)[h] == Filled(row, h);
  }

  /** `FilledHours` lists exactly the filled hours from `h` on. */
  lemma FilledHoursMembers(row: Row, h: nat)
    requires h <= HoursPerDay
    ensures forall x: nat :: x in FilledHours(row, h) <==> h <= x < HoursPerDay && Filled(row, x)
  {
    var mask := FilledMask(row);
    forall x: nat | x in FilledHours(row, h) ensures h <= x < HoursPerDay && Filled(row, x) {
      MarkedOnlyMarked(mask, h, x);
      assert mask[x] == Filled(row, x);
    }
    forall x: nat | h <= x < HoursPerDay && Filled(row, x) ensures x in FilledHours(row, h) {
      assert mask[x] == Filled(row, x);
      MarkedHas(mask, h, x);
    }
  }

  /** ... in ascending order, each hour once. */
  lemma {:induction false} MarkedAscending(mask: seq<bool>, h: nat)
    requires h <= |mask|
    ensures forall j, k :: 0 <= j < k < |Marked(mask, h)| ==> Marked(mask, h)[j] < Marked(mask, h)[k]
    decreases |mask| - h
  {
    if h < |mask| {
      MarkedAscending(mask, h + 1);
      var rest := Marked(mask, h + 1);
      if mask[h] {
        var hs := [h] + rest;
        assert Marked(mask, h) == hs;
        forall j, k | 0 <= j < k < |hs| ensures hs[j] < hs[k] {
          assert hs[k] == rest[k - 1];
          if j > 0 {
            assert hs[j] == rest[j - 1];
          }
        }
      }
    }
  }

  lemma FilledHoursAscending(row: Row, h: nat)
    requires h <= HoursPerDay
    ensures forall j, k :: 0 <= j < k < |FilledHours(row, h)| ==> FilledHours(row, h)[j] < FilledHours(row, h)[k]
  {
    MarkedAscending(FilledMask(row), h);
  }

  /** One record per given hour, in the given order. */
  function RecordsAt(date: string, row: Row, hs: seq<nat>): (ls: seq<RealLoad>)
    requires forall k :: 0 <= k < |hs| ==> hs[k] < HoursPerDay
    ensures |ls| == |hs|
  {
    seq(|hs|, k requires 0 <= k < |hs| => HourRecord(date, hs[k], CellValue(row, hs[k])))
  }

  /** The records a row yields when nothing fails. */
  function ExpectedRow(row: Row): seq<RealLoad>
  {
    RecordsAt(row.date.GetOr(""), row, FilledHours(row, 0))
  }

  function ExpectedSheet(rows: seq<Row>): seq<RealLoad>
  {
    if rows == [] then [] else ExpectedRow(rows[0]) + ExpectedSheet(rows[1..])
  }

  /** The number of non-empty hour cells of the sheet. */
  function FilledCount(rows: seq<Row>): nat
  {
    if rows == [] then 0 else |FilledHours(rows[0], 0)| + FilledCount(rows[1..])
  }

  /** An hour maps without error exactly when its cell is fine. */
  lemma CellLoadsOk(date: string, row: Row, x: nat, check: RealLoad -> Verdict)
    requires x < HoursPerDay
    ensures CellLoads(date, row, x, check).Success? <==> CellOk(date, row, x, check)
    ensures CellLoads(date, row, x, check).Success? ==>
      CellLoads(date, row, x, check).value == RecordsAt(date, row, if Filled(row, x) then [x] else [])
  {
  }

  /** Hours `h`..23 all raise nothing. */
  predicate CellsOkFrom(date: string, row: Row, h: nat, check: RealLoad -> Verdict)
    requires h <= HoursPerDay
  {
    forall x: nat :: h <= x < HoursPerDay ==> CellOk(date, row, x, check)
  }

  lemma CellsOkFromSplit(date: string, row: Row, h: nat, check: RealLoad -> Verdict)
    requires h < HoursPerDay
    ensures CellsOkFrom(date, row, h, check) <==> CellOk(date, row, h, check) && CellsOkFrom(date, row, h + 1, check)
  {
  }

  lemma RecordsAtAppend(date: string, row: Row, a: seq<nat>, b: seq<nat>)
    requires forall k :: 0 <= k < |a| ==> a[k] < HoursPerDay
    requires forall k :: 0 <= k < |b| ==> b[k] < HoursPerDay
    ensures RecordsAt(date, row, a + b) == RecordsAt(date, row, a) + RecordsAt(date, row, b)
  {
    var ab := RecordsAt(date, row, a + b);
    var sa := RecordsAt(date, row, a);
    var sb := RecordsAt(date, row, b);
    forall k | 0 <= k < |ab| ensures ab[k] == (sa + sb)[k] {
      if k < |a| {
        assert (a + b)[k] == a[k];
      } else {
        assert (a + b)[k] == b[k - |a|];
      }
    }
  }

  /** Hours `h`..23 map without error exactly when each of their cells is fine. */
  lemma {:induction false} HoursLoadsSucceeds(date: string, row: Row, h: nat, check: RealLoad -> Verdict)
    requires h <= HoursPerDay
    ensures HoursLoads(date, row, h, check).Success? <==> CellsOkFrom(date, row, h, check)
    decreases HoursPerDay - h
  {
    if h < HoursPerDay {
      CellLoadsOk(date, row, h, check);
      HoursLoadsSucceeds(date, row, h + 1, check);
      CellsOkFromSplit(date, row, h, check);
    }
  }

  /**
   * Hours `h`..23, when they map without error, yield one record per filled
   * hour, hours ascending, each stamped `<date> HH:00:00` with the cell's
   * number and source "manual".
   */
  lemma {:induction false} HoursLoadsRecords(date: string, row: Row, h: nat, check: RealLoad -> Verdict)
    requires h <= HoursPerDay
    requires HoursLoads(date, row, h, check).Success?
    ensures HoursLoads(date, row, h, check).value == RecordsAt(date, row, FilledHours(row, h))
    decreases HoursPerDay - h
  {
    if h < HoursPerDay {
      CellLoadsOk(date, row, h, check);
      HoursLoadsRecords(date, row, h + 1, check);
      var here: seq<nat> := if Filled(row, h) then [h] else [];
      FilledHoursStep(row, h);
      RecordsAtAppend(date, row, here, FilledHours(row, h + 1));
    }
  }

  /** A row maps without error exactly when it has a date and all its hour cells are fine. */
  lemma RowLoadsSpec(row: Row, check: RealLoad -> Verdict)
    ensures RowLoads(row, check).Success? <==> RowOk(row, check)
    ensures RowLoads(row, check).Success? ==> RowLoads(row, check).value == ExpectedRow(row)
  {
    if row.date.Some? {
      HoursLoadsSucceeds(row.date.value, row, 0, check);
      if RowLoads(row, check).Success? {
        HoursLoadsRecords(row.date.value, row, 0, check);
      }
    }
  }

  predicate AllRowsOk(rows: seq<Row>, check: RealLoad -> Verdict)
  {
    forall i :: 0 <= i < |rows| ==> RowOk(rows[i], check)
  }

  lemma AllRowsOkSplit(rows: seq<Row>, check: RealLoad -> Verdict)
    requires rows != []
    ensures AllRowsOk(rows, check) <==> RowOk(rows[0], check) && AllRowsOk(rows[1..], check)
  {
    if RowOk(rows[0], check) && AllRowsOk(rows[1..], check) {
      forall i | 0 < i < |rows| ensures RowOk(rows[i], check) {
        assert rows[i] == rows[1..][i - 1];
      }
    }
  }

  /**
   * The whole sheet maps without error exactly when every row has a date and
   * every hour cell of every row is fine: one bad cell anywhere rejects it all.
   */
  lemma {:induction false} SheetLoadsSucceeds(rows: seq<Row>, check: RealLoad -> Verdict)
    ensures SheetLoads(rows, check).Success? <==> AllRowsOk(rows, check)
  {
    if rows != [] {
      RowLoadsSpec(rows[0], check);
      SheetLoadsSucceeds(rows[1..], check);
      AllRowsOkSplit(rows, check);
    }
  }

  /**
   * A sheet that maps yields its rows' records in row order (hours ascending
   * within a row), as many as there are non-empty hour cells.
   */
  lemma {:induction false} SheetLoadsRecords(rows: seq<Row>, check: RealLoad -> Verdict)
    requires SheetLoads(rows, check).Success?
    ensures SheetLoads(rows, check).value == ExpectedSheet(rows)
    ensures |SheetLoads(rows, check).value| == FilledCount(rows)
  {
    if rows != [] {
      RowLoadsSpec(rows[0], check);
      SheetLoadsRecords(rows[1..], check);
    }
  }

  /** The first failing cell decides the error: the hours before it are fine, so its exception is the row's. */
  lemma {:induction false} FirstFailureWins(date: string, row: Row, h: nat, x: nat, check: RealLoad -> Verdict)
    requires h <= x < HoursPerDay
    requires forall y: nat :: h <= y < x ==> CellOk(date, row, y, check)
    requires !CellOk(date, row, x, check)
    ensures HoursLoads(date, row, h, check) == CellLoads(date, row, x, check)
    ensures HoursLoads(date, row, h, check).Failure?
    decreases x - h
  {
    var here := CellLoads(date, row, h, check);
    assert HoursLoads(date, row, h, check) == Then(here, HoursLoads(date, row, h + 1, check));
    CellLoadsOk(date, row, h, check);
    if h < x {
      assert CellOk(date, row, h, check);
      assert here.Success?;
      FirstFailureWins(date, row, h + 1, x, check);
    } else {
      assert here.Failure?;
    }
  }

  lemma {:induction false} FirstFailingRowFrom(rows: seq<Row>, i: nat, j: nat, check: RealLoad -> Verdict)
    requires i <= j < |rows|
    requires forall k :: i <= k < j ==> RowLoads(rows[k], check).Success?
    requires RowLoads(rows[j], check).Failure?
    ensures SheetLoads(rows[i..], check) == RowLoads(rows[j], check)
    decreases j - i
  {
    SheetLoadsAt(rows, i, check);
    if i < j {
      FirstFailingRowFrom(rows, i + 1, j, check);
    }
  }

  /** Likewise across rows: the first row that fails decides the sheet's error. */
  lemma FirstFailingRowWins(rows: seq<Row>, j: nat, check: RealLoad -> Verdict)
    requires j < |rows|
    requires forall i :: 0 <= i < j ==> RowOk(rows[i], check)
    requires !RowOk(rows[j], check)
    ensures SheetLoads(rows, check) == RowLoads(rows[j], check)
    ensures SheetLoads(rows, check).Failure?
  {
    forall k | 0 <= k < j ensures RowLoads(rows[k], check).Success? {
      RowLoadsSpec(rows[k], check);
    }
    RowLoadsSpec(rows[j], check);
    FirstFailingRowFrom(rows, 0, j, check);
    assert rows[0..] == rows;
  }

  /**
   * A row `1401/02/01` with 120.5 at hour 0, nothing at hour 1 and -5 at
   * hour 2, under a record validation that refuses the negative load: the
   * whole sheet is rejected with that refusal, and no record survives.
   */
  lemma NegativeLoadRejectsSheet(row: Row, check: RealLoad -> Verdict)
    requires row.date == Some("1401/02/01")
    requires HourColumn(0) in row.columns && row.columns[HourColumn(0)] == Number(120.5)
    requires HourColumn(1) in row.columns && row.columns[HourColumn(1)] == Blank
    requires HourColumn(2) in row.columns && row.columns[HourColumn(2)] == Number(-5.0)
    requires check(HourRecord("1401/02/01", 0, 120.5)) == Accepted
    requires check(HourRecord("1401/02/01", 2, -5.0)).Rejected?
    ensures SheetLoads([row], check) == Failure(Invalid(check(HourRecord("1401/02/01", 2, -5.0)).reason))
  {
    var date := "1401/02/01";
    assert CellOk(date, row, 0, check);
    assert CellOk(date, row, 1, check);
    forall y: nat | 0 <= y < 2 ensures CellOk(date, row, y, check) {
    }
    FirstFailureWins(date, row, 0, 2, check);
  }

  // ---------------------------------------------------------------------------
  // The route: read, map, then write once

  /** The database as the route sees it: every write call is logged; `available` says whether writes succeed. */
  class LoadStore {
    var writes: seq<(int, seq<RealLoad>)>
    const available: bool

    constructor (available: bool)
      ensures this.writes == [] && this.available == available
    {
      this.writes := [];
      this.available := available;
    }

    /** `writeLoadsToDB(location, loads)`. */
    method WriteLoads(location: int, loads: seq<RealLoad>) returns (ok: bool)
      modifies this
      ensures writes == old(writes) + [(location, loads)]
      ensures ok == available
    {
      writes := writes + [(location, loads)];
      ok := available;
    }
  }

  datatype IngestError = UnreadableFile | BadLoads(cause: MapError) | WriteFailed

  /** The route's reply: success, or an HTTP error status with its cause. */
  datatype Response = Stored | HttpError(status: int, cause: IngestError)

  /**
   * `defineRealLoadAsExcelFile` for a location. `sheet` is what
   * `pd.read_excel` gives (`None` when it raises). A sheet that fails to map
   * is answered with 400 and nothing is written; otherwise the store is
   * written exactly once, with every mapped record.
   */
  method DefineRealLoadAsExcelFile(store: LoadStore, location: int, sheet: Option<seq<Row>>, check: RealLoad -> Verdict)
    returns (response: Response)
    modifies store
    ensures sheet.None? ==> response == HttpError(400, UnreadableFile) && store.writes == old(store.writes)
    ensures sheet.Some? && SheetLoads(sheet.value, check).Failure? ==>
      && response == HttpError(400, BadLoads(SheetLoads(sheet.value, check).error))
      && store.writes == old(store.writes)
    ensures sheet.Some? && SheetLoads(sheet.value, check).Success? ==>
      && store.writes == old(store.writes) + [(location, SheetLoads(sheet.value, check).value)]
      && response == (if store.available then Stored else HttpError(500, WriteFailed))
  {
    if sheet.None? {
      return HttpError(400, UnreadableFile);
    }
    var mapped := MapSheet(sheet.value, check);
    if mapped.Failure? {
      return HttpError(400, BadLoads(mapped.error));
    }
    var ok := store.WriteLoads(location, mapped.value);
    if !ok {
      return HttpError(500, WriteFailed);
    }
    return Stored;
  }
}
