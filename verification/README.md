# Real-load core of the load-prediction service, in Dafny

The service keeps hourly electricity loads (MWh) per location, with dates in the
Jalali (Solar Hijri) calendar. This project models its real-load core and proves
properties of that model:

- **Next-window calculator** (`generateNextDate`, `RealLoadNextDates.create`).
  It takes the first and last dates a location has loads for, plus the current
  time, and works out the interval in which the location may still submit loads.
  That interval is six `YYYY/MM/DD` strings: start, default and end for "from"
  and for "to". `create` checks three ordering conditions before it renders them.
- **Single-record validator** (`RealLoadAsString.toDailyRealLoad`). It takes a
  `1401/01/23 12:00:00` string and a number. It checks the format, the number and
  the plausibility of the year. Then it builds a record whose date-time is stored
  as `YYYY-MM-DD HH:MM:SS`. Four errors are possible, checked in a fixed order.
- **Excel ingestion** (`defineRealLoadAsExcelFile`). Each sheet row has a
  `date` and hour columns `H0`..`H23`. Every non-empty cell becomes one record
  stamped `<date> HH:00:00` with source `manual`. Any exception rejects the whole
  upload with status 400, and nothing is written. A sheet that maps fully is
  written in a single call; a failed write gives status 500.
- **Retrieval formatter** (`format_loads`). It groups stored hourly records into
  one row per date with slots `H0`..`H23`. Each slot is 0.0 unless a positive
  load was stored for it.

The modules, by file:

- `wrappers.dfy`: `Option` and `Result`.
- `decimal.dfy`: zero-padded decimal fields.
- `jalali.dfy`: the calendar, its order, one-day steps, and the date formats.
- `real_load_model.dfy`: the stored record.
- `real_load_next_dates.dfy`: `create`.
- `next_dates_route.dfy`: `generateNextDate`.
- `real_load_as_string.dfy`: `toDailyRealLoad`.
- `define_loads_as_excel.dfy`: the Excel mapping loop and the route.
- `fetch_loads.dfy`: `format_loads`.

Pure code is modelled as functions and lemmas. Three parts keep the source's
imperative form:

- the nested row/hour loop of the Excel route (`MapSheet`), proved equal to the
  recursive specification function `SheetLoads`;
- the dictionary-filling loop of `format_loads` (`FormatLoads`), proved equal to
  the recursive specification function `FormatLoadsSpec`;
- the database write, a `LoadStore` object whose log of write calls the route
  appends to; the method's postcondition gives the new log directly.

Some parts of the system are not in the core, so they become parameters:

- the database read is the `DatesRead` input;
- the clock is `now`;
- the Gregorian conversion is `gregorianYear`;
- the record model's own validation is `check`.

In several places the code does not do what its own comments and docstrings
say. The model follows the code in each case:

- The Excel route's docstring (route_defineLoadsAsExcel.py:38) names a date
  column `تاریخ` and hour columns `H1` to `H24`. The loop reads the column
  `date` and the columns `H0`..`H23` (route_defineLoadsAsExcel.py:55-59).
- The same docstring says non-consecutive dates give a 400. The loop checks no
  such thing; only an unreadable file or an exception while mapping the sheet
  gives a 400.
- The comment at route_fetchLoads.py:121 announces a list sorted by date.
  `format_loads` returns its rows in the order in which each date first gets a
  positive load; see "Findings".

Three further behaviours of the code are worth knowing:

- The Excel mapper builds `RealLoadModel` directly
  (route_defineLoadsAsExcel.py:62-66). It does not go through the
  single-record validator `toDailyRealLoad`.
- The single-record validator stores the Jalali date-time rendered with `-`
  separators, minutes and seconds kept (realLoadAsString.py:42). It does not
  store a Gregorian timestamp, nor the value truncated to the hour; the
  truncated value is used only for the year check (realLoadAsString.py:38-40).
- The next-dates route answers 500 whenever the first load date is later than
  the default "from" date (`NextDatesRoute.WindowBuiltIff`). A location whose
  first and only load is for today is such a case: the default "from" date is
  yesterday, so `create`'s second check fails (realLoadNextDates.py:54-56).
  Nothing in the code or its comments says whether this is intended.

## Model

| member | source | states |
|---|---|---|
| Decimal.ValueOfPad | realLoadAsString.py:36-42 | reading back a zero-padded field (strptime's `%Y`, `%m`, ...) gives the number strftime rendered |
| Decimal.PadOfValue | realLoadAsString.py:36-42 | rendering a digit field's value at the field's width gives the field back |
| Decimal.PadInjective | realLoadNextDates.py:62-71 | at one width, equal renderings come only from equal numbers |
| Jalali.DaysInMonth | route_nextDates.py:74-76 | months 1-6 have 31 days, 7-11 have 30, month 12 has 30 in a leap year and 29 otherwise |
| Jalali.EarlierDate | route_nextDates.py:79-80 | the result is one of the two dates and is no later than either |
| Jalali.NextDay | route_nextDates.py:74-75 | the day after a valid date is valid and strictly later |
| Jalali.PrevDay | route_nextDates.py:76 | the day before a valid date is valid, strictly earlier, and its next day is the date again |
| Jalali.NextDayIsSuccessor | route_nextDates.py:74-75 | no valid date lies strictly between a date and its next day |
| Jalali.DayAfter | route_nextDates.py:74-75 | adding one day gives a later, valid date-time with the next date and the same time of day |
| Jalali.DayBefore | route_nextDates.py:76 | subtracting one day gives an earlier, valid date-time with the previous date and the same time of day |
| Jalali.DateOfEarlier | route_nextDates.py:79-86 | the `.date()` of the earlier of two date-times is the earlier of their dates, so comparing before taking dates is sound |
| Jalali.FormatDate | realLoadNextDates.py:24 | `%Y<sep>%m<sep>%d` always has ten characters |
| Jalali.FormatTime | realLoadAsString.py:42 | the ` %H:%M:%S` tail always has nine characters |
| Jalali.FormatDateTime | realLoadAsString.py:42 | a rendered date-time has 19 characters: the rendered date, then the time tail |
| Jalali.ParseDate | realLoadNextDates.py:24 | whatever strict `%Y<sep>%m<sep>%d` parsing accepts is a valid calendar date |
| Jalali.ParseDateTime | realLoadAsString.py:36 | whatever strict `%Y<sep>%m<sep>%d %H:%M:%S` parsing accepts is a valid date-time |
| Jalali.FormatDateParts | realLoadNextDates.py:24 | a rendered date has the padded year, month and day at fixed positions with the separator between |
| Jalali.FormatTimeParts | realLoadAsString.py:42 | the time tail has padded hour, minute and second at fixed positions |
| Jalali.ParseFormatDate | realLoadNextDates.py:24 | parsing a rendered date gives the date back, for any non-digit separator |
| Jalali.FormatParseDate | realLoadNextDates.py:24 | a string that parses as a date is exactly that date's rendering |
| Jalali.ParseFormatDateTime | realLoadAsString.py:36-42 | parsing a rendered date-time gives it back |
| Jalali.FormatParseDateTime | realLoadAsString.py:36-42 | a string that parses as a date-time is exactly its rendering |
| RealLoadNextDates.MessagesDistinct | realLoadNextDates.py:50-60 | the three ValueError texts are pairwise different, so the text tells which check failed |
| RealLoadNextDates.Create | realLoadNextDates.py:46-72 | succeeds iff all three orderings hold; each of the three errors arises iff its check is the first one violated |
| RealLoadNextDates.CreateRoundTrip | realLoadNextDates.py:62-72 | every field of a built model is its date as zero-padded `YYYY/MM/DD`, and parsing the six fields gives back the six dates |
| RealLoadNextDates.CreateInjective | realLoadNextDates.py:62-72 | two equal built models come from equal date sextuples |
| RealLoadNextDates.BuiltModelIsOrdered | realLoadNextDates.py:50-60 | the dates read back from any built model satisfy the three invariants `create` checks |
| NextDatesRoute.ProposedWindow | route_nextDates.py:73-91 | the default "from" date is the earlier of the day after the last load and yesterday; both starts are the first load date; the "to" default and both ends are yesterday |
| NextDatesRoute.GenerateNextDate | route_nextDates.py:61-71 | a failed dates query is an internal error, and a missing row gives `None`, each iff that is what the read returned |
| NextDatesRoute.RouteFailureStatus | route_nextDates.py:61-102 | every failure of the route is a 500; it is a rejected window exactly when the dates were found and `create` failed, and then it carries `create`'s error |
| NextDatesRoute.WindowCollapses | route_nextDates.py:78-80 | when loads reach yesterday or beyond, the default "from" date equals the default "to" date, yesterday |
| NextDatesRoute.WindowBuiltIff | route_nextDates.py:93-102 | a window is returned iff the first load date is no later than the default "from" date; otherwise `create` fails its second check and the route reports an internal error |
| NextDatesRoute.WindowReturned | route_nextDates.py:93-96 | if the first load date is no later than the last load date and no later than yesterday, a window is returned, and its strings read back as ordered dates |
| NextDatesRoute.ExampleWindow | route_nextDates.py:73-96 | first load 1400/01/01, last 1401/01/05, today 1401/01/10: the six strings read back as 1400/01/01, 1401/01/06, 1401/01/09, 1400/01/01, 1401/01/09, 1401/01/09 |
| RealLoadAsString.Message | realLoadAsString.py:61-62 | a failed record creation is reported as `Failed to create RealLoadModel: ` followed by the validation's reason |
| RealLoadAsString.TruncateToHour | realLoadAsString.py:38 | `replace(minute=0, second=0)` keeps the date and the hour and zeroes the minute and second |
| RealLoadAsString.ToDailyRealLoad | realLoadAsString.py:33-62 | each of the four errors arises iff its check is the first to fail (format, number, year above 2100, validation of the record built from the `-` rendering, whose reason it carries); a result carries the location, the number, no source, the input's date-time rendered with `-`, and is accepted by the validation |
| RealLoadAsString.Reseparated | realLoadAsString.py:36-42 | a date-time read with `/` and written with `-` reads back as the same date-time and differs from the input only in the two date separators |
| RealLoadAsString.StoredKeepsFields | realLoadAsString.py:36-42 | the stored datetime of a created record parses with `-` to the input's date-time, minutes and seconds included, and equals the input with `/` replaced by `-` |
| RealLoadAsString.YearCheckInJalaliTerms | realLoadAsString.py:40-56 | if the Gregorian year is the Jalali year plus 621 or 622, Jalali years from 1480 are rejected as implausible and years up to 1478 are not |
| RealLoadAsString.AcceptedRecord | realLoadAsString.py:58-62 | a well-formed input with a plausible year gives exactly the validation's verdict on the record it builds |
| RealLoadAsString.DashedInputRefused | realLoadAsString.py:36-46 | an input already in `YYYY-MM-DD` form is refused as malformed |
| DefineLoadsAsExcel.HourColumn | route_defineLoadsAsExcel.py:59 | the column of an hour is `H` followed by at least one character |
| DefineLoadsAsExcel.HourColumnReadsHour | route_defineLoadsAsExcel.py:59 | after the `H`, the column name is the hour in decimal digits, without a leading zero |
| DefineLoadsAsExcel.HourColumnInjective | route_defineLoadsAsExcel.py:56-59 | two different hours read two different columns |
| DefineLoadsAsExcel.HourStamp | route_defineLoadsAsExcel.py:57-58 | the stamp is the date text, a space, then the two-digit hour and `:00:00` |
| FetchLoads.StampReadsBack | route_fetchLoads.py:109-110 | a stamp the Excel route writes for hour `h` of a ten-character date reads back in `format_loads` as that date and hour `h` |
| DefineLoadsAsExcel.MapSheet | route_defineLoadsAsExcel.py:52-67 | the nested loop returns exactly what the row-by-row, hour-by-hour specification gives, first exception included |
| DefineLoadsAsExcel.FilledHours | route_defineLoadsAsExcel.py:56-61 | every listed hour is from the requested range |
| DefineLoadsAsExcel.FilledHoursMembers | route_defineLoadsAsExcel.py:56-61 | the listed hours are exactly the hours whose cell holds a number |
| DefineLoadsAsExcel.FilledHoursAscending | route_defineLoadsAsExcel.py:56 | those hours are listed in strictly ascending order |
| DefineLoadsAsExcel.CellLoadsOk | route_defineLoadsAsExcel.py:59-67 | one cell maps without error iff its column exists, it is not unconvertible, and a number in it passes validation; it then yields its one record, or none if blank |
| DefineLoadsAsExcel.HoursLoadsSucceeds | route_defineLoadsAsExcel.py:56-67 | hours `h`..23 of a row map without error iff each of their cells is fine |
| DefineLoadsAsExcel.HoursLoadsRecords | route_defineLoadsAsExcel.py:56-67 | they then yield one record per filled hour, in ascending hour order |
| DefineLoadsAsExcel.RowLoadsSpec | route_defineLoadsAsExcel.py:54-67 | a row maps iff it has a date and all 24 cells are fine, and then yields one record per filled hour |
| DefineLoadsAsExcel.SheetLoadsSucceeds | route_defineLoadsAsExcel.py:52-71 | the sheet maps iff every row maps: one bad cell anywhere rejects the upload |
| DefineLoadsAsExcel.SheetLoadsRecords | route_defineLoadsAsExcel.py:52-67 | a mapped sheet yields its rows' records in row order, one per non-empty hour cell |
| DefineLoadsAsExcel.FirstFailureWins | route_defineLoadsAsExcel.py:56-71 | within a row, the first failing hour's exception is the row's error |
| DefineLoadsAsExcel.FirstFailingRowWins | route_defineLoadsAsExcel.py:54-71 | across rows, the first failing row's error is the sheet's |
| DefineLoadsAsExcel.NegativeLoadRejectsSheet | route_defineLoadsAsExcel.py:54-71 | a row `1401/02/01` with 120.5, blank, -5 whose validation refuses -5 rejects the whole sheet with that refusal |
| DefineLoadsAsExcel.LoadStore.WriteLoads | route_defineLoadsAsExcel.py:73-74 | one write call is appended to the store's log; it succeeds iff the store is available |
| DefineLoadsAsExcel.DefineRealLoadAsExcelFile | route_defineLoadsAsExcel.py:36-80 | an unreadable file or a mapping failure is a 400 and writes nothing; otherwise exactly one write of all mapped records, and a 500 if it fails |
| FetchLoads.DatePart | route_fetchLoads.py:109 | `datetime[:10]` is the prefix of the text, ten characters long or the whole text when shorter |
| FetchLoads.HourText | route_fetchLoads.py:110 | `datetime[11:13]` has at most two characters |
| FetchLoads.ParseHour | route_fetchLoads.py:110 | an hour `int()` accepts from two characters lies in -9..99 |
| FetchLoads.ParseHourOfPad | route_fetchLoads.py:110 | a two-digit `%H` field reads back as its hour |
| FetchLoads.Rows | route_fetchLoads.py:117-119 | one row per date of the dictionary, in its key order |
| FetchLoads.FormatLoads | route_fetchLoads.py:102-122 | the loop that fills the dictionary in place returns exactly the loop specification's rows, or its first exception |
| FetchLoads.FirstOccurrences | route_fetchLoads.py:104-119 | dictionary key order: the same dates, each once |
| FetchLoads.FirstOccurrencesOrder | route_fetchLoads.py:104-119 | of any two listed dates, the earlier one occurs in the input before any occurrence of the later one |
| FetchLoads.ContributingDatesSpec | route_fetchLoads.py:106-114 | a date is among the contributing dates iff some readable record of it has a positive load |
| FetchLoads.LastLoadSpec | route_fetchLoads.py:113-114 | the slot's value comes from a record that writes it with none writing it afterwards, and is absent iff no record writes the slot |
| FetchLoads.LastLoadDate | route_fetchLoads.py:104-114 | no slot of a date is written unless the date has a contributing record |
| FetchLoads.RunSucceeds | route_fetchLoads.py:106-110 | the loop completes iff every record having both attributes has an hour `int()` can read |
| FetchLoads.StepInert | route_fetchLoads.py:112-113 | a record with a load of at most 0 changes neither the table nor the reference values |
| FetchLoads.StepWrites | route_fetchLoads.py:113-114 | a positive record keeps the table in step with the reference definitions |
| FetchLoads.RunDescribes | route_fetchLoads.py:104-114 | the loop's table has the dates in first-positive order, 24 slots each plus exactly the other hours some positive record wrote, and every slot holds its last positive load or 0.0 |
| FetchLoads.FormatLoadsSucceeds | route_fetchLoads.py:106-110 | `format_loads` raises iff some record with both attributes has an unreadable hour |
| FetchLoads.FormatLoadsRows | route_fetchLoads.py:102-122 | one row per contributing date in first-occurrence order with no repeats; slot `h` is the last positive load for that date and hour, or 0.0; a slot outside 0..23 is present exactly when a positive record wrote it |
| FetchLoads.NegativeHourSlot | route_fetchLoads.py:110-114 | a positive record whose hour reads as -5 adds the slot `H-5` with its load to the row |
| FetchLoads.DateAppearsIff | route_fetchLoads.py:109-114 | a date has a row iff some readable record of that date has a positive load |
| FetchLoads.RowsHaveDaySlots | route_fetchLoads.py:104-114 | when every positive record's hour is in 0..23, every row has exactly the keys H0..H23 |
| FetchLoads.InertRecordIrrelevant | route_fetchLoads.py:106-113 | removing a record that neither raises nor writes a slot does not change the result |
| FetchLoads.EmptyInput | route_fetchLoads.py:102-122 | no records give no rows |
| FetchLoads.RowsNotSortedByDate | route_fetchLoads.py:117-122 | a later date read first is listed first: the rows are not sorted by date |
| FetchLoads.StrLeTotal | route_fetchLoads.py:121 | string order is total |
| FetchLoads.StrLeTransitive | route_fetchLoads.py:121 | string order is transitive |
| FetchLoads.SortByDateSpec | route_fetchLoads.py:121-122 | sorting keeps exactly the same rows (as a multiset) and orders them by date |
| FetchLoads.SortedFormatLoads | route_fetchLoads.py:102-122 | raises exactly when `format_loads` does; otherwise returns the same rows, sorted ascending by date |

## Findings

| source | as written | input that shows it | evidently intended | confidence | as-written member | corrected member |
|---|---|---|---|---|---|---|
| route_fetchLoads.py:121-122 | the comment announces a list sorted by date, but the rows are returned in dictionary insertion order | records for 1401-01-02 then 1401-01-01 (hour 05, positive loads) give the 1401-01-02 row first | the rows sorted ascending by date, as the comment at route_fetchLoads.py:121 says | medium, not executed; the route queries one day per call, so only a query that returns several dates shows it | FetchLoads.RowsNotSortedByDate | FetchLoads.SortedFormatLoads |

`FetchLoads.FormatLoads` and `FetchLoads.FormatLoadsSpec` model the code as
written. `FetchLoads.SortedFormatLoads` is the corrected formatter: same rows,
sorted, proved by `FetchLoads.SortByDateSpec`.

## Left out

- HTTP routing, authentication and the user/location lookup. The location is a parameter.
- Status texts are left out. Responses carry the status code and the cause, not the Persian messages.
- The database is not modelled. The dates query is an input (`DatesRead`). The
  records given to `format_loads` are an input. The write is a `LoadStore` that
  logs calls and either succeeds or fails.
- `queryRealLoadsFromDB` and the per-day loop of the fetch route are not modelled.
  Neither is the timestamp and timezone handling around them (pytz, microseconds).
  They choose which records `format_loads` receives, and they also shape the
  response: `queryRealLoadsFromDB` returns `[]` without calling
  `format_loads` when the query finds no records (route_fetchLoads.py:92-94);
  the per-day loop concatenates the per-day lists (route_fetchLoads.py:72) and
  answers `{"ExpectedLoad": []}` when the result is empty
  (route_fetchLoads.py:74-75).
- The jdatetime library itself is not part of this model:
  - Calendar validity uses the 33-year arithmetic leap rule.
  - `togregorian()` is the parameter `gregorianYear`, since only its year is used.
  - `now()` is the parameter `now`.
- The calendar is modelled for years 1..9999. `NextDatesRoute.GenerateNextDate`
  requires inputs one day away from either end (`Admissible`). The overflow the
  library would raise there is not modelled.
- `Jalali.ParseDate`, `Jalali.ParseDateTime`: strict fixed-width parsing.
  Inputs that strptime also accepts, such as unpadded fields, are not modelled.
- `FetchLoads.ParseHour`: models `int()` on the two characters `s[11:13]`.
  That covers digits, a sign, and ASCII blanks. Non-ASCII Unicode digits and
  Unicode spaces, which `int()` also accepts, are not modelled.
- Floating point: loads are `real`. Rounding and NaN/inf are not modelled.
- A pandas cell is modelled only by what the loop observes: empty (`isna`), a
  number `float()` accepts, or something it rejects. `pd.read_excel` is an
  `Option` input. `str(row["date"])` is the date text, or `None` when the
  column is missing.
- The field validation of `RealLoadModel` is the parameter `check`. Its rules
  (for instance non-negative loads) are outside the core.
- In the single-record validator, the pydantic model already makes the load a
  float. The "not a proper number" branch is modelled as `loadMWh == None`,
  which stands for `float()` raising.
- `NextDatesRoute.DateSummary` holds the first and last load dates already in
  the Jalali calendar. The `fromgregorian` conversions of the database dates
  (route_nextDates.py:74-75 and 82-83) are not modelled.
- The `logging.error` calls before each error response (route_nextDates.py:66
  and 100, route_defineLoadsAsExcel.py:47, 69 and 76) are left out: they only
  write to the log.
- `RealLoadAsString.fromDailyRealLoad` is not part of the core. It is also not
  callable as written: it uses an undefined `DATE_FORMAT` and unknown fields.
- The remaining routes (last available date-time, interpolated and missing dates)
  are not part of the core.
