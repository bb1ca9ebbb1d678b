/**
 * The stored hourly load record (`RealLoadModel`). Its own field validation
 * lives outside the core, so every operation that builds a record receives
 * that validation as a parameter `check`.
 */
module RealLoadModel {
  import opened Wrappers

  /**
   * One hourly record. `locationId` and `source` are optional because the
   * two builders fill different fields: the single-record validator gives a
   * location, the Excel mapper a source.
   */
  datatype RealLoad = RealLoad(
    locationId: Option<int>,
    datetime: string,
    loadMWh: real,
    source: Option<string>)

  /** Records are hourly: a day has this many of them, hours 0..23. */
  const HoursPerDay := 24

  /** What the record's own validation says: accepted, or a pydantic ValidationError. */
  datatype Verdict = Accepted | Rejected(reason: string)
}
