/**
 * The synchronisation run (update_data and the guard in main): plan the
 * window, download it, reshape, merge into the stored frame, and refuse to
 * write a frame that is missing or empty.
 *
 * Reading and writing the CSV file, the clock and the remote provider are
 * parameters: `existing` is what was loaded (None when there is no file),
 * `today` is the current date, and `provider` is what the remote service
 * returns for a window.
 */
module Sync {
  import opened Records
  import opened Calendar
  import opened Planner
  import opened Fetch
  import opened Merge

  /** Why a run ends without writing anything. */
  datatype Failure = NoDataAvailable

  datatype Result<T> = Ok(value: T) | Err(failure: Failure)

  /**
   * The tail of update_data: with nothing fetched the stored frame is kept;
   * on the first run the fetched frame is taken as it is; otherwise the two
   * are merged.
   */
  function Combine<P>(existing: Option<seq<Record<P>>>, fetched: Option<seq<Record<P>>>)
    : (r: Option<seq<Record<P>>>)
    ensures fetched.None? ==> r == existing
    ensures existing.None? ==> r == fetched
    ensures existing.Some? && fetched.Some? ==>
      r.Some? && NoDupKeys(r.value) && SortedByTime(r.value) &&
      Keys(r.value) == Keys(existing.value) + Keys(fetched.value) &&
      forall i | 0 <= i < |r.value| :: Wins(existing.value, fetched.value, r.value[i])
  {
    match fetched
    case None => existing
    case Some(incoming) =>
      match existing
      case None => fetched
      case Some(stored) => Some(MergeRecords(stored, incoming))
  }

  /** update_data: one run of plan, download, reshape and merge. */
  function UpdateData<P(==,!new)>(existing: Option<seq<Record<P>>>, today: int, provider: (int, int) -> Download<P>)
    : (r: Option<seq<Record<P>>>)
    ensures existing.None? ==> r == FetchNewData(provider(FloorDay, today))
    ensures existing.Some? ==> r.Some? && Keys(existing.value) <= Keys(r.value)
    ensures existing.Some? && |existing.value| == 0 ==> r == existing
  {
    var window := NewDatesNeeded(existing, today);
    var fetched := if window.None? then None else FetchNewData(provider(window.value.start, window.value.end));
    Combine(existing, fetched)
  }

  /** The check in main before the frame is written: nothing or an empty frame is refused. */
  function GuardBeforeWrite<P>(data: Option<seq<Record<P>>>): (r: Result<seq<Record<P>>>)
    ensures r.Ok? <==> data.Some? && |data.value| > 0
    ensures r.Ok? ==> r.value == data.value
    ensures r.Err? ==> r.failure == NoDataAvailable
  {
    if data.None? || |data.value| == 0 then Err(NoDataAvailable) else Ok(data.value)
  }

  /** main up to the write: the frame that would be saved, or the reason nothing is. */
  function Run<P(==,!new)>(existing: Option<seq<Record<P>>>, today: int, provider: (int, int) -> Download<P>)
    : (r: Result<seq<Record<P>>>)
    ensures existing.Some? && |existing.value| > 0 ==> r.Ok? && Keys(existing.value) <= Keys(r.value)
  {
    GuardBeforeWrite(UpdateData(existing, today, provider))
  }

  /** A failed or empty download leaves the stored frame exactly as it was. */
  lemma FetchFailureKeepsExisting<P(!new)>(stored: seq<Record<P>>, today: int, provider: (int, int) -> Download<P>)
    requires |stored| > 0
    requires NewDatesNeeded(Some(stored), today).Some?
    requires var w := NewDatesNeeded(Some(stored), today).value;
             FetchNewData(provider(w.start, w.end)).None?
    ensures UpdateData(Some(stored), today, provider) == Some(stored)
  {
  }

  /**
   * After any run on a stored frame, the stored frame's keys are all still
   * there, the frame is free of duplicate keys and in DATETIME order unless
   * the download failed, and every row is a stored row or a downloaded one.
   */
  lemma UpdateDataOnStoredFrame<P(!new)>(stored: seq<Record<P>>, today: int, provider: (int, int) -> Download<P>)
    requires |stored| > 0
    ensures var r := UpdateData(Some(stored), today, provider).value;
            var w := NewDatesNeeded(Some(stored), today).value;
            var d := provider(w.start, w.end);
            (FetchNewData(d).None? ==> r == stored) &&
            (FetchNewData(d).Some? ==>
               NoDupKeys(r) && SortedByTime(r) &&
               forall i | 0 <= i < |r| :: r[i] in stored || Produces(d.rows, r[i]))
  {
  }

  /** First run and no data from the provider: the run ends with NoDataAvailable. */
  lemma FirstRunWithoutDataFails<P(!new)>(today: int, provider: (int, int) -> Download<P>)
    requires FetchNewData(provider(FloorDay, today)).None?
    ensures Run(None, today, provider) == Err(NoDataAvailable)
  {
  }

  /**
   * First run, provider gives PRICE_PT and PRICE_SP rows for one date with
   * every price numeric: the frame to be written has 2 x 24 = 48 rows, no
   * two of them share a key, and they are in DATETIME order, so the stored
   * frame meets what the merge of later runs expects of it.
   */
  lemma FirstRunTwoMarkets<P(!new)>(d: int, p: P, today: int, provider: (int, int) -> Download<P>)
    requires var cells := seq(HoursPerDay, _ => Some(p));
             provider(FloorDay, today) == Table([RawRow(d, PricePT, cells), RawRow(d, PriceSP, cells)])
    ensures Run(None, today, provider).Ok? && |Run(None, today, provider).value| == 48
    ensures NoDupKeys(Run(None, today, provider).value) && SortedByTime(Run(None, today, provider).value)
  {
    var cells := seq(HoursPerDay, _ => Some(p));
    var rows := [RawRow(d, PricePT, cells), RawRow(d, PriceSP, cells)];
    assert SelectPrices(rows[1..]) == rows[1..];
    assert SelectPrices(rows) == rows;
    ProcessOmieDataSize(rows);
    assert PricePT != PriceSP;
    assert DistinctPriceRows(rows);
    ProcessOmieDataNoDup(rows);
    ProcessOmieDataSortedOneDate(rows, d);
    assert Run(None, today, provider).value == ProcessOmieData(rows);
  }

  /**
   * The first run writes the fetched frame without sorting it: two dates of
   * PRICE_PT rows come out hour column by hour column, out of DATETIME order.
   */
  lemma FirstRunIsNotSorted<P(!new)>(d: int, p: P, today: int, provider: (int, int) -> Download<P>)
    requires var cells := seq(HoursPerDay, _ => Some(p));
             provider(FloorDay, today) == Table([RawRow(d, PricePT, cells), RawRow(d + 1, PricePT, cells)])
    ensures Run(None, today, provider).Ok? && !SortedByTime(Run(None, today, provider).value)
  {
    MeltOrderIsByHourColumn(d, p);
  }
}
