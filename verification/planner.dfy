/**
 * Range planning: which dates to download on this run
 * (get_new_dates_needed).  The clock is a parameter: `today` is a day number.
 */
module Planner {
  import opened Records
  import opened Calendar

  /** The download window, both ends inclusive, as day numbers. */
  datatype Range = Range(start: int, end: int)

  /** `existing['DATETIME'].max()`: the latest timestamp of a non-empty frame. */
  function LatestStamp<P>(s: seq<Record<P>>): (m: int)
    requires |s| > 0
    ensures exists i | 0 <= i < |s| :: s[i].stamp == m
    ensures forall i | 0 <= i < |s| :: s[i].stamp <= m
  {
    if |s| == 1 then s[0].stamp
    else
      var rest := LatestStamp(s[1..]);
      assert forall i | 1 <= i < |s| :: s[i] == s[1..][i - 1];
      if s[0].stamp < rest then rest else s[0].stamp
  }

  /**
   * The window to download.  Without a stored dataset it starts at the floor
   * date; otherwise at the date of the latest stored DATETIME minus
   * DaysToCheck days, but never before the floor.  It always ends today.
   * A stored frame with no rows has no latest DATETIME: no window.
   */
  function NewDatesNeeded<P>(existing: Option<seq<Record<P>>>, today: int): (r: Option<Range>)
    ensures r.Some? <==> existing.None? || |existing.value| > 0
    ensures r.Some? ==> r.value.end == today && r.value.start >= FloorDay
    ensures existing.None? ==> r == Some(Range(FloorDay, today))
    ensures existing.Some? && r.Some? ==>
      (forall i | 0 <= i < |existing.value| ::
         DayOf(existing.value[i].stamp) - DaysToCheck <= r.value.start) &&
      (r.value.start == FloorDay ||
       exists i | 0 <= i < |existing.value| ::
         DayOf(existing.value[i].stamp) - DaysToCheck == r.value.start)
  {
    match existing
    case None => Some(Range(FloorDay, today))
    case Some(s) =>
      if |s| == 0 then None
      else
        var lastDate := DayOf(LatestStamp(s));
        assert forall i | 0 <= i < |s| :: DayOf(s[i].stamp) <= lastDate by {
          forall i | 0 <= i < |s| ensures DayOf(s[i].stamp) <= lastDate {
            DayOfMonotonic(s[i].stamp, LatestStamp(s));
          }
        }
        var start := if lastDate - DaysToCheck < FloorDay then FloorDay else lastDate - DaysToCheck;
        Some(Range(start, today))
  }

  /**
   * The start of a window is never after its end unless the stored data
   * reaches more than DaysToCheck days past today.  A rerun on the day of the
   * last run is covered: its latest row is the H24 price, dated tomorrow.
   */
  lemma StartNotAfterToday<P>(existing: Option<seq<Record<P>>>, today: int)
    requires FloorDay <= today
    requires existing.Some? ==> forall i | 0 <= i < |existing.value| :: DayOf(existing.value[i].stamp) <= today + DaysToCheck
    requires NewDatesNeeded(existing, today).Some?
    ensures NewDatesNeeded(existing, today).value.start <= today
  {
  }

  /** First run, today = 2024-03-10: the window is 2023-01-01 .. 2024-03-10. */
  lemma FirstRunExample()
    ensures NewDatesNeeded<int>(None, DaysFromCivil(2024, 3, 10))
         == Some(Range(DaysFromCivil(2023, 1, 1), DaysFromCivil(2024, 3, 10)))
  {
  }

  /**
   * Latest stored DATETIME on 2024-03-01, today = 2024-03-10: the window is
   * 2024-02-23 .. 2024-03-10.
   */
  lemma IncrementalExample(older: Record<int>, latest: Record<int>)
    requires latest.stamp == Stamp(DaysFromCivil(2024, 3, 1), 10)
    requires older.stamp <= latest.stamp
    ensures NewDatesNeeded(Some([older, latest]), DaysFromCivil(2024, 3, 10))
         == Some(Range(DaysFromCivil(2024, 2, 23), DaysFromCivil(2024, 3, 10)))
  {
    var day := DaysFromCivil(2024, 3, 1);
    assert day == 19783;
    assert DaysFromCivil(2024, 2, 23) == 19776;
    DayOfStamp(day, 10);
    assert LatestStamp([older, latest]) == latest.stamp;
  }

  /**
   * When the latest stored row is the H24 price of market day d, its DATETIME
   * falls on d + 1, so the next window starts at d + 1 - DaysToCheck.
   */
  lemma H24ShiftsWindow<P>(s: seq<Record<P>>, d: int, today: int)
    requires |s| > 0
    requires forall i | 0 <= i < |s| :: s[i].stamp <= Stamp(d, HoursPerDay)
    requires exists i | 0 <= i < |s| :: s[i].stamp == Stamp(d, HoursPerDay)
    requires d + 1 - DaysToCheck >= FloorDay
    ensures NewDatesNeeded(Some(s), today) == Some(Range(d + 1 - DaysToCheck, today))
  {
  }
}
