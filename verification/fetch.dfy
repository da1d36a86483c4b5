/**
 * The fetch adapter (fetch_new_data and its inner process_omie_data): the
 * provider's wide table, one row per (DATE, CONCEPT) with hour columns
 * H1..H24, reshaped into the long (DATETIME, COUNTRY, PRICE) frame.
 *
 * The provider itself is out of reach: what it returned is a `Download`
 * value, either a table of raw rows or `Unavailable` for any failure.
 */
module Fetch {
  import opened Records
  import opened Calendar

  const PricePT: string := "PRICE_PT"
  const PriceSP: string := "PRICE_SP"

  /**
   * One provider row.  `hours` holds the cells of the columns H1..H24 and
   * nothing else: `hours[h - 1]` is the H`h` cell, already coerced to a
   * number (`Some`) or found not numeric (`None`, pandas' NaN).  Other
   * columns of the table are not read by the reshape and are not modelled.
   */
  datatype RawRow<P> = RawRow(date: int, concept: string, hours: seq<Option<P>>)

  /** What the provider gave back for the requested window. */
  datatype Download<P> = Unavailable | Table(rows: seq<RawRow<P>>)

  /** One row of the melted frame, before rows without a price are dropped. */
  datatype Melted<P> = Melted(stamp: int, country: Country, price: Option<P>)

  /**
   * The table has all of the columns H1..H24 that the reshape reads; a row
   * with fewer than 24 hour cells stands for a table missing one of them.
   */
  predicate HasHourColumns<P(==,!new)>(rows: seq<RawRow<P>>) {
    forall row | row in rows :: |row.hours| == HoursPerDay
  }

  predicate IsPriceConcept(concept: string) {
    concept == PricePT || concept == PriceSP
  }

  /** PRICE_PT rows are Portugal's; every other kept row is Spain's. */
  function CountryOf(concept: string): (c: Country)
    ensures c == Portugal <==> concept == PricePT
  {
    if concept == PricePT then Portugal else Espanha
  }

  /** The rows whose CONCEPT is PRICE_PT or PRICE_SP, in their order. */
  function SelectPrices<P(==,!new)>(rows: seq<RawRow<P>>): (r: seq<RawRow<P>>)
    ensures forall row :: row in r <==> row in rows && IsPriceConcept(row.concept)
    ensures forall row :: multiset(r)[row] == if IsPriceConcept(row.concept) then multiset(rows)[row] else 0
    ensures |r| <= |rows|
  {
    if rows == [] then []
    else
      var rest := SelectPrices(rows[1..]);
      assert rows == [rows[0]] + rows[1..];
      assert forall row :: row in rows <==> row == rows[0] || row in rows[1..];
      if IsPriceConcept(rows[0].concept) then [rows[0]] + rest else rest
  }

  /** The melted row that the H`h` cell of `row` becomes. */
  function MeltCell<P>(row: RawRow<P>, h: int): Melted<P>
    requires 1 <= h <= |row.hours|
  {
    Melted(Stamp(row.date, h), CountryOf(row.concept), row.hours[h - 1])
  }

  /** The block of the melted frame that comes from column H`h`, one row per input row. */
  function MeltColumn<P(==,!new)>(rows: seq<RawRow<P>>, h: int): (r: seq<Melted<P>>)
    requires HasHourColumns(rows) && 1 <= h <= HoursPerDay
    ensures |r| == |rows|
  {
    if rows == [] then []
    else [MeltCell(rows[0], h)] + MeltColumn(rows[1..], h)
  }

  /**
   * Columns H`h`..H24 melted, column after column (the order in which
   * `melt` stacks its value columns).
   */
  function MeltFrom<P(==,!new)>(rows: seq<RawRow<P>>, h: int): (r: seq<Melted<P>>)
    requires HasHourColumns(rows) && 1 <= h <= HoursPerDay + 1
    ensures |r| == (HoursPerDay + 1 - h) * |rows|
    decreases HoursPerDay + 1 - h
  {
    if h == HoursPerDay + 1 then []
    else MeltColumn(rows, h) + MeltFrom(rows, h + 1)
  }

  /** `dropna`: keep the melted rows whose price is a number. */
  function DropAbsent<P>(cells: seq<Melted<P>>): (r: seq<Record<P>>)
    ensures |r| <= |cells|
    ensures (forall i | 0 <= i < |cells| :: cells[i].price.Some?) ==> |r| == |cells|
  {
    if cells == [] then []
    else
      var rest := DropAbsent(cells[1..]);
      match cells[0].price
      case None => rest
      case Some(p) => [Record(cells[0].stamp, cells[0].country, p)] + rest
  }

  /**
   * process_omie_data: filter, melt, tag the country, drop missing prices.
   * Each kept row yields one record per numeric hour cell.
   */
  function ProcessOmieData<P(==,!new)>(rows: seq<RawRow<P>>): (r: seq<Record<P>>)
    requires HasHourColumns(rows)
    ensures |r| == NumericCells(SelectPrices(rows))
  {
    var sel := SelectPrices(rows);
    MeltFromCount(sel, 1);
    NumericFromFirst(sel);
    DropAbsent(MeltFrom(sel, 1))
  }

  /** How many of the cells hold a number, i.e. survive `dropna`. */
  function NumericCount<P>(cells: seq<Option<P>>): (n: nat)
    ensures n <= |cells|
    ensures n == |cells| <==> forall i | 0 <= i < |cells| :: cells[i].Some?
  {
    if cells == [] then 0
    else
      assert forall i | 1 <= i < |cells| :: cells[1..][i - 1] == cells[i];
      (if cells[0].Some? then 1 else 0) + NumericCount(cells[1..])
  }

  /** The numeric hour cells of the rows, counted row by row. */
  function NumericCells<P>(rows: seq<RawRow<P>>): nat {
    if rows == [] then 0 else NumericCount(rows[0].hours) + NumericCells(rows[1..])
  }

  /**
   * Record `x` comes from some PRICE_PT / PRICE_SP row and some hour column
   * H`h`: its DATETIME is the row's DATE plus h hours, its COUNTRY is the
   * row's market and the H`h` cell held its price.
   */
  ghost predicate Produces<P(!new)>(rows: seq<RawRow<P>>, x: Record<P>)
    requires HasHourColumns(rows)
  {
    exists row, h | row in rows && IsPriceConcept(row.concept) && 1 <= h <= HoursPerDay ::
      x.stamp == Stamp(row.date, h) && x.country == CountryOf(row.concept) && row.hours[h - 1] == Some(x.price)
  }

  /** Every price cell of every PRICE_PT / PRICE_SP row is a number. */
  ghost predicate AllPricesPresent<P(!new)>(rows: seq<RawRow<P>>) {
    forall row | row in rows && IsPriceConcept(row.concept) ::
      forall h | 0 <= h < |row.hours| :: row.hours[h].Some?
  }

  /**
   * fetch_new_data after the download: no table or an empty one gives
   * nothing; a table without the hour columns makes the reshape fail, which
   * the catch-all also turns into nothing; otherwise the reshaped frame
   * (possibly with no rows at all).
   */
  function FetchNewData<P(==,!new)>(download: Download<P>): (r: Option<seq<Record<P>>>)
    ensures r.Some? <==> download.Table? && |download.rows| > 0 && HasHourColumns(download.rows)
    ensures r.Some? ==> forall x :: x in r.value <==> Produces(download.rows, x)
  {
    match download
    case Unavailable => None
    case Table(rows) =>
      if |rows| == 0 || !HasHourColumns(rows) then None
      else
        ProcessOmieDataMembers(rows);
        Some(ProcessOmieData(rows))
  }

  lemma {:induction false} MeltColumnMembers<P(!new)>(rows: seq<RawRow<P>>, h: int, c: Melted<P>)
    requires HasHourColumns(rows) && 1 <= h <= HoursPerDay
    ensures c in MeltColumn(rows, h) <==> exists row | row in rows :: c == MeltCell(row, h)
  {
    if rows != [] {
      MeltColumnMembers(rows[1..], h, c);
      assert forall row :: row in rows <==> row == rows[0] || row in rows[1..];
    }
  }

  lemma {:induction false} MeltFromMembers<P(!new)>(rows: seq<RawRow<P>>, h: int, c: Melted<P>)
    requires HasHourColumns(rows) && 1 <= h <= HoursPerDay + 1
    ensures c in MeltFrom(rows, h) <==>
      exists row, k | row in rows && h <= k <= HoursPerDay :: c == MeltCell(row, k)
    decreases HoursPerDay + 1 - h
  {
    if h <= HoursPerDay {
      MeltColumnMembers(rows, h, c);
      MeltFromMembers(rows, h + 1, c);
      if c in MeltFrom(rows, h) {
        if c in MeltColumn(rows, h) {
          var row :| row in rows && c == MeltCell(row, h);
        } else {
          var row, k :| row in rows && h + 1 <= k <= HoursPerDay && c == MeltCell(row, k);
        }
      }
      if exists row, k | row in rows && h <= k <= HoursPerDay :: c == MeltCell(row, k) {
        var row, k :| row in rows && h <= k <= HoursPerDay && c == MeltCell(row, k);
        if k == h {
          assert c in MeltColumn(rows, h);
        } else {
          assert c in MeltFrom(rows, h + 1);
        }
      }
    }
  }

  lemma {:induction false} DropAbsentMembers<P(!new)>(cells: seq<Melted<P>>, x: Record<P>)
    ensures x in DropAbsent(cells) <==> Melted(x.stamp, x.country, Some(x.price)) in cells
  {
    if cells != [] {
      DropAbsentMembers(cells[1..], x);
      assert forall c :: c in cells <==> c == cells[0] || c in cells[1..];
    }
  }

  /** Exactly the records that some price row and hour column produce come out of the reshape. */
  lemma ProcessOmieDataMembers<P(!new)>(rows: seq<RawRow<P>>)
    requires HasHourColumns(rows)
    ensures forall x :: x in ProcessOmieData(rows) <==> Produces(rows, x)
  {
    var sel := SelectPrices(rows);
    forall x ensures x in ProcessOmieData(rows) <==> Produces(rows, x) {
      var c := Melted(x.stamp, x.country, Some(x.price));
      DropAbsentMembers(MeltFrom(sel, 1), x);
      MeltFromMembers(sel, 1, c);
      if x in ProcessOmieData(rows) {
        var row, k :| row in sel && 1 <= k <= HoursPerDay && c == MeltCell(row, k);
        assert x.stamp == Stamp(row.date, k) && row.hours[k - 1] == Some(x.price);
      }
      if Produces(rows, x) {
        var row, h :| row in rows && IsPriceConcept(row.concept) && 1 <= h <= HoursPerDay &&
          x.stamp == Stamp(row.date, h) && x.country == CountryOf(row.concept) && row.hours[h - 1] == Some(x.price);
        assert row in sel && c == MeltCell(row, h);
      }
    }
  }

  /**
   * Each kept row contributes at most 24 records, and exactly 24 when all
   * its prices are numbers.
   */
  lemma ProcessOmieDataSize<P(!new)>(rows: seq<RawRow<P>>)
    requires HasHourColumns(rows)
    ensures |ProcessOmieData(rows)| <= HoursPerDay * |SelectPrices(rows)|
    ensures AllPricesPresent(rows) ==> |ProcessOmieData(rows)| == HoursPerDay * |SelectPrices(rows)|
  {
    NumericCellsBound(SelectPrices(rows));
  }

  lemma {:induction false} NumericCellsBound<P(!new)>(rows: seq<RawRow<P>>)
    requires HasHourColumns(rows)
    ensures NumericCells(rows) <= HoursPerDay * |rows|
    ensures AllPricesPresent(rows) && (forall row | row in rows :: IsPriceConcept(row.concept)) ==>
      NumericCells(rows) == HoursPerDay * |rows|
  {
    if rows != [] {
      assert rows[0] in rows;
      NumericCellsBound(rows[1..]);
    }
  }

  /** Numeric cells of the columns H`h`..H24, summed over the rows. */
  ghost function NumericFrom<P(!new)>(rows: seq<RawRow<P>>, h: int): nat
    requires HasHourColumns(rows) && 1 <= h <= HoursPerDay + 1
  {
    if rows == [] then 0 else NumericCount(rows[0].hours[h - 1..]) + NumericFrom(rows[1..], h)
  }

  /** Column H`h` holds the first of the numeric cells counted from H`h` on. */
  lemma {:induction false} NumericFromSplit<P(!new)>(rows: seq<RawRow<P>>, h: int)
    requires HasHourColumns(rows) && 1 <= h <= HoursPerDay
    ensures NumericFrom(rows, h) == |DropAbsent(MeltColumn(rows, h))| + NumericFrom(rows, h + 1)
  {
    if rows != [] {
      var hs := rows[0].hours;
      assert rows[0] in rows;
      assert hs[h - 1..][1..] == hs[h..];
      DropAbsentAppend([MeltCell(rows[0], h)], MeltColumn(rows[1..], h));
      NumericFromSplit(rows[1..], h);
    }
  }

  lemma {:induction false} NumericFromEnd<P(!new)>(rows: seq<RawRow<P>>)
    requires HasHourColumns(rows)
    ensures NumericFrom(rows, HoursPerDay + 1) == 0
  {
    if rows != [] {
      assert rows[0] in rows;
      NumericFromEnd(rows[1..]);
    }
  }

  lemma {:induction false} NumericFromFirst<P(!new)>(rows: seq<RawRow<P>>)
    requires HasHourColumns(rows)
    ensures NumericFrom(rows, 1) == NumericCells(rows)
  {
    if rows != [] {
      assert rows[0].hours[0..] == rows[0].hours;
      NumericFromFirst(rows[1..]);
    }
  }

  /** Melting columns H`h`..H24 and dropping absent prices keeps one record per numeric cell. */
  lemma {:induction false} MeltFromCount<P(!new)>(rows: seq<RawRow<P>>, h: int)
    requires HasHourColumns(rows) && 1 <= h <= HoursPerDay + 1
    ensures |DropAbsent(MeltFrom(rows, h))| == NumericFrom(rows, h)
    decreases HoursPerDay + 1 - h
  {
    if h == HoursPerDay + 1 {
      NumericFromEnd(rows);
    } else {
      DropAbsentAppend(MeltColumn(rows, h), MeltFrom(rows, h + 1));
      MeltFromCount(rows, h + 1);
      NumericFromSplit(rows, h);
    }
  }

  lemma {:induction false} DropAbsentAppend<P>(a: seq<Melted<P>>, b: seq<Melted<P>>)
    ensures DropAbsent(a + b) == DropAbsent(a) + DropAbsent(b)
  {
    if a == [] {
      assert a + b == b;
    } else {
      assert (a + b)[0] == a[0] && (a + b)[1..] == a[1..] + b;
      DropAbsentAppend(a[1..], b);
    }
  }

  /**
   * The melted frame is stacked hour column by hour column, not date by
   * date: with two PRICE_PT rows for dates d and d + 1, the second output
   * record is (d + 1, H1) and the third is (d, H2), which is earlier.
   */
  lemma MeltOrderIsByHourColumn<P(!new)>(d: int, p: P)
    ensures var cells := seq(HoursPerDay, _ => Some(p));
            var out := ProcessOmieData([RawRow(d, PricePT, cells), RawRow(d + 1, PricePT, cells)]);
            |out| > 2 && out[1].stamp == Stamp(d + 1, 1) && out[2].stamp == Stamp(d, 2) && out[1].stamp > out[2].stamp
  {
    var cells := seq(HoursPerDay, _ => Some(p));
    var rows := [RawRow(d, PricePT, cells), RawRow(d + 1, PricePT, cells)];
    assert SelectPrices(rows[1..]) == rows[1..];
    assert SelectPrices(rows) == rows;
    var col1 := MeltColumn(rows, 1);
    var col2 := MeltColumn(rows, 2);
    assert rows[1..][1..] == [];
    assert MeltColumn(rows[1..], 1) == [MeltCell(rows[1], 1)];
    assert col1 == [MeltCell(rows[0], 1), MeltCell(rows[1], 1)];
    assert col2[0] == MeltCell(rows[0], 2);
    assert MeltFrom(rows, 1) == col1 + (col2 + MeltFrom(rows, 3));
    DropAbsentAppend(col1, col2 + MeltFrom(rows, 3));
    DropAbsentAppend(col2, MeltFrom(rows, 3));
    assert DropAbsent(col1) == [Record(Stamp(d, 1), Portugal, p), Record(Stamp(d + 1, 1), Portugal, p)];
    assert col2 == [col2[0]] + col2[1..];
    DropAbsentAppend([col2[0]], col2[1..]);
    assert DropAbsent([col2[0]]) == [Record(Stamp(d, 2), Portugal, p)];
  }

  /** No two PRICE_PT / PRICE_SP rows share both DATE and CONCEPT. */
  ghost predicate DistinctPriceRows<P>(rows: seq<RawRow<P>>) {
    forall i, j | 0 <= i < j < |rows| && IsPriceConcept(rows[i].concept) && IsPriceConcept(rows[j].concept) ::
      rows[i].date != rows[j].date || rows[i].concept != rows[j].concept
  }

  /** The rows after the first are distinct among themselves, and differ from the first. */
  lemma DistinctPriceRowsTail<P(!new)>(rows: seq<RawRow<P>>)
    requires DistinctPriceRows(rows) && rows != []
    ensures DistinctPriceRows(rows[1..])
    ensures IsPriceConcept(rows[0].concept) ==>
      forall row | row in rows[1..] && IsPriceConcept(row.concept) ::
        row.date != rows[0].date || row.concept != rows[0].concept
  {
  }

  lemma DistinctPriceRowsCons<P(!new)>(x: RawRow<P>, rows: seq<RawRow<P>>)
    requires DistinctPriceRows(rows)
    requires IsPriceConcept(x.concept) ==>
      forall row | row in rows && IsPriceConcept(row.concept) :: row.date != x.date || row.concept != x.concept
    ensures DistinctPriceRows([x] + rows)
  {
  }

  lemma {:induction false} SelectPricesDistinct<P(!new)>(rows: seq<RawRow<P>>)
    requires DistinctPriceRows(rows)
    ensures DistinctPriceRows(SelectPrices(rows))
  {
    if rows != [] {
      DistinctPriceRowsTail(rows);
      SelectPricesDistinct(rows[1..]);
      if IsPriceConcept(rows[0].concept) {
        DistinctPriceRowsCons(rows[0], SelectPrices(rows[1..]));
      }
    }
  }

  /** Every record of the block from column H`h` carries the DATE and market of some input row. */
  lemma ColumnOrigin<P(!new)>(rows: seq<RawRow<P>>, h: int, x: Record<P>)
    requires HasHourColumns(rows) && 1 <= h <= HoursPerDay
    requires x in DropAbsent(MeltColumn(rows, h))
    ensures exists row | row in rows :: x.stamp == Stamp(row.date, h) && x.country == CountryOf(row.concept)
  {
  }

  /** The block of one hour column has no duplicate keys, and all its records lie at that hour of the day. */
  lemma {:induction false} ColumnNoDup<P(!new)>(rows: seq<RawRow<P>>, h: int)
    requires HasHourColumns(rows) && 1 <= h <= HoursPerDay
    requires forall row | row in rows :: IsPriceConcept(row.concept)
    requires DistinctPriceRows(rows)
    ensures NoDupKeys(DropAbsent(MeltColumn(rows, h)))
    ensures forall x | x in DropAbsent(MeltColumn(rows, h)) :: HourOfDay(x.stamp) == h % HoursPerDay
  {
    forall x | x in DropAbsent(MeltColumn(rows, h)) ensures HourOfDay(x.stamp) == h % HoursPerDay {
      ColumnOrigin(rows, h, x);
      var row :| row in rows && x.stamp == Stamp(row.date, h) && x.country == CountryOf(row.concept);
      StampHour(row.date, h);
    }
    if rows != [] {
      var tail := rows[1..];
      DistinctPriceRowsTail(rows);
      ColumnNoDup(tail, h);
      var head := DropAbsent([MeltCell(rows[0], h)]);
      var rest := DropAbsent(MeltColumn(tail, h));
      DropAbsentAppend([MeltCell(rows[0], h)], MeltColumn(tail, h));
      forall x, y | x in head && y in rest ensures KeyOf(x) != KeyOf(y) {
        ColumnOrigin(tail, h, y);
        var row :| row in tail && y.stamp == Stamp(row.date, h) && y.country == CountryOf(row.concept);
        assert row.date != rows[0].date || row.concept != rows[0].concept;
      }
      NoDupKeysAppend(head, rest);
    }
  }

  /**
   * Columns H`h`..H24 melted have no duplicate keys; their records lie at
   * hour h or later of the day, or at midnight (column H24).
   */
  lemma {:induction false} MeltFromNoDup<P(!new)>(rows: seq<RawRow<P>>, h: int)
    requires HasHourColumns(rows) && 1 <= h <= HoursPerDay + 1
    requires forall row | row in rows :: IsPriceConcept(row.concept)
    requires DistinctPriceRows(rows)
    ensures NoDupKeys(DropAbsent(MeltFrom(rows, h)))
    ensures forall x | x in DropAbsent(MeltFrom(rows, h)) :: HourOfDay(x.stamp) == 0 || HourOfDay(x.stamp) >= h
    decreases HoursPerDay + 1 - h
  {
    if h <= HoursPerDay {
      var column := DropAbsent(MeltColumn(rows, h));
      var later := DropAbsent(MeltFrom(rows, h + 1));
      DropAbsentAppend(MeltColumn(rows, h), MeltFrom(rows, h + 1));
      ColumnNoDup(rows, h);
      MeltFromNoDup(rows, h + 1);
      NoDupKeysAppend(column, later);
    }
  }

  /** Price rows with distinct (DATE, CONCEPT) reshape into a frame without duplicate keys. */
  lemma ProcessOmieDataNoDup<P(!new)>(rows: seq<RawRow<P>>)
    requires HasHourColumns(rows) && DistinctPriceRows(rows)
    ensures NoDupKeys(ProcessOmieData(rows))
  {
    SelectPricesDistinct(rows);
    MeltFromNoDup(SelectPrices(rows), 1);
  }

  /** The block of one hour column, for rows sharing one DATE, is a single DATETIME. */
  lemma ColumnOneDate<P(!new)>(rows: seq<RawRow<P>>, h: int, d: int)
    requires HasHourColumns(rows) && 1 <= h <= HoursPerDay
    requires forall row | row in rows :: row.date == d
    ensures SortedByTime(DropAbsent(MeltColumn(rows, h)))
    ensures forall x | x in DropAbsent(MeltColumn(rows, h)) :: x.stamp == Stamp(d, h)
  {
  }

  /** Columns H`h`..H24 of rows that share one DATE melt into DATETIME order, from DATE + h hours on. */
  lemma {:induction false} MeltFromSortedOneDate<P(!new)>(rows: seq<RawRow<P>>, h: int, d: int)
    requires HasHourColumns(rows) && 1 <= h <= HoursPerDay + 1
    requires forall row | row in rows :: row.date == d
    ensures SortedByTime(DropAbsent(MeltFrom(rows, h)))
    ensures forall x | x in DropAbsent(MeltFrom(rows, h)) :: x.stamp >= Stamp(d, h)
    decreases HoursPerDay + 1 - h
  {
    if h <= HoursPerDay {
      var column := DropAbsent(MeltColumn(rows, h));
      var later := DropAbsent(MeltFrom(rows, h + 1));
      DropAbsentAppend(MeltColumn(rows, h), MeltFrom(rows, h + 1));
      ColumnOneDate(rows, h, d);
      MeltFromSortedOneDate(rows, h + 1, d);
      assert forall x, y | x in column && y in later :: x.stamp <= y.stamp;
      SortedByTimeAppend(column, later);
    }
  }

  /** A download of a single DATE reshapes into a frame sorted by DATETIME. */
  lemma ProcessOmieDataSortedOneDate<P(!new)>(rows: seq<RawRow<P>>, d: int)
    requires HasHourColumns(rows)
    requires forall row | row in rows && IsPriceConcept(row.concept) :: row.date == d
    ensures SortedByTime(ProcessOmieData(rows))
  {
    MeltFromSortedOneDate(SelectPrices(rows), 1, d);
  }
}
