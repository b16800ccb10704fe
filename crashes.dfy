/**
  One crash record as it moves through the pipeline, and `preparing_crashes_data`:
  normalised column names, the date, the time of day read with `%H:%M`, the
  derived hour and year columns, and the year filter.

  A frame is a header plus rows. A row holds a value for every column the
  pipeline can give it; a column exists when the header names it, so a row field
  whose column is not in the header is not part of the frame yet.
 */
module Crashes {
  import opened Wrappers
  import opened Text
  import opened Seqs
  import opened Calendar
  import opened Frames

  /** The five `contributing_factor_vehicle_k` or `vehicle_type_code_k` cells. */
  type Slots = s: seq<Option<string>> | |s| == 5 witness [None, None, None, None, None]

  /** `crash_time`: the text read from the file, a time of day once parsed, or null. */
  datatype TimeCell = TimeText(text: string) | TimeOfDay(clock: Clock) | NoTime

  datatype Severity = Fatal | Injury | NoCasualty

  datatype LocationType = Intersection | MidBlock | OffStreet | Unknown

  /** One crash. `counts` holds the numeric count columns by name
      (`number_of_persons_injured`, `number_of_pedestrians_killed`, ...); a name
      missing from it reads as null. The fields from `holidayDate` on are the
      columns later stages add; `None` there means "not written yet". */
  datatype Crash = Crash(
    date: Option<Date>,
    time: TimeCell,
    hour: Option<nat>,
    year: Option<int>,
    borough: Option<string>,
    zipCode: Option<string>,
    location: Option<string>,
    longitude: Option<real>,
    latitude: Option<real>,
    onStreet: Option<string>,
    crossStreet: Option<string>,
    factors: Slots,
    vehicles: Slots,
    counts: map<string, Option<int>>,
    holidayDate: Option<Date>,
    holidayName: Option<string>,
    isPublicHoliday: Option<int>,
    vehicleCount: Option<nat>,
    boroName: Option<string>,
    boroughIndex: Option<nat>,
    totalInjured: Option<int>,
    totalKilled: Option<int>,
    severity: Option<Severity>,
    locationType: Option<LocationType>,
    keys: map<string, Option<nat>>)

  /** The value of a numeric count column, null when the row has none. */
  function CountOf(r: Crash, name: string): Option<int>
  {
    if name in r.counts then r.counts[name] else None
  }

  /** The five contributing-factor columns. */
  function FactorColumns(): seq<string>
  {
    [
    "contributing_factor_vehicle_1", "contributing_factor_vehicle_2",
    "contributing_factor_vehicle_3", "contributing_factor_vehicle_4",
    "contributing_factor_vehicle_5"]
  }

  /** The five vehicle-type columns. */
  function VehicleColumns(): seq<string>
  {
    [
    "vehicle_type_code_1", "vehicle_type_code_2", "vehicle_type_code_3",
    "vehicle_type_code_4", "vehicle_type_code_5"]
  }

  const PersonsInjured := "number_of_persons_injured"
  const PersonsKilled := "number_of_persons_killed"

  /** `name.replace(' ', '_').lower()`: the column-name normalisation. */
  function NormalizeColumnName(name: string): (r: string)
    ensures |r| == |name|
    ensures ' ' !in r && IsLower(r)
  {
    var u := Underscore(name);
    var r := Lower(u);
    assert forall i :: 0 <= i < |r| ==> r[i] != ' ' by {
      forall i | 0 <= i < |r| ensures r[i] != ' ' {
        assert IsSpace(r[i]) == IsSpace(u[i]);
        assert u[i] != ' ';
      }
    }
    r
  }

  /** Renaming a normalised name again changes nothing. */
  lemma NormalizeColumnNameIdempotent(name: string)
    ensures NormalizeColumnName(NormalizeColumnName(name)) == NormalizeColumnName(name)
  {
    var n := NormalizeColumnName(name);
    assert Underscore(n) == n;
    LowerOfLower(n);
  }

  /** `df.columns.str.replace(' ', '_').str.lower()`. */
  function NormalizeColumns(columns: seq<string>): (r: seq<string>)
    ensures |r| == |columns|
    ensures forall i :: 0 <= i < |r| ==> ' ' !in r[i] && IsLower(r[i])
  {
    seq(|columns|, i requires 0 <= i < |columns| => NormalizeColumnName(columns[i]))
  }

  /** Normalising a normalised header changes nothing. */
  lemma NormalizeColumnsIdempotent(columns: seq<string>)
    ensures NormalizeColumns(NormalizeColumns(columns)) == NormalizeColumns(columns)
  {
    forall i | 0 <= i < |columns|
      ensures NormalizeColumns(NormalizeColumns(columns))[i] == NormalizeColumns(columns)[i]
    {
      NormalizeColumnNameIdempotent(columns[i]);
    }
  }

  /** The texts pandas reads as a missing time. */
  predicate IsNaTText(s: string)
  {
    s in ["", "NaT", "nat", "NAT", "nan", "NaN", "NAN"]
  }

  /** `pd.to_datetime(cell, format='%H:%M')` for one cell: `Some(None)` is NaT,
      `None` is the exception (a text that does not match, or a value that is
      already a time of day). */
  function ParseTimeCell(c: TimeCell): (r: Option<Option<Clock>>)
    ensures c.NoTime? ==> r == Some(None)
    ensures c.TimeOfDay? ==> r.None?
    ensures r.Some? && r.value.Some? ==> r.value.value.hour <= 23 && r.value.value.minute <= 59
    ensures c.TimeText? && IsNaTText(c.text) ==> r == Some(None)
    ensures c.TimeText? && !IsNaTText(c.text) ==>
              r == (if ParseClock(c.text).Some? then Some(ParseClock(c.text)) else None)
  {
    match c
    case NoTime => Some(None)
    case TimeOfDay(_) => None
    case TimeText(s) =>
      if IsNaTText(s) then Some(None)
      else match ParseClock(s)
        case Some(clock) => Some(Some(clock))
        case None => None
  }

  /** A time cell holding any text `%H:%M` accepts for a clock reads as that clock. */
  lemma TimeTextReads(c: Clock, hh: string, mm: string)
    requires c.hour <= 23 && c.minute <= 59
    requires hh in FieldTexts(c.hour) && mm in FieldTexts(c.minute)
    ensures ParseTimeCell(TimeText(hh + ":" + mm)) == Some(Some(c))
  {
    var s := hh + ":" + mm;
    assert s[|hh|] == ':';
    assert !IsNaTText(s);
    ParseClockTexts(c, hh, mm);
  }

  /** A time cell that reads as a clock holds one of that clock's texts. */
  lemma TimeTextSound(s: string, c: Clock)
    requires ParseTimeCell(TimeText(s)) == Some(Some(c))
    ensures c.hour <= 23 && c.minute <= 59 && ReadsAs(s, c)
  {
    ParseClockSound(s);
  }

  /** The column parses when every one of its cells does. */
  predicate TimesParse(rows: seq<Crash>)
  {
    forall i :: 0 <= i < |rows| ==> ParseTimeCell(rows[i].time).Some?
  }

  /** Lines 75-83 on one row whose time parsed: `crash_time` becomes the time of
      day, `crash_hour` its hour and `crash_year` the year of the date (null on
      NaT). */
  function Stamp(r: Crash): (s: Crash)
    requires ParseTimeCell(r.time).Some?
    ensures s.hour.Some? ==> s.hour.value <= 23
    ensures s.year.Some? <==> r.date.Some?
    ensures r.date.Some? ==> s.year.value == r.date.value.year
    ensures s.hour.Some? <==> s.time.TimeOfDay?
    ensures s.time.TimeOfDay? ==> s.hour.value == s.time.clock.hour
    ensures var t := ParseTimeCell(r.time).value;
            && s.time == (if t.Some? then TimeOfDay(t.value) else NoTime)
            && s.hour == (if t.Some? then Some(t.value.hour) else None)
    ensures s == r.(time := s.time, hour := s.hour, year := s.year)
  {
    var t := ParseTimeCell(r.time).value;
    r.(time := if t.Some? then TimeOfDay(t.value) else NoTime,
       hour := if t.Some? then Some(t.value.hour) else None,
       year := if r.date.Some? then Some(r.date.value.year) else None)
  }

  /** Lines 75-83 on every row of a column that parsed. */
  function StampAll(rows: seq<Crash>): (r: seq<Crash>)
    requires TimesParse(rows)
    ensures |r| == |rows|
    ensures forall i :: 0 <= i < |rows| ==> r[i] == Stamp(rows[i])
  {
    seq(|rows|, i requires 0 <= i < |rows| => Stamp(rows[i]))
  }

  /** Lines 79-83 add `crash_hour`, `crash_day`, `crash_month` and `crash_year`. */
  function AddDerivedColumns(header: seq<string>): (r: seq<string>)
    ensures forall c :: c in header ==> c in r
    ensures forall c :: c in r <==> c in header || c in ["crash_hour", "crash_day", "crash_month", "crash_year"]
  {
    AddColumn(AddColumn(AddColumn(AddColumn(header, "crash_hour"), "crash_day"), "crash_month"), "crash_year")
  }

  /** Line 99: the row's date is known and its year is at least `fromYear`. */
  predicate InYears(r: Crash, fromYear: int)
  {
    r.date.Some? && r.date.value.year >= fromYear
  }

  /** Line 99: the rows dated `fromYear` or later, in their order. */
  function KeepYears(rows: seq<Crash>, fromYear: int): (kept: seq<Crash>)
    ensures |kept| <= |rows|
    ensures forall i :: 0 <= i < |kept| ==> kept[i] in rows && InYears(kept[i], fromYear)
    ensures forall i :: 0 <= i < |rows| && InYears(rows[i], fromYear) ==> rows[i] in kept
  {
    Filter(rows, YearMask(fromYear))
  }

  /** The boolean mask of line 99. */
  function YearMask(fromYear: int): Crash -> bool
  {
    r => InYears(r, fromYear)
  }

  /** The mask keeps rows in their order: filtering two stretches of rows one
      after the other is filtering them together. */
  lemma KeepYearsConcat(a: seq<Crash>, b: seq<Crash>, fromYear: int)
    ensures KeepYears(a + b, fromYear) == KeepYears(a, fromYear) + KeepYears(b, fromYear)
  {
    FilterConcat(a, b, YearMask(fromYear));
  }

  /** One row is kept, as it is, exactly when it is dated `fromYear` or later. */
  lemma KeepYearsSingle(x: Crash, fromYear: int)
    ensures KeepYears([x], fromYear) == if InYears(x, fromYear) then [x] else []
  {
    assert [x][1..] == [];
  }

  /** Two copies of a row dated `fromYear` or later both stay, and a row before
      it is dropped without disturbing the order of the rest. */
  lemma KeepYearsExample(x: Crash, y: Crash, fromYear: int)
    requires InYears(x, fromYear) && !InYears(y, fromYear)
    ensures KeepYears([x, y, x], fromYear) == [x, x]
  {
    KeepYearsConcat([x], [y, x], fromYear);
    KeepYearsConcat([y], [x], fromYear);
    assert [x] + [y, x] == [x, y, x] && [y] + [x] == [y, x];
    KeepYearsSingle(x, fromYear);
    KeepYearsSingle(y, fromYear);
  }

  /** The mask keeps every copy of a passing row and no copy of another one. */
  lemma KeepYearsCopies(rows: seq<Crash>, fromYear: int, x: Crash)
    ensures multiset(KeepYears(rows, fromYear))[x] == if InYears(x, fromYear) then multiset(rows)[x] else 0
  {
    FilterCopies(rows, YearMask(fromYear), x);
  }

  /** Where `preparing_crashes_data` ends: it finished, leaving the caller's frame
      as `columns`/`rows` and returning the filtered `kept`; or an exception
      stopped it, and the caller's frame as changed so far is what it returns. */
  datatype Preparation =
    | Prepared(columns: seq<string>, rows: seq<Crash>, kept: seq<Crash>)
    | Stopped(columns: seq<string>, rows: seq<Crash>)

  /** What `preparing_crashes_data` does to a frame, step by step. The date cells
      are taken as already read; a missing column is the KeyError that ends the
      `try`. */
  function Prepare(columns: seq<string>, rows: seq<Crash>, startYear: int, numYears: int): (p: Preparation)
  {
    var header := NormalizeColumns(columns);
    if "crash_date" !in header || "crash_time" !in header || !TimesParse(rows) then
      Stopped(header, rows)
    else
      var stamped := StampAll(rows);
      var header' := AddDerivedColumns(header);
      if PersonsInjured !in header' || PersonsKilled !in header' || "borough" !in header' then
        Stopped(header', stamped)
      else
        Prepared(header', stamped, KeepYears(stamped, startYear - numYears))
  }

  /** The four column names lines 79-83 add are already normalised. */
  lemma DerivedNamesNormal()
    ensures forall c :: c in ["crash_hour", "crash_day", "crash_month", "crash_year"] ==> ' ' !in c && IsLower(c)
  {
  }

  /** Whatever happens, the header that comes out is normalised: no column name
      holds a space or an upper-case letter. */
  lemma PreparedHeader(columns: seq<string>, rows: seq<Crash>, startYear: int, numYears: int)
    ensures forall c :: c in Prepare(columns, rows, startYear, numYears).columns ==> ' ' !in c && IsLower(c)
  {
    DerivedNamesNormal();
  }

  /** A prepared frame: the derived columns are present, every hour is 0..23 and
      every year is the year of the row's date. */
  lemma PreparedRows(columns: seq<string>, rows: seq<Crash>, startYear: int, numYears: int)
    requires Prepare(columns, rows, startYear, numYears).Prepared?
    ensures var p := Prepare(columns, rows, startYear, numYears);
            && |p.rows| == |rows|
            && (forall c :: c in ["crash_date", "crash_time", "crash_hour", "crash_day", "crash_month", "crash_year"] ==> c in p.columns)
            && (forall i :: 0 <= i < |p.rows| ==> p.rows[i].hour.Some? ==> p.rows[i].hour.value <= 23)
            && (forall i :: 0 <= i < |p.rows| ==> p.rows[i].date == rows[i].date)
            && (forall i :: 0 <= i < |p.rows| ==>
                  (p.rows[i].year.Some? <==> rows[i].date.Some?)
                  && (rows[i].date.Some? ==> p.rows[i].year.value == rows[i].date.value.year))
            && (forall i :: 0 <= i < |p.rows| ==>
                  var t := ParseTimeCell(rows[i].time).value;
                  && p.rows[i].time == (if t.Some? then TimeOfDay(t.value) else NoTime)
                  && p.rows[i].hour == (if t.Some? then Some(t.value.hour) else None)
                  && p.rows[i] == rows[i].(time := p.rows[i].time, hour := p.rows[i].hour, year := p.rows[i].year))
  {
  }

  /** The year filter keeps exactly the prepared rows whose date's year is at least
      `startYear - numYears`, and nothing bounds the year from above. The returned
      rows are `KeepYears` of the prepared ones, so they keep their order
      (`KeepYearsConcat`, `KeepYearsSingle`) and every copy (`KeepYearsCopies`). */
  lemma PreparedFilter(columns: seq<string>, rows: seq<Crash>, startYear: int, numYears: int)
    requires Prepare(columns, rows, startYear, numYears).Prepared?
    ensures var p := Prepare(columns, rows, startYear, numYears);
            && |p.kept| <= |p.rows|
            && (forall i :: 0 <= i < |p.kept| ==> p.kept[i] in p.rows && InYears(p.kept[i], startYear - numYears))
            && (forall i :: 0 <= i < |p.rows| && InYears(p.rows[i], startYear - numYears) ==> p.rows[i] in p.kept)
            && p.kept == KeepYears(p.rows, startYear - numYears)
  {
    var p := Prepare(columns, rows, startYear, numYears);
    assert p.kept == KeepYears(p.rows, startYear - numYears);
  }

  /** A time that is already a time of day cannot be read again: preparing a
      prepared frame stops at the time column. */
  lemma PrepareTwiceStops(columns: seq<string>, rows: seq<Crash>, startYear: int, numYears: int)
    requires Prepare(columns, rows, startYear, numYears).Prepared?
    requires exists i :: 0 <= i < |rows| && ParseTimeCell(rows[i].time).value.Some?
    ensures var p := Prepare(columns, rows, startYear, numYears);
            Prepare(p.columns, p.rows, startYear, numYears).Stopped?
  {
    var p := Prepare(columns, rows, startYear, numYears);
    var i :| 0 <= i < |rows| && ParseTimeCell(rows[i].time).value.Some?;
    assert p.rows[i].time.TimeOfDay?;
    assert !TimesParse(p.rows);
  }

  /** `preparing_crashes_data(df, start_year, num_years)`. The caller's frame is
      renamed and re-typed in place; on success a new, filtered frame is
      returned, and after an exception the caller's own frame is. */
  method PrepareCrashes(df: Frame<Crash>, startYear: int, numYears: int) returns (prepared: Frame<Crash>)
    modifies df
    ensures var p := Prepare(old(df.columns), old(df.rows), startYear, numYears);
            && df.columns == p.columns && df.rows == p.rows
            && (p.Stopped? ==> prepared == df)
            && (p.Prepared? ==> fresh(prepared) && prepared.columns == p.columns && prepared.rows == p.kept)
  {
    ghost var columns, rows := df.columns, df.rows;
    df.columns := NormalizeColumns(df.columns);
    if "crash_date" !in df.columns || "crash_time" !in df.columns || !TimesParse(df.rows) {
      return df;
    }
    df.rows := StampAll(df.rows);
    df.columns := AddDerivedColumns(df.columns);
    if PersonsInjured !in df.columns || PersonsKilled !in df.columns || "borough" !in df.columns {
      return df;
    }
    prepared := new Frame(df.columns, KeepYears(df.rows, startYear - numYears));
  }
}
