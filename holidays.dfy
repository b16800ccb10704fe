/**
  The public-holiday side of the pipeline: the New York county test, the
  year-by-year extraction from the holiday service (the fetch itself is a
  parameter), the cleaning that keeps New York holidays and merges the names of
  one date, and the holiday dimension.
 */
module Holidays {
  import opened Wrappers
  import opened Text
  import opened Seqs
  import opened Ordering
  import opened Calendar
  import opened Dimensions

  /** The `counties` cell of a holiday: a list of region codes, null, or some
      other value. */
  datatype CountyCell = Counties(codes: seq<string>) | NullCounties | NotAList

  /** One holiday as the service answers it (`date`, `localName`, `counties`,
      `global`). */
  datatype RawHoliday = RawHoliday(date: Date, localName: string, counties: CountyCell, global: bool)

  /** One row of the cleaned table: `holiday_date` and `holiday_name`. */
  datatype Holiday = Holiday(date: Date, name: string)

  /** `any(symbol in code for code in codes)`. */
  function AnyContains(codes: seq<string>, symbol: string): (r: bool)
    ensures r <==> exists i :: 0 <= i < |codes| && Contains(codes[i], symbol)
  {
    if codes == [] then false
    else if Contains(codes[0], symbol) then true
    else
      var r := AnyContains(codes[1..], symbol);
      assert forall i :: 1 <= i < |codes| ==> codes[i] == codes[1..][i - 1];
      r
  }

  /** `is_new_york_holiday(cell, symbol)`: a list some of whose codes contain
      `symbol`; anything that is not a list is not. */
  function IsNewYorkHoliday(cell: CountyCell, symbol: string): (r: bool)
    ensures r <==> cell.Counties? && exists i :: 0 <= i < |cell.codes| && Contains(cell.codes[i], symbol)
  {
    match cell
    case Counties(codes) => AnyContains(codes, symbol)
    case _ => false
  }

  /** The test is for a substring, not for a whole code: any code with `symbol`
      somewhere inside it matches. */
  lemma {:induction false} ContainsInside(p: string, symbol: string, q: string)
    ensures Contains(p + symbol + q, symbol)
  {
    if p == [] {
      assert p + symbol + q == symbol + q;
      assert (symbol + q)[..|symbol|] == symbol;
    } else {
      ContainsInside(p[1..], symbol, q);
      assert (p + symbol + q)[1..] == p[1..] + symbol + q;
    }
  }

  /** A list holding a code with "US-NY" inside it is a New York list. */
  lemma NewYorkInside(codes: seq<string>, p: string, q: string)
    requires p + "US-NY" + q in codes
    ensures IsNewYorkHoliday(Counties(codes), "US-NY")
  {
    ContainsInside(p, "US-NY", q);
  }

  /** What the loop of `extract_all_holidays` collects: the holidays of `year`,
      `year - 1`, ... for at most `n` years, stopping at the first year with
      none. */
  function Harvest(year: int, n: int, fetch: int -> seq<RawHoliday>): seq<RawHoliday>
    decreases n
  {
    if n <= 0 || fetch(year) == [] then [] else fetch(year) + Harvest(year - 1, n - 1, fetch)
  }

  /** The years the loop asks the service for, in order. */
  function Requested(year: int, n: int, fetch: int -> seq<RawHoliday>): seq<int>
    decreases n
  {
    if n <= 0 then [] else [year] + (if fetch(year) == [] then [] else Requested(year - 1, n - 1, fetch))
  }

  /** The answers for some years, one after the other. */
  function Answers(fetch: int -> seq<RawHoliday>, years: seq<int>): seq<RawHoliday>
  {
    if years == [] then [] else fetch(years[0]) + Answers(fetch, years[1..])
  }

  /** The loop asks for `year`, `year - 1`, ... in that order, at most `n` times. */
  lemma {:induction false} RequestedYears(year: int, n: int, fetch: int -> seq<RawHoliday>)
    ensures var r := Requested(year, n, fetch);
            && |r| <= (if n < 0 then 0 else n)
            && (forall i :: 0 <= i < |r| ==> r[i] == year - i)
    decreases n
  {
    if n > 0 && fetch(year) != [] {
      var rest := Requested(year - 1, n - 1, fetch);
      RequestedYears(year - 1, n - 1, fetch);
      var r := Requested(year, n, fetch);
      assert r == [year] + rest;
      forall i | 0 < i < |r| ensures r[i] == year - i {
        assert r[i] == rest[i - 1];
      }
    }
  }

  /** Every year but the last the loop asks for had holidays, and the loop stops
      before `n` years only at a year with none. */
  lemma {:induction false} RequestedStops(year: int, n: int, fetch: int -> seq<RawHoliday>)
    ensures var r := Requested(year, n, fetch);
            && (forall i :: 0 <= i < |r| - 1 ==> fetch(r[i]) != [])
            && (|r| < n ==> |r| > 0 && fetch(r[|r| - 1]) == [])
    decreases n
  {
    if n > 0 && fetch(year) != [] {
      var rest := Requested(year - 1, n - 1, fetch);
      RequestedStops(year - 1, n - 1, fetch);
      var r := Requested(year, n, fetch);
      assert r == [year] + rest;
      forall i | 0 < i < |r| - 1 ensures fetch(r[i]) != [] {
        assert r[i] == rest[i - 1];
      }
      if |r| < n {
        assert r[|r| - 1] == rest[|rest| - 1];
      }
    }
  }

  /** The answers for a year followed by more years. */
  lemma AnswersCons(fetch: int -> seq<RawHoliday>, year: int, rest: seq<int>)
    ensures Answers(fetch, [year] + rest) == fetch(year) + Answers(fetch, rest)
  {
    assert ([year] + rest)[1..] == rest;
  }

  /** What the loop collects is the answers for the years it asked for, in order. */
  lemma {:induction false} HarvestAnswers(year: int, n: int, fetch: int -> seq<RawHoliday>)
    ensures Harvest(year, n, fetch) == Answers(fetch, Requested(year, n, fetch))
    decreases n
  {
    if n <= 0 {
      assert Requested(year, n, fetch) == [];
    } else if fetch(year) != [] {
      var rest := Requested(year - 1, n - 1, fetch);
      assert Requested(year, n, fetch) == [year] + rest;
      assert Harvest(year, n, fetch) == fetch(year) + Harvest(year - 1, n - 1, fetch);
      HarvestAnswers(year - 1, n - 1, fetch);
      AnswersCons(fetch, year, rest);
    } else {
      assert Requested(year, n, fetch) == [year] + [];
      assert Harvest(year, n, fetch) == [];
      AnswersCons(fetch, year, []);
    }
  }

  /** `extract_all_holidays(start_year, num_years)`: `num_years + 1` years at
      most, from `start_year` down, with an early stop at the first empty year. */
  method ExtractAllHolidays(startYear: int, numYears: int, fetch: int -> seq<RawHoliday>)
    returns (all: seq<RawHoliday>)
    ensures all == Harvest(startYear, numYears + 1, fetch)
  {
    all := [];
    var i := 0;
    while i < numYears + 1
      invariant 0 <= i
      invariant all + Harvest(startYear - i, numYears + 1 - i, fetch) == Harvest(startYear, numYears + 1, fetch)
    {
      var year := startYear - i;
      var yearly := fetch(year);
      if yearly == [] {
        break;
      }
      if yearly != [] {
        all := all + yearly;
      }
      i := i + 1;
    }
  }

  /** Line 93: a New York list, a null list or a nationwide holiday. */
  predicate KeepForNewYork(r: RawHoliday)
  {
    IsNewYorkHoliday(r.counties, "US-NY") || r.counties.NullCounties? || r.global
  }

  /** The dates of some holidays, in row order. */
  function DatesOf(rows: seq<RawHoliday>): (dates: seq<Date>)
    ensures |dates| == |rows|
    ensures forall i :: 0 <= i < |rows| ==> dates[i] == rows[i].date
  {
    seq(|rows|, i requires 0 <= i < |rows| => rows[i].date)
  }

  /** The names of the holidays on date `d`, in row order (one group of the
      `groupby('date')`). */
  function NamesOn(rows: seq<RawHoliday>, d: Date): (names: seq<string>)
    ensures forall x :: x in names <==> exists i :: 0 <= i < |rows| && rows[i].date == d && rows[i].localName == x
  {
    if rows == [] then []
    else
      var rest := NamesOn(rows[1..], d);
      assert forall i :: 1 <= i < |rows| ==> rows[i] == rows[1..][i - 1];
      (if rows[0].date == d then [rows[0].localName] else []) + rest
  }

  /** `' / '.join(sorted(set(names)))` for one date. */
  function MergedName(rows: seq<RawHoliday>, d: Date): string
  {
    BelowIsStrictTotalOrder();
    Join(SortedDistinct(NamesOn(rows, d), Below), " / ")
  }

  /** `groupby('date')['localName'].apply(...)`: one row per distinct date, in
      ascending date order, with the merged name of that date. */
  function GroupByDate(rows: seq<RawHoliday>): (grouped: seq<Holiday>)
    ensures Ascending(HolidayDates(grouped), DateBefore)
    ensures Elems(HolidayDates(grouped)) == Elems(DatesOf(rows))
    ensures forall j :: 0 <= j < |grouped| ==> grouped[j].name == MergedName(rows, grouped[j].date)
  {
    DateBeforeIsStrictTotalOrder();
    var dates := SortedDistinct(DatesOf(rows), DateBefore);
    var grouped := seq(|dates|, j requires 0 <= j < |dates| => Holiday(dates[j], MergedName(rows, dates[j])));
    assert HolidayDates(grouped) == dates;
    grouped
  }

  /** The `holiday_date` column. */
  function HolidayDates(holidays: seq<Holiday>): (dates: seq<Date>)
    ensures |dates| == |holidays|
    ensures forall j :: 0 <= j < |holidays| ==> dates[j] == holidays[j].date
  {
    seq(|holidays|, j requires 0 <= j < |holidays| => holidays[j].date)
  }

  /** What `clean_and_transform_holidays` returns: an empty frame without columns,
      or the table of holidays. */
  datatype HolidayTable = NoHolidayColumns | HolidayTable(rows: seq<Holiday>)

  /** `clean_and_transform_holidays(df)`: an empty input leaves the filtered frame
      unbound, and the error that causes makes it return an empty frame;
      otherwise the New York holidays grouped by date. */
  function CleanAndTransformHolidays(raw: seq<RawHoliday>): (t: HolidayTable)
    ensures t.NoHolidayColumns? <==> raw == []
  {
    if raw == [] then NoHolidayColumns
    else HolidayTable(GroupByDate(Filter(raw, KeepForNewYork)))
  }

  /** A holiday is kept exactly when it is a New York one, has no county list, or
      is nationwide. */
  lemma KeptHolidays(raw: seq<RawHoliday>, x: RawHoliday)
    ensures x in Filter(raw, KeepForNewYork) <==> x in raw && KeepForNewYork(x)
  {
    FilterMembers(raw, KeepForNewYork);
  }

  /** The dates of the kept holidays. */
  ghost function KeptDates(raw: seq<RawHoliday>): set<Date>
  {
    set x | x in raw && KeepForNewYork(x) :: x.date
  }

  /** The names of the kept holidays on date `d`. */
  ghost function KeptNames(raw: seq<RawHoliday>, d: Date): set<string>
  {
    set x | x in raw && KeepForNewYork(x) && x.date == d :: x.localName
  }

  /** The dates of some rows are the dates of their members. */
  lemma DatesOfMembers(rows: seq<RawHoliday>)
    ensures Elems(DatesOf(rows)) == set x | x in rows :: x.date
  {
    forall d | d in Elems(DatesOf(rows)) ensures d in set x | x in rows :: x.date {
      var i :| 0 <= i < |rows| && DatesOf(rows)[i] == d;
      assert rows[i] in rows;
    }
  }

  /** The cleaned dates are strictly ascending, hence unique, and are exactly the
      dates of the kept holidays. */
  lemma CleanedDates(raw: seq<RawHoliday>)
    requires raw != []
    ensures var dates := HolidayDates(CleanAndTransformHolidays(raw).rows);
            Ascending(dates, DateBefore) && Elems(dates) == KeptDates(raw)
  {
    var kept := Filter(raw, KeepForNewYork);
    FilterMembers(raw, KeepForNewYork);
    DatesOfMembers(kept);
  }

  /** The names on a date among the kept rows are the kept names of that date. */
  lemma NamesOnKept(raw: seq<RawHoliday>, d: Date)
    ensures Elems(NamesOn(Filter(raw, KeepForNewYork), d)) == KeptNames(raw, d)
  {
    var kept := Filter(raw, KeepForNewYork);
    FilterMembers(raw, KeepForNewYork);
    forall x | x in KeptNames(raw, d) ensures x in Elems(NamesOn(kept, d)) {
      var r :| r in raw && KeepForNewYork(r) && r.date == d && r.localName == x;
      var i :| 0 <= i < |kept| && kept[i] == r;
    }
  }

  /** The name of a cleaned date is the names of that date's kept holidays, each
      once, in ascending order, joined with " / ". */
  lemma CleanedNames(raw: seq<RawHoliday>, j: nat, parts: seq<string>)
    requires raw != [] && j < |CleanAndTransformHolidays(raw).rows|
    requires var h := CleanAndTransformHolidays(raw).rows[j];
             Ascending(parts, Below) && Elems(parts) == KeptNames(raw, h.date)
    ensures CleanAndTransformHolidays(raw).rows[j].name == Join(parts, " / ")
  {
    var kept := Filter(raw, KeepForNewYork);
    var d := CleanAndTransformHolidays(raw).rows[j].date;
    NamesOnKept(raw, d);
    BelowIsStrictTotalOrder();
    AscendingUnique(parts, SortedDistinct(NamesOn(kept, d), Below), Below);
  }

  /** Holidays that all fall on one date group into one row. */
  lemma OneDate(rows: seq<RawHoliday>, d: Date)
    requires |rows| > 0 && forall i :: 0 <= i < |rows| ==> rows[i].date == d
    ensures GroupByDate(rows) == [Holiday(d, MergedName(rows, d))]
  {
    DateBeforeIsStrictTotalOrder();
    var dates := SortedDistinct(DatesOf(rows), DateBefore);
    assert Elems(DatesOf(rows)) == {d} by {
      assert DatesOf(rows)[0] == d;
    }
    AscendingCard(dates, DateBefore);
    assert dates == [d];
  }

  /** A date with two distinct names, `a` before `b`, is named "a / b". */
  lemma TwoNames(rows: seq<RawHoliday>, d: Date, a: string, b: string)
    requires Elems(NamesOn(rows, d)) == {a, b} && Below(a, b)
    ensures MergedName(rows, d) == a + " / " + b
  {
    BelowIsStrictTotalOrder();
    AscendingPair(SortedDistinct(NamesOn(rows, d), Below), a, b, Below);
  }

  /** Two nationwide holidays on one date, `a` before `b`, become one row named
      "a / b". */
  lemma SameDateExample(d: Date, a: string, b: string, c: CountyCell)
    requires Below(a, b)
    ensures CleanAndTransformHolidays([RawHoliday(d, b, c, true), RawHoliday(d, a, c, true)])
            == HolidayTable([Holiday(d, a + " / " + b)])
  {
    var raw := [RawHoliday(d, b, c, true), RawHoliday(d, a, c, true)];
    FilterAll(raw, KeepForNewYork);
    OneDate(raw, d);
    assert Elems(NamesOn(raw, d)) == {a, b} by {
      assert raw[0].localName == b && raw[1].localName == a;
    }
    TwoNames(raw, d, a, b);
  }

  /** The `holiday_name` cells, one per cleaned row. */
  function NameCells(holidays: seq<Holiday>): (cells: seq<Option<string>>)
    ensures |cells| == |holidays|
    ensures forall i :: 0 <= i < |holidays| ==> cells[i] == Some(holidays[i].name)
  {
    seq(|holidays|, i requires 0 <= i < |holidays| => Some(holidays[i].name))
  }

  /** `pd.concat([df[col] for col in columns])` over the holiday table: only
      `holiday_name` is a text column, so `columns` must name it and nothing else
      (`holiday_date` has no `.str`, another name is a KeyError, and an empty list
      has nothing to concatenate). */
  function HolidayCells(holidays: seq<Holiday>, columns: seq<string>): seq<Option<string>>
  {
    if columns == [] then [] else NameCells(holidays) + HolidayCells(holidays, columns[1..])
  }

  /** `create_dimension_holidays(df, columns)`; `None` is the error. */
  function CreateDimensionHolidays(holidays: seq<Holiday>, columns: seq<string>): (r: Option<Dimension>)
    ensures r.Some? <==> |columns| > 0 && forall c :: c in columns ==> c == "holiday_name"
  {
    if |columns| > 0 && forall c :: c in columns ==> c == "holiday_name" then
      Some(CreateDimension(HolidayCells(holidays, columns)))
    else None
  }

  /** Naming the column more than once stacks the same cells again. */
  lemma {:induction false} HolidayCellsRepeat(holidays: seq<Holiday>, columns: seq<string>, x: Option<string>)
    requires |columns| > 0
    ensures x in HolidayCells(holidays, columns) <==> x in NameCells(holidays)
  {
    if |columns| > 1 {
      HolidayCellsRepeat(holidays, columns[1..], x);
    }
  }

  /** The stripped holiday names. */
  ghost function StrippedNames(holidays: seq<Holiday>): set<string>
  {
    set h | h in holidays :: Strip(h.name)
  }

  /** Cells with the same members describe the same values. */
  lemma DescribedAlike(a: seq<Option<string>>, b: seq<Option<string>>)
    requires forall x :: x in a <==> x in b
    ensures Described(a) == Described(b)
  {
    forall v | v in Described(a) ensures v in Described(b) {
      var k :| 0 <= k < |a| && a[k].Some? && Strip(a[k].value) == v;
      assert a[k] in a;
      var j :| 0 <= j < |b| && b[j] == a[k];
    }
    forall v | v in Described(b) ensures v in Described(a) {
      var k :| 0 <= k < |b| && b[k].Some? && Strip(b[k].value) == v;
      assert b[k] in b;
      var j :| 0 <= j < |a| && a[j] == b[k];
    }
  }

  /** The values the name cells describe are the stripped names. */
  lemma NameCellsDescribed(holidays: seq<Holiday>)
    ensures Described(NameCells(holidays)) == StrippedNames(holidays)
  {
    var cells := NameCells(holidays);
    forall v | v in StrippedNames(holidays) ensures v in Described(cells) {
      var h :| h in holidays && Strip(h.name) == v;
      var i :| 0 <= i < |holidays| && holidays[i] == h;
      assert cells[i] == Some(h.name);
    }
  }

  /** The values the holiday dimension describes are the stripped names. */
  lemma HolidayCellsDescribed(holidays: seq<Holiday>, columns: seq<string>)
    requires |columns| > 0
    ensures Described(HolidayCells(holidays, columns)) == StrippedNames(holidays)
  {
    forall x ensures x in HolidayCells(holidays, columns) <==> x in NameCells(holidays) {
      HolidayCellsRepeat(holidays, columns, x);
    }
    DescribedAlike(HolidayCells(holidays, columns), NameCells(holidays));
    NameCellsDescribed(holidays);
  }

  /** The holiday dimension numbers 1..n the distinct stripped holiday names in
      ascending order, each once. */
  lemma HolidayDimension(holidays: seq<Holiday>, columns: seq<string>)
    requires CreateDimensionHolidays(holidays, columns).Some?
    ensures var dim := CreateDimensionHolidays(holidays, columns).value;
            var labels := Labels(dim.rows);
            && (forall i :: 0 <= i < |dim.rows| ==> dim.rows[i].id == i + 1)
            && Ascending(labels, Below)
            && (forall a, b :: 0 <= a < b < |labels| ==> labels[a] != labels[b])
            && Elems(labels) == StrippedNames(holidays)
  {
    CreateDimensionDescribes(HolidayCells(holidays, columns));
    HolidayCellsDescribed(holidays, columns);
  }

  /** Every holiday name gets the id of the row describing it, and the map is a
      bijection between the descriptions and 1..n. */
  lemma HolidayIds(holidays: seq<Holiday>, columns: seq<string>, h: Holiday)
    requires CreateDimensionHolidays(holidays, columns).Some?
    requires h in holidays
    ensures var dim := CreateDimensionHolidays(holidays, columns).value;
            Describes(dim, Some(h.name), ForeignKey(Some(h.name), dim.ids))
  {
    var cells := HolidayCells(holidays, columns);
    var i :| 0 <= i < |holidays| && holidays[i] == h;
    assert NameCells(holidays)[i] == Some(h.name);
    HolidayCellsRepeat(holidays, columns, Some(h.name));
    ForeignKeyOfDescribed(cells, Some(h.name));
  }
}
