/**
  The last block of the pipeline's `main`: the prepared crashes are left-joined
  to the cleaned holidays on the date, flagged with `is_public_holiday`, cleansed
  by `clean_transform`, stripped of the columns the analysis no longer needs,
  and cut down to the rows that have a place; and the whole run with its two
  fixed parameters.
 */
module Pipeline {
  import opened Wrappers
  import opened Seqs
  import opened Ordering
  import opened Calendar
  import opened Frames
  import opened Crashes
  import opened Cleansing
  import opened Holidays

  /** The holidays whose date is `date`, in table order (a null date matches none). */
  function HolidaysOn(holidays: seq<Holiday>, date: Option<Date>): (on: seq<Holiday>)
    ensures forall h :: h in on <==> h in holidays && date == Some(h.date)
  {
    if holidays == [] then []
    else
      var rest := HolidaysOn(holidays[1..], date);
      assert forall h :: h in holidays <==> h == holidays[0] || h in holidays[1..];
      (if date == Some(holidays[0].date) then [holidays[0]] else []) + rest
  }

  /** A crash joined to a holiday of its date. */
  function WithHoliday(r: Crash, h: Holiday): (s: Crash)
    ensures s.date == r.date && s.holidayDate == Some(h.date) && s.holidayName == Some(h.name)
  {
    r.(holidayDate := Some(h.date), holidayName := Some(h.name))
  }

  /** A crash with no holiday on its date: the holiday columns are null. */
  function Unmatched(r: Crash): (s: Crash)
    ensures s.date == r.date && s.holidayDate.None? && s.holidayName.None?
  {
    r.(holidayDate := None, holidayName := None)
  }

  /** The rows one crash contributes to a left join: one per holiday of its date,
      or one with null holiday columns when there is none. */
  function MergeRow(r: Crash, holidays: seq<Holiday>): (out: seq<Crash>)
    ensures |out| >= 1
  {
    var on := HolidaysOn(holidays, r.date);
    if on == [] then [Unmatched(r)]
    else seq(|on|, k requires 0 <= k < |on| => WithHoliday(r, on[k]))
  }

  /** `pd.merge(crashes, holidays, how='left', left_on='crash_date',
      right_on='holiday_date')`: the crash rows in order, each followed by its
      matches. */
  function LeftMerge(rows: seq<Crash>, holidays: seq<Holiday>): (merged: seq<Crash>)
    ensures |merged| >= |rows|
  {
    if rows == [] then [] else MergeRow(rows[0], holidays) + LeftMerge(rows[1..], holidays)
  }

  /** Line 102 on one row: 1 when the row has a holiday date, 0 otherwise. */
  function Flag(r: Crash): (s: Crash)
    ensures s.isPublicHoliday == Some(if r.holidayDate.Some? then 1 else 0)
  {
    r.(isPublicHoliday := Some(if r.holidayDate.Some? then 1 else 0))
  }

  function FlagAll(rows: seq<Crash>): (r: seq<Crash>)
    ensures |r| == |rows|
    ensures forall i :: 0 <= i < |rows| ==> r[i] == Flag(rows[i])
  {
    seq(|rows|, i requires 0 <= i < |rows| => Flag(rows[i]))
  }

  /** A joined and flagged row that says correctly whether its date is a holiday:
      the flag is 1 exactly when the crash date is one of the holiday dates, and
      the holiday name is present exactly then and is the name of a holiday of
      that date. */
  ghost predicate FlaggedRight(x: Crash, holidays: seq<Holiday>)
  {
    && (x.isPublicHoliday == Some(1) || x.isPublicHoliday == Some(0))
    && (x.isPublicHoliday == Some(1) <==> exists h :: h in holidays && x.date == Some(h.date))
    && (x.holidayName.Some? <==> x.isPublicHoliday == Some(1))
    && (x.holidayName.Some? ==> exists h :: h in holidays && x.date == Some(h.date) && x.holidayName == Some(h.name))
  }

  /** Each row a crash contributes to the join is that crash with its holiday
      columns set, and is flagged right. */
  lemma MergeRowFlagged(r: Crash, holidays: seq<Holiday>, x: Crash)
    requires x in MergeRow(r, holidays)
    ensures x.date == r.date && FlaggedRight(Flag(x), holidays)
  {
    var on := HolidaysOn(holidays, r.date);
    if on != [] {
      var k :| 0 <= k < |on| && MergeRow(r, holidays)[k] == x;
      assert on[k] in on;
    } else {
      assert x == Unmatched(r);
      assert forall h :: h in holidays && r.date == Some(h.date) ==> h in on;
    }
  }

  /** Every row of the join comes from some crash, keeps its date and is flagged
      right. */
  lemma {:induction false} MergedFlagged(rows: seq<Crash>, holidays: seq<Holiday>, i: nat)
    requires i < |LeftMerge(rows, holidays)|
    ensures var x := LeftMerge(rows, holidays)[i];
            FlaggedRight(Flag(x), holidays) && exists k :: 0 <= k < |rows| && x.date == rows[k].date
  {
    var head := MergeRow(rows[0], holidays);
    var x := LeftMerge(rows, holidays)[i];
    if i < |head| {
      assert x == head[i];
      MergeRowFlagged(rows[0], holidays, x);
    } else {
      assert x == LeftMerge(rows[1..], holidays)[i - |head|];
      MergedFlagged(rows[1..], holidays, i - |head|);
      var k :| 0 <= k < |rows[1..]| && x.date == rows[1..][k].date;
      assert rows[1..][k] == rows[k + 1];
    }
  }

  /** No holiday of that date, no match. */
  lemma {:induction false} HolidaysOnNone(holidays: seq<Holiday>, date: Option<Date>)
    requires forall j :: 0 <= j < |holidays| ==> date != Some(holidays[j].date)
    ensures HolidaysOn(holidays, date) == []
  {
    if holidays != [] {
      HolidaysOnNone(holidays[1..], date);
    }
  }

  /** Under unique holiday dates a crash has at most one holiday. */
  lemma {:induction false} HolidaysOnUnique(holidays: seq<Holiday>, date: Option<Date>)
    requires Ascending(HolidayDates(holidays), DateBefore)
    ensures |HolidaysOn(holidays, date)| <= 1
  {
    if holidays != [] {
      var rest := holidays[1..];
      var dates := HolidayDates(holidays);
      assert HolidayDates(rest) == dates[1..];
      HolidaysOnUnique(rest, date);
      if date == Some(holidays[0].date) {
        forall j | 0 <= j < |rest| ensures rest[j].date != holidays[0].date {
          assert dates[0] == holidays[0].date && dates[j + 1] == rest[j].date;
        }
        HolidaysOnNone(rest, date);
      }
    }
  }

  /** With at most one holiday on its date a crash contributes exactly one row,
      which differs from it at most in the holiday columns. */
  lemma MergeRowSingle(r: Crash, holidays: seq<Holiday>)
    requires |HolidaysOn(holidays, r.date)| <= 1
    ensures |MergeRow(r, holidays)| == 1 && Unmatched(MergeRow(r, holidays)[0]) == Unmatched(r)
  {
  }

  /** With unique holiday dates the join keeps every crash exactly once, in
      order: the k-th row is the k-th crash up to its holiday columns. */
  lemma {:induction false} MergeOneToOne(rows: seq<Crash>, holidays: seq<Holiday>)
    requires Ascending(HolidayDates(holidays), DateBefore)
    ensures var merged := LeftMerge(rows, holidays);
            && |merged| == |rows|
            && (forall k :: 0 <= k < |rows| ==> Unmatched(merged[k]) == Unmatched(rows[k]))
  {
    if rows != [] {
      HolidaysOnUnique(holidays, rows[0].date);
      MergeRowSingle(rows[0], holidays);
      MergeOneToOne(rows[1..], holidays);
      var head, tail := MergeRow(rows[0], holidays), LeftMerge(rows[1..], holidays);
      var merged := LeftMerge(rows, holidays);
      assert merged == head + tail;
      forall k | 0 <= k < |rows| ensures Unmatched(merged[k]) == Unmatched(rows[k]) {
        if k == 0 {
          assert merged[0] == head[0];
        } else {
          assert merged[k] == tail[k - 1];
          assert rows[k] == rows[1..][k - 1];
        }
      }
    }
  }

  /** The columns the join and the flag add. */
  function MergedColumns(columns: seq<string>): seq<string>
  {
    AddColumn(AddColumn(AddColumn(columns, "holiday_date"), "holiday_name"), "is_public_holiday")
  }

  /** Line 114: the row has a borough, a longitude, a location and a latitude. */
  predicate Placed(r: Crash)
  {
    r.boroName.Some? && r.longitude.Some? && r.location.Some? && r.latitude.Some?
  }

  /** The columns lines 113-114 name all exist. */
  predicate HasFinalColumns(columns: seq<string>)
  {
    && "holiday_date" in columns && "borough" in columns && "index__borough" in columns
    && "BoroName" in columns && "longitude" in columns && "location" in columns && "latitude" in columns
  }

  /** Where the block ends: a KeyError (no holiday table to join on, no date to
      join by, or a column to drop that is not there) abandons it; otherwise the
      final table. */
  datatype Outcome = Aborted | Final(columns: seq<string>, rows: seq<Crash>)

  /** Lines 113-114 on the cleaned frame: drop three columns, then the rows with
      no borough, longitude, location or latitude. */
  function DropAndDropNa(cleaned: Cleaning): (o: Outcome)
    ensures o.Aborted? <==> !HasFinalColumns(cleaned.columns)
    ensures o.Final? ==> && "holiday_date" !in o.columns && "borough" !in o.columns
                         && "index__borough" !in o.columns
                         && "BoroName" in o.columns && "longitude" in o.columns
                         && "location" in o.columns && "latitude" in o.columns
                         && (forall c :: c in o.columns ==> c in cleaned.columns)
                         && (forall i :: 0 <= i < |o.rows| ==> Placed(o.rows[i]))
                         && (forall x :: x in o.rows <==> x in cleaned.rows && Placed(x))
  {
    if !HasFinalColumns(cleaned.columns) then Aborted
    else
      FilterMembers(cleaned.rows, Placed);
      Final(DropColumns(cleaned.columns, ["holiday_date", "borough", "index__borough"]), Filter(cleaned.rows, Placed))
  }

  /** Lines 98-114, step by step. */
  function MergeAndCleanSpec(columns: seq<string>, rows: seq<Crash>, holidays: HolidayTable,
                             locate: Crash -> Option<BoroughMatch>): (o: Outcome)
    ensures holidays.NoHolidayColumns? || "crash_date" !in columns ==> o.Aborted?
    ensures o.Final? ==> && "holiday_date" !in o.columns && "borough" !in o.columns
                         && "index__borough" !in o.columns
                         && "BoroName" in o.columns && "longitude" in o.columns
                         && "location" in o.columns && "latitude" in o.columns
                         && (forall i :: 0 <= i < |o.rows| ==> Placed(o.rows[i]))
  {
    if holidays.NoHolidayColumns? || "crash_date" !in columns then Aborted
    else
      var merged := FlagAll(LeftMerge(rows, holidays.rows));
      DropAndDropNa(Clean(MergedColumns(columns), merged, locate))
  }

  /** Lines 98-114: the join, the flag, `clean_transform`, and the in-place drop
      and dropna on the cleaned frame. */
  method MergeAndClean(columns: seq<string>, rows: seq<Crash>, holidays: HolidayTable,
                       locate: Crash -> Option<BoroughMatch>) returns (outcome: Outcome)
    ensures outcome == MergeAndCleanSpec(columns, rows, holidays, locate)
  {
    if holidays.NoHolidayColumns? || "crash_date" !in columns {
      return Aborted;
    }
    var merged := LeftMerge(rows, holidays.rows);
    var mergedColumns := MergedColumns(columns);
    merged := FlagAll(merged);
    var cleanedColumns, cleanedRows := CleanTransform(mergedColumns, merged, locate);
    outcome := DropAndDropNa(Cleaning(cleanedColumns, cleanedRows));
  }

  /** The cleaned holidays have one row per date, so the join keeps every crash
      exactly once and in order. */
  lemma CleanedHolidaysJoinOneToOne(rows: seq<Crash>, raw: seq<RawHoliday>)
    requires raw != []
    ensures var merged := LeftMerge(rows, CleanAndTransformHolidays(raw).rows);
            && |merged| == |rows|
            && (forall k :: 0 <= k < |rows| ==> Unmatched(merged[k]) == Unmatched(rows[k]))
  {
    CleanedDates(raw);
    MergeOneToOne(rows, CleanAndTransformHolidays(raw).rows);
  }

  /** Against the cleaned holidays, a row flagged right has flag 1 exactly when
      its crash date is the date of a holiday kept for New York. */
  lemma FlagMeansNewYorkHoliday(x: Crash, raw: seq<RawHoliday>)
    requires raw != [] && FlaggedRight(x, CleanAndTransformHolidays(raw).rows)
    ensures x.isPublicHoliday == Some(1) <==> x.date.Some? && x.date.value in KeptDates(raw)
  {
    var table := CleanAndTransformHolidays(raw).rows;
    CleanedDates(raw);
    var dates := HolidayDates(table);
    if x.isPublicHoliday == Some(1) {
      var h :| h in table && x.date == Some(h.date);
      var j :| 0 <= j < |table| && table[j] == h;
      assert dates[j] == h.date;
    }
    if x.date.Some? && x.date.value in KeptDates(raw) {
      assert x.date.value in Elems(dates);
      var j :| 0 <= j < |dates| && dates[j] == x.date.value;
      assert table[j] in table;
    }
  }

  /** Two rows agree on the date and the holiday columns. */
  predicate SameHoliday(a: Crash, b: Crash)
  {
    a.date == b.date && a.holidayDate == b.holidayDate
    && a.holidayName == b.holidayName && a.isPublicHoliday == b.isPublicHoliday
  }

  /** `clean_transform` leaves a row's date and holiday columns alone. */
  lemma TransformKeepsHoliday(r: Crash, columns: seq<string>, locate: Crash -> Option<BoroughMatch>)
    ensures SameHoliday(Finish(Transform(r, locate), columns), r)
  {
    var counted := CountVehicles(r);
    assert SameHoliday(counted, r);
    var cleansed := CleanseFirst(counted, 5);
    assert SameHoliday(cleansed, r);
    var located := Locate(cleansed, locate);
    assert SameHoliday(located, r);
    var joined := JoinedColumns(columns);
    var scored := Score(located, ColumnsWith(joined, "injured"), ColumnsWith(joined, "killed"));
    assert SameHoliday(scored, r);
    assert SameHoliday(Place(scored), r);
  }

  /** The rows of the final table are rows of the cleaned frame that have a
      place. */
  lemma FinalRowsCleaned(columns: seq<string>, rows: seq<Crash>, holidays: HolidayTable,
                         locate: Crash -> Option<BoroughMatch>, x: Crash)
    requires var o := MergeAndCleanSpec(columns, rows, holidays, locate);
             o.Final? && x in o.rows
    ensures holidays.HolidayTable? && Placed(x)
    ensures x in Clean(MergedColumns(columns), FlagAll(LeftMerge(rows, holidays.rows)), locate).rows
  {
  }

  /** Each row `clean_transform` finishes agrees with some input row on the date
      and the holiday columns. */
  lemma SurvivorsKeepHoliday(columns: seq<string>, xs: seq<Crash>, locate: Crash -> Option<BoroughMatch>, i: nat)
    requires i < |Survivors(columns, xs, locate)|
    ensures exists k :: 0 <= k < |xs| && SameHoliday(Survivors(columns, xs, locate)[i], xs[k])
  {
    SurvivorsFrom(columns, xs, locate, i);
    var k :| 0 <= k < |xs| && Passes(Transform(xs[k], locate))
             && Survivors(columns, xs, locate)[i] == Finish(Transform(xs[k], locate), columns);
    TransformKeepsHoliday(xs[k], columns, locate);
  }

  /** When it finds every column it reads, each row `clean_transform` returns is
      cleaned and agrees with some input row on the date and the holiday
      columns. */
  lemma CleanKeepsHoliday(columns: seq<string>, xs: seq<Crash>, locate: Crash -> Option<BoroughMatch>, i: nat)
    requires CleanColumns(columns) && i < |Clean(columns, xs, locate).rows|
    ensures Cleaned(Clean(columns, xs, locate).rows[i])
    ensures exists k :: 0 <= k < |xs| && SameHoliday(Clean(columns, xs, locate).rows[i], xs[k])
  {
    CleanRow(columns, xs, locate, i);
    SurvivorsCleaned(columns, xs, locate);
    SurvivorsKeepHoliday(columns, xs, locate, i);
  }

  /** The same for a row given by value. */
  lemma CleanedRowKeepsHoliday(columns: seq<string>, xs: seq<Crash>, locate: Crash -> Option<BoroughMatch>, x: Crash)
    requires CleanColumns(columns) && x in Clean(columns, xs, locate).rows
    ensures Cleaned(x) && exists k :: 0 <= k < |xs| && SameHoliday(x, xs[k])
  {
    var rows := Clean(columns, xs, locate).rows;
    var i :| 0 <= i < |rows| && rows[i] == x;
    CleanKeepsHoliday(columns, xs, locate, i);
  }

  /** Every joined and flagged row keeps the date of some crash and is flagged
      right. */
  lemma FlaggedRows(rows: seq<Crash>, holidays: seq<Holiday>)
    ensures var flagged := FlagAll(LeftMerge(rows, holidays));
            forall i :: 0 <= i < |flagged| ==>
              FlaggedRight(flagged[i], holidays) && exists k :: 0 <= k < |rows| && flagged[i].date == rows[k].date
  {
    var merged := LeftMerge(rows, holidays);
    forall i | 0 <= i < |merged|
      ensures FlaggedRight(FlagAll(merged)[i], holidays)
      ensures exists k :: 0 <= k < |rows| && FlagAll(merged)[i].date == rows[k].date
    {
      MergedFlagged(rows, holidays, i);
    }
  }

  /** When `clean_transform` finds every column it reads, each row of the final
      table is a cleaned row, has a place, keeps the date of some prepared crash,
      and says correctly whether that date is a holiday. */
  lemma FinalRowsFlagged(columns: seq<string>, rows: seq<Crash>, raw: seq<RawHoliday>,
                         locate: Crash -> Option<BoroughMatch>, x: Crash)
    requires CleanColumns(MergedColumns(columns))
    requires var o := MergeAndCleanSpec(columns, rows, CleanAndTransformHolidays(raw), locate);
             o.Final? && x in o.rows
    ensures Cleaned(x) && Placed(x) && FlaggedRight(x, CleanAndTransformHolidays(raw).rows)
    ensures exists k :: 0 <= k < |rows| && x.date == rows[k].date
  {
    var holidays := CleanAndTransformHolidays(raw).rows;
    var flagged := FlagAll(LeftMerge(rows, holidays));
    FinalRowsCleaned(columns, rows, CleanAndTransformHolidays(raw), locate, x);
    CleanedRowKeepsHoliday(MergedColumns(columns), flagged, locate, x);
    var j :| 0 <= j < |flagged| && SameHoliday(x, flagged[j]);
    FlaggedRows(rows, holidays);
    var k :| 0 <= k < |rows| && flagged[j].date == rows[k].date;
  }

  /** With no crash rows the block never reaches a final table: `clean_transform`
      hands back a frame without columns, so the drop of line 113 raises. */
  lemma NoCrashesAbort(columns: seq<string>, holidays: HolidayTable, locate: Crash -> Option<BoroughMatch>)
    requires CleanColumns(MergedColumns(columns))
    ensures MergeAndCleanSpec(columns, [], holidays, locate) == Aborted
  {
    if !holidays.NoHolidayColumns? && "crash_date" in columns {
      assert FlagAll(LeftMerge([], holidays.rows)) == [];
      CleanEmpty(MergedColumns(columns), locate);
    }
  }

  /** The two values `main` fixes: the latest year of the data and how many years
      before it to take as well. */
  const StartYear: int := 2023
  const NumberOfYears: int := 0

  /** With those values the crash filter keeps the years from 2023 on, and the
      holiday service is asked for 2023 alone. */
  lemma PipelineYears(fetch: int -> seq<RawHoliday>)
    ensures StartYear - NumberOfYears == 2023
    ensures Requested(StartYear, NumberOfYears + 1, fetch) == [2023]
    ensures Harvest(StartYear, NumberOfYears + 1, fetch) == fetch(2023)
  {
    assert Requested(StartYear - 1, NumberOfYears, fetch) == [];
    assert Harvest(StartYear - 1, NumberOfYears, fetch) == [];
  }

  /** The frame `main` goes on with after the crash section: the filtered frame,
      or the caller's frame as far as it got. */
  function Handed(p: Preparation): (r: Cleaning)
    ensures r.columns == p.columns
    ensures p.Stopped? ==> r.rows == p.rows
  {
    match p
    case Prepared(columns, _, kept) => Cleaning(columns, kept)
    case Stopped(columns, rows) => Cleaning(columns, rows)
  }

  /** `main` from the crash frame on: prepare the crashes, fetch and clean the
      holidays, then lines 98-114. */
  method RunPipeline(crashes: Frame<Crash>, fetch: int -> seq<RawHoliday>, locate: Crash -> Option<BoroughMatch>)
    returns (outcome: Outcome)
    modifies crashes
    ensures var p := Prepare(old(crashes.columns), old(crashes.rows), StartYear, NumberOfYears);
            && crashes.columns == p.columns && crashes.rows == p.rows
            && outcome == MergeAndCleanSpec(Handed(p).columns, Handed(p).rows,
                                            CleanAndTransformHolidays(Harvest(StartYear, NumberOfYears + 1, fetch)), locate)
  {
    var prepared := PrepareCrashes(crashes, StartYear, NumberOfYears);
    var allHolidays := ExtractAllHolidays(StartYear, NumberOfYears, fetch);
    var cleanedHolidays := CleanAndTransformHolidays(allHolidays);
    outcome := MergeAndClean(prepared.columns, prepared.rows, cleanedHolidays, locate);
  }
}
