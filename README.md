# NYC crashes and public holidays: a verified model of the pipeline core

This project models the data pipeline that combines New York City motor-vehicle
collision records with United States public holidays. The model covers:

- the preparation of the crashes table: header normalisation, time parsing,
  derived columns and the year filter;
- the extraction of holidays year by year and their cleaning: New York holidays
  only, one row per date, with the names of one date merged as "a / b";
- the left merge of crashes with holidays on the crash date, and the
  `is_public_holiday` flag;
- the cleaning and transformation of the merged table: vehicle count,
  contributing-factor normalisation, the borough lookup, the row filters,
  casualty totals, severity and location type;
- the final column drop and `dropna`;
- the dimension tables built from text columns, and the star-schema data model
  with foreign keys.

Modelling choices:

- **Tables.** A pandas DataFrame is a header (`seq<string>`) plus typed rows
  (`Crashes.Crash`, `Holidays.RawHoliday`, `Holidays.Holiday`). A frame that the
  source changes in place is a `Frames.Frame` object, whose methods say what
  they modify. A null cell is `None`.
- **Errors.** Each `try` block that the source ends early by an exception is
  modelled as its own outcome, with the table as changed so far:
  - `Crashes.Preparation.Stopped`;
  - the unfinished `Cleansing.Cleaning` that `Cleansing.Clean` returns;
  - `DataModel.Modelling.Failed`;
  - `Holidays.HolidayTable.NoHolidayColumns`;
  - `Pipeline.Outcome.Aborted`.
- **External calls become parameters:**
  - the holiday web service is `fetch: int -> seq<RawHoliday>`;
  - the point-in-polygon spatial join against the borough boundaries is
    `locate: Crash -> Option<BoroughMatch>`.
- **Fixed settings.** The pipeline's own settings (start year 2023, zero extra
  years) are constants.

Each operation is paired with the property that gives it meaning. Examples:
cleansing a factor twice is cleansing it once; the harvested holidays are the
answers for the years asked, in order; the holiday join is one-to-one because
the cleaned dates are unique; every surviving row is flagged exactly when its
date is a kept New York holiday; every foreign key names the dimension row that
describes its cell.

## Model

| member | source | states |
|---|---|---|
| Crashes.NormalizeColumns | lib/Modulerized_Crashes.py:69 | every normalised column name has no space and no upper-case letter, and the header keeps its length |
| Crashes.NormalizeColumnsIdempotent | lib/Modulerized_Crashes.py:69 | normalising an already normalised header changes nothing |
| Crashes.ParseTimeCell | lib/Modulerized_Crashes.py:75 | a missing cell or a NaT text reads as NaT; a value that is already a time of day raises; any other text reads as `ParseClock` reads it, and raises when that refuses it; a parsed time has hour 0..23 and minute 0..59 |
| Calendar.ParseClockExamples | lib/Modulerized_Crashes.py:75 | with the format `%H:%M`, "9:05" reads as 09:05, and "24:00" and "12:60" are refused |
| Calendar.ParseClockTexts | lib/Modulerized_Crashes.py:75 | every clock with hour 0..23 and minute 0..59 reads back from each text `%H:%M` accepts for it: two digits per field, or one digit below ten |
| Calendar.ParseClockSound | lib/Modulerized_Crashes.py:75 | a text that reads as a clock is one of that clock's `%H:%M` texts, so no text reads as a clock it does not spell |
| Crashes.TimeTextReads | lib/Modulerized_Crashes.py:75-79 | a `crash_time` cell holding any `%H:%M` text of a clock parses to that clock, whose hour becomes `crash_hour` |
| Crashes.TimeTextSound | lib/Modulerized_Crashes.py:75 | a `crash_time` text that parses to a clock spells that clock |
| Crashes.Stamp | lib/Modulerized_Crashes.py:75-83 | `crash_time` becomes the parsed time of day, or null on NaT; `crash_hour` is that time's hour (0..23), or null; `crash_year` is the year of the date and is null exactly when the date is; no other cell of the row changes |
| Crashes.AddDerivedColumns | lib/Modulerized_Crashes.py:79-83 | the header gains exactly `crash_hour`, `crash_day`, `crash_month` and `crash_year` and loses nothing |
| Crashes.KeepYears | lib/Modulerized_Crashes.py:96-99 | the kept rows are exactly the rows dated `from_year` or later |
| Crashes.KeepYearsConcat | lib/Modulerized_Crashes.py:99 | the mask never reorders rows: filtering two stretches one after the other is filtering them together |
| Crashes.KeepYearsSingle | lib/Modulerized_Crashes.py:99 | one row is kept unchanged exactly when its year is at least `from_year`, and dropped otherwise |
| Crashes.KeepYearsCopies | lib/Modulerized_Crashes.py:99 | every copy of a passing row is kept, and no copy of any other row |
| Crashes.KeepYearsExample | lib/Modulerized_Crashes.py:99 | `[x, y, x]` with only `x` in range gives `[x, x]` |
| Crashes.PreparedHeader | lib/Modulerized_Crashes.py:66-104 | whether preparation finishes or stops, the header that comes out is normalised |
| Crashes.PreparedRows | lib/Modulerized_Crashes.py:72-89 | after a finished preparation the derived columns are present; every row keeps its date and every other cell; its time and hour are the parsed time of day and its hour (0..23), or null on NaT; its year is the year of its date |
| Crashes.PreparedFilter | lib/Modulerized_Crashes.py:96-99 | the returned frame holds exactly the prepared rows whose year is at least `start_year - num_years`, with no upper bound; it is the year mask of the prepared rows, so order and copies are kept |
| Crashes.PrepareTwiceStops | lib/Modulerized_Crashes.py:75-80 | preparing an already prepared frame that has a real time stops at the time column, because a time of day cannot be parsed again |
| Crashes.PrepareCrashes | lib/Modulerized_Crashes.py:66-104 | the caller's frame is renamed and re-typed in place, as far as the `try` got; a finished run returns a new frame holding the filtered rows; after an exception the caller's own frame is returned |
| Cleansing.NormalizeText | lib/Modulerized_Crashes.py:173-176 | null stays null; any other value comes out stripped and lower-case |
| Cleansing.NormalizeTextFixes | lib/Modulerized_Crashes.py:173-176 | a stripped lower-case value is left unchanged |
| Cleansing.CleanseFactor | lib/Modulerized_Crashes.py:201-207 | "Unspecified" and null become null; the result is never "illnes", "1" or "80" and is stripped lower-case text |
| Cleansing.CleanseFactorIdempotent | lib/Modulerized_Crashes.py:204-207 | cleansing a cleansed factor changes nothing |
| Cleansing.CleansePadded | lib/Modulerized_Crashes.py:205-207 | a padded value is stripped and lower-cased before the correction table is applied |
| Cleansing.CleanseIllnessExample | lib/Modulerized_Crashes.py:202-207 | "Illnes" becomes "illness" |
| Cleansing.PresentBounds | lib/Modulerized_Crashes.py:190-194 | the non-null count equals the number of cells exactly when all cells are present, and is 0 exactly when none are |
| Cleansing.CountVehicles | lib/Modulerized_Crashes.py:190-194 | `Number_of_involved_Vehicles` is five minus the number of null vehicle-type cells, so 0..5 and at least 1 when `vehicle_type_code_1` is present; no other cell changes |
| Cleansing.PresentNulls | lib/Modulerized_Crashes.py:194 | the non-null count of some cells is their number minus the number of null ones |
| Cleansing.CleanseColumnNext | lib/Modulerized_Crashes.py:204-207 | cleansing column k after the first k columns is the same as cleansing the first k + 1 columns |
| Cleansing.FactorColumnsPresent | lib/Modulerized_Crashes.py:198-207 | the loop gets through exactly as many factor columns as are present, in order, before the first missing one raises |
| Cleansing.Locate | lib/Modulerized_Crashes.py:216-221 | `BoroName` is set exactly when the spatial join finds a borough, and then holds that borough's name and index; on a miss both are null; no other cell of the row changes |
| Cleansing.ColumnsWith | lib/Modulerized_Crashes.py:233-234 | the columns selected are exactly those whose lower-cased name contains the word |
| Cleansing.PersonsKilledSummed | lib/Modulerized_Crashes.py:234 | `number_of_persons_killed` is one of the columns summed into `total_killed` |
| Cleansing.TotalCoversEach | lib/Modulerized_Crashes.py:237-238 | with non-negative counts, a total is at least each count summed into it |
| Cleansing.SeverityOf | lib/Modulerized_Crashes.py:239-240 | Fatal exactly when someone was killed; Injury exactly when no one was killed and someone was injured; otherwise No Casualty |
| Cleansing.KilledIsFatal | lib/Modulerized_Crashes.py:234-240 | a crash with a person killed is rated Fatal |
| Cleansing.LocationTypeOf | lib/Modulerized_Crashes.py:243-255 | intersection, mid_block and off_street exactly as the three conditions say; the default `unknown` cannot be reached |
| Cleansing.Sift | lib/Modulerized_Crashes.py:225-230 | a row survives the three filters exactly when its location is not (0.0, 0.0), it has some place and its required cells are present |
| Cleansing.SiftIsFilter | lib/Modulerized_Crashes.py:225-230 | the three masks one after the other are the single mask of rows passing all three |
| Cleansing.SiftConcat | lib/Modulerized_Crashes.py:225-230 | the filters never reorder rows: sifting two stretches one after the other is sifting them together |
| Cleansing.SiftSingle | lib/Modulerized_Crashes.py:225-230 | one row is kept unchanged exactly when it passes the three filters, and dropped otherwise |
| Cleansing.SiftCopies | lib/Modulerized_Crashes.py:225-230 | every copy of a passing row is kept, and no copy of any other row |
| Cleansing.CleanCompletes | lib/Modulerized_Crashes.py:185-262 | when every column it reads is present, `clean_transform` on a frame with rows adds its columns and returns the finished survivors; on a frame with no rows it returns a frame with no columns |
| Cleansing.CleanEmpty | lib/Modulerized_Crashes.py:225-227 | on a frame with no rows, the empty mask of line 225 selects no columns, line 227 raises, and the frame returned has neither columns nor rows |
| Cleansing.CleanRow | lib/Modulerized_Crashes.py:185-262 | when every column is present, row i of the result is survivor i |
| Cleansing.SurvivorsCleaned | lib/Modulerized_Crashes.py:225-255 | every surviving row passes the three filters, has a vehicle count of 1..5, cleansed factor cells, totals with a severity that follows them, and a known location type |
| Cleansing.SurvivorsFrom | lib/Modulerized_Crashes.py:188-255 | every surviving row is the transformation of an input row that passed the filters |
| Cleansing.SurvivorsComplete | lib/Modulerized_Crashes.py:188-255 | every input row that passes the filters survives, transformed |
| Cleansing.SurvivorsConcat | lib/Modulerized_Crashes.py:188-255 | `clean_transform` never reorders rows: the survivors of two stretches one after the other are the survivors of each, in that order |
| Cleansing.SurvivorsSingle | lib/Modulerized_Crashes.py:188-255 | one input row comes through as its finished transform exactly when that transform passes the filters, and not at all otherwise |
| Cleansing.CleanTransform | lib/Modulerized_Crashes.py:185-262 | returns `clean_transform`'s result, including the partial frame left by an exception |
| Dimensions.StrippedValuesDescribed | lib/Modulerized_Crashes.py:267-268 | the values of the stacked columns after `dropna().str.strip()` are exactly the stripped non-null cells |
| Dimensions.CreateDimension | lib/Modulerized_Crashes.py:265-278 | ids 1..n over the sorted distinct descriptions, and a map from each description to its row's id |
| Dimensions.CreateDimensionDescribes | lib/Modulerized_Crashes.py:283-294 | the rows describe exactly the stripped non-null cells, each once, in ascending order |
| Dimensions.NumbersLookup | lib/Modulerized_Crashes.py:298-309 | the map and the table agree: a description's id is the row describing it |
| Dimensions.ForeignKeyOfDescribed | lib/Modulerized_Crashes.py:316-318 | the key of a cell is null exactly when the cell is null, and otherwise is the id of the row whose description is the stripped cell |
| Dimensions.DimensionExample | lib/Modulerized_Crashes.py:267-271 | `[b, null, " " + a, b]` with a < b gives the rows a, then b |
| DataModel.ModelFails | lib/Modulerized_Crashes.py:312-339 | the model fails with a KeyError exactly when a factor column, a vehicle column or `BoroName` is missing |
| DataModel.ModelDimensions | lib/Modulerized_Crashes.py:321-329 | the vehicle and borough dimensions are built from the original text cells, untouched by earlier keying |
| DataModel.ModelDescribes | lib/Modulerized_Crashes.py:316-332 | each of the eleven key columns is null exactly when its text cell is, and otherwise names the dimension row describing the stripped text; nothing else in the row changes |
| DataModel.ModelHeaders | lib/Modulerized_Crashes.py:316-337 | the table keeps its columns and gains the eleven key columns; the fact table keeps every other column and the keys, but none of the text columns |
| DataModel.KeyGroup | lib/Modulerized_Crashes.py:316-325 | the per-group loop adds that group's five key columns in place |
| DataModel.CreateDataModel | lib/Modulerized_Crashes.py:312-339 | the caller's table gains its key columns in place; returns a new fact table and the three dimensions, or nothing after a KeyError |
| Holidays.IsNewYorkHoliday | lib/Modulerized_Holidays.py:8-11 | true exactly when the cell is a list and one of its codes contains the symbol |
| Holidays.NewYorkInside | lib/Modulerized_Holidays.py:10 | any code with "US-NY" inside it makes the list a New York one |
| Holidays.RequestedYears | lib/Modulerized_Holidays.py:59-60 | the years asked for are start_year, start_year - 1, ..., at most `num_years + 1` of them |
| Holidays.RequestedStops | lib/Modulerized_Holidays.py:62-66 | every year asked before the last had holidays; the loop stops early only at a year with none |
| Holidays.HarvestAnswers | lib/Modulerized_Holidays.py:59-71 | what is collected is the answers for the years asked, concatenated in order |
| Holidays.ExtractAllHolidays | lib/Modulerized_Holidays.py:53-71 | the loop collects what the harvest specification says |
| Holidays.CleanAndTransformHolidays | lib/Modulerized_Holidays.py:78-128 | an empty input gives the empty frame with no columns, which is what the error path returns |
| Holidays.KeptHolidays | lib/Modulerized_Holidays.py:93 | a holiday is kept exactly when it is a New York one, has null counties or is global |
| Holidays.CleanedDates | lib/Modulerized_Holidays.py:93-122 | the cleaned dates are strictly ascending, so each date appears once, and they are exactly the dates of the kept holidays |
| Holidays.CleanedNames | lib/Modulerized_Holidays.py:107-108 | a date's name is the distinct kept names of that date, sorted and joined with " / " |
| Holidays.SameDateExample | lib/Modulerized_Holidays.py:107-108 | two global holidays b and a on one date, with a < b, become one row named "a / b" |
| Holidays.CreateDimensionHolidays | lib/Modulerized_Holidays.py:132-145 | succeeds exactly when it is given a non-empty list of column names, all of them `holiday_name` |
| Holidays.HolidayDimension | lib/Modulerized_Holidays.py:132-145 | ids 1..n over the distinct stripped holiday names in ascending order |
| Holidays.HolidayIds | lib/Modulerized_Holidays.py:143 | every holiday name maps to the id of the row describing it |
| Pipeline.HolidaysOn | Full_Pipeline.py:98 | the holidays matched to a crash are exactly those dated on its crash date |
| Pipeline.MergedFlagged | Full_Pipeline.py:98-102 | every merged row keeps a crash's date; its flag is 1 exactly when some holiday falls on that date; its holiday name comes from such a holiday |
| Pipeline.HolidaysOnUnique | Full_Pipeline.py:98 | with strictly ascending holiday dates, at most one holiday matches a crash |
| Pipeline.MergeOneToOne | Full_Pipeline.py:98 | with unique holiday dates the left merge keeps the number of rows, and each row is its crash with only the holiday columns added |
| Pipeline.CleanedHolidaysJoinOneToOne | Full_Pipeline.py:78-98 | merging with cleaned holidays never duplicates a crash |
| Pipeline.FlagMeansNewYorkHoliday | Full_Pipeline.py:74-102 | the flag is 1 exactly when the crash date is the date of a kept New York holiday |
| Pipeline.DropAndDropNa | Full_Pipeline.py:113-114 | aborts exactly when a dropped or subset column is missing; otherwise the three columns are gone, and the rows are exactly the cleaned rows with `BoroName`, `longitude`, `location` and `latitude` all present |
| Pipeline.MergeAndCleanSpec | Full_Pipeline.py:98-114 | aborts when the holiday table has no columns or `crash_date` is missing; otherwise merge, flag, clean, drop and dropna in that order |
| Pipeline.MergeAndClean | Full_Pipeline.py:98-114 | returns the specified outcome |
| Pipeline.NoCrashesAbort | Full_Pipeline.py:112-113 | with no crash rows, `clean_transform` returns a frame without columns, so the drop raises and the block is abandoned |
| Pipeline.TransformKeepsHoliday | Full_Pipeline.py:112 | `clean_transform` leaves a row's date, holiday date, holiday name and flag unchanged |
| Pipeline.CleanKeepsHoliday | Full_Pipeline.py:112 | every row `clean_transform` returns is cleaned and carries the holiday columns of some merged row |
| Pipeline.FinalRowsFlagged | Full_Pipeline.py:98-114 | every final row is cleaned, placed and correctly flagged against the cleaned holidays, and has the date of some prepared crash |
| Pipeline.PipelineYears | Full_Pipeline.py:22-23 | with the pipeline's settings exactly one year, 2023, is requested |
| Pipeline.RunPipeline | Full_Pipeline.py:49-114 | preparation changes the crashes frame in place; the outcome is merge-and-clean of the prepared crashes with the cleaned harvest |

## Left out

- Loading files, logging, the exploration reports, plotting and writing parquet files are I/O. `load_crash_data`, `explore_crashes_data` and everything after line 114 of `Full_Pipeline.py` are not part of this model.
- `fetch_holidays` is an HTTP request. It is the `fetch` parameter, which never raises, so the `except` path of `extract_all_holidays` (lines 73-74, returning `None`) is not modelled.
- `geographical_manipulating` (lib/Modulerized_Crashes.py:108-169) reads a shapefile and runs a spatial join. It is the `locate` parameter: a borough name and index, or nothing. Coordinates are not modelled as floating point; a coordinate is present or null, and the "(0.0, 0.0)" test is on the location text.
- Date parsing of `crash_date` (line 72) is taken as already done: a date is a `Calendar.Date` or null. `crash_day` and `crash_month` are the weekday and month names; their values are not modelled, only their columns.
- `astype('Int64')` and `astype('category')` (lines 87-89) do not change values in the model. A missing column there is the KeyError that stops preparation.
- Text functions work on `seq<char>` with ASCII whitespace and case only. There is no Unicode case folding or normalisation, and Python's string order is modelled as code-point order (`Ordering.Below`).
- A column removed from the header by `drop` keeps its field in the typed row. Only the header says which columns a frame has.
- pandas' `_x`/`_y` suffixes for column-name collisions in `merge` are not modelled. The crashes table has no `holiday_date` or `holiday_name` column.
- The holiday date text is modelled as a `Calendar.Date`. Grouping by the text and grouping by the converted date give the same groups in the same order for ISO dates.
- `Holidays.CreateDimensionHolidays`: only `holiday_name` is a text column of the cleaned holiday table, so any other column list is modelled as the error (`None`).
- `create_data_model` and `create_dimension_holidays` are not called by `Full_Pipeline.py`. They are modelled on their own.
- Where the code and its documentation disagree, the model follows the code:
  - `extract_all_holidays` asks for `num_years + 1` years, though its comment gives an example of `num_years` years;
  - the year filter of `preparing_crashes_data` has no upper bound;
  - the sort of names and descriptions is case-sensitive;
  - `clean_transform` runs on the merged table, after the holiday merge.
