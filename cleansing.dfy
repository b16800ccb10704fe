/**
  `normalize_text` and `clean_transform`: the contributing-factor cleansing, the
  vehicle count, the borough lookup, the three row filters, the casualty totals,
  the severity class and the location type.
 */
module Cleansing {
  import opened Wrappers
  import opened Text
  import opened Seqs
  import opened Frames
  import opened Crashes

  /** `normalize_text`: null stays null, text is stripped and lower-cased. */
  function NormalizeText(v: Option<string>): (r: Option<string>)
    ensures r.None? <==> v.None?
    ensures r.Some? ==> IsStripped(r.value) && IsLower(r.value)
  {
    match v
    case None => None
    case Some(s) =>
      LowerKeepsStripped(Strip(s));
      Some(Lower(Strip(s)))
  }

  /** Normalised text is left alone by a second normalisation. */
  lemma NormalizeTextFixes(s: string)
    requires IsStripped(s) && IsLower(s)
    ensures NormalizeText(Some(s)) == Some(s)
  {
    StripOfStripped(s);
    LowerOfLower(s);
  }

  /** The correction map `{'illnes': 'illness', '1': NA, '80': NA}`, applied to
      whole cells. */
  function Correct(v: Option<string>): (r: Option<string>)
    ensures r != Some("illnes") && r != Some("1") && r != Some("80")
    ensures v.None? ==> r.None?
  {
    if v == Some("illnes") then Some("illness")
    else if v == Some("1") || v == Some("80") then None
    else v
  }

  /** A cell the corrections leave standing: null, or stripped lower-case text
      that is none of the three corrected values. */
  predicate IsCleansed(v: Option<string>)
  {
    v.Some? ==> IsStripped(v.value) && IsLower(v.value) && v.value != "illnes" && v.value != "1" && v.value != "80"
  }

  /** One pass of the loop at lines 204-207 on one cell: exactly `'Unspecified'`
      becomes null, then the text is normalised, then corrected. */
  function CleanseFactor(v: Option<string>): (r: Option<string>)
    ensures IsCleansed(r)
    ensures v.None? || v == Some("Unspecified") ==> r.None?
  {
    Correct(NormalizeText(if v == Some("Unspecified") then None else v))
  }

  /** A cleansed cell is left alone by a second cleansing. */
  lemma CleanseFactorIdempotent(v: Option<string>)
    ensures CleanseFactor(CleanseFactor(v)) == CleanseFactor(v)
  {
    var r := CleanseFactor(v);
    if r.Some? {
      var s := r.value;
      assert s != "Unspecified" by {
        assert |s| > 0 ==> !IsUpper(s[0]);
        assert IsUpper("Unspecified"[0]);
      }
      NormalizeTextFixes(s);
    }
  }

  /** ... while padded text is never taken for it: `' Unspecified '` is
      normalised to `'unspecified'` and kept, and the corrections look at the
      normalised text, so `' 1 '` is dropped. */
  lemma CleansePadded(s: string)
    requires IsStripped(s) && |s| > 0
    ensures CleanseFactor(Some(" " + s + " ")) == Correct(Some(Lower(s)))
  {
    PaddedNormalized(s);
  }

  /** Padded text is not the exact text `'Unspecified'`, and normalises to its
      lower-cased core. */
  lemma PaddedNormalized(s: string)
    requires IsStripped(s) && |s| > 0
    ensures " " + s + " " != "Unspecified"
    ensures NormalizeText(Some(" " + s + " ")) == Some(Lower(s))
  {
    var padded := " " + s + " ";
    assert padded[0] == ' ' && "Unspecified"[0] == 'U';
    StripPadded(s);
  }

  /** `'Illnes'` is lower-cased first and then corrected to `'illness'`. */
  lemma CleanseIllnessExample(ill: string)
    requires ill == "Illnes"
    ensures CleanseFactor(Some(ill)) == Some("illness")
  {
    StripOfStripped(ill);
    assert Lower(ill) == "illnes";
  }

  /** `notna().sum(axis=1)` over some cells: how many are present. */
  function Present(cells: seq<Option<string>>): (n: nat)
    ensures n <= |cells|
  {
    if cells == [] then 0 else (if cells[0].Some? then 1 else 0) + Present(cells[1..])
  }

  /** The count is all of the cells exactly when every one is present, none
      exactly when every one is null, and at least one when the first is present. */
  lemma {:induction false} PresentBounds(cells: seq<Option<string>>)
    ensures Present(cells) == |cells| <==> forall k :: 0 <= k < |cells| ==> cells[k].Some?
    ensures Present(cells) == 0 <==> forall k :: 0 <= k < |cells| ==> cells[k].None?
    ensures cells != [] && cells[0].Some? ==> Present(cells) >= 1
  {
    if cells != [] {
      PresentBounds(cells[1..]);
      assert forall k :: 1 <= k < |cells| ==> cells[k] == cells[1..][k - 1];
    }
  }

  /** The present cells are all the cells but the null ones. */
  lemma {:induction false} PresentNulls(cells: seq<Option<string>>)
    ensures Present(cells) == |cells| - multiset(cells)[None]
  {
    if cells != [] {
      PresentNulls(cells[1..]);
      assert cells == [cells[0]] + cells[1..];
      assert multiset(cells) == multiset{cells[0]} + multiset(cells[1..]);
    }
  }

  /** Line 194 on one row: `Number_of_involved_Vehicles`. */
  function CountVehicles(r: Crash): (s: Crash)
    ensures s.vehicleCount.Some? && s.vehicleCount.value <= 5
    ensures r.vehicles[0].Some? ==> s.vehicleCount.value >= 1
    ensures s.vehicleCount.value == 5 - multiset(r.vehicles)[None]
    ensures s == r.(vehicleCount := s.vehicleCount)
  {
    PresentBounds(r.vehicles);
    PresentNulls(r.vehicles);
    r.(vehicleCount := Some(Present(r.vehicles)))
  }

  /** The row with its first `k` factor cells cleansed. */
  function CleanseFirst(r: Crash, k: nat): (s: Crash)
    requires k <= 5
    ensures forall j :: 0 <= j < 5 ==> s.factors[j] == if j < k then CleanseFactor(r.factors[j]) else r.factors[j]
  {
    r.(factors := seq(5, j requires 0 <= j < 5 => if j < k then CleanseFactor(r.factors[j]) else r.factors[j]))
  }

  /** The row with factor cell `k` cleansed. */
  function CleanseSlot(r: Crash, k: nat): (s: Crash)
    requires k < 5
    ensures s.factors == r.factors[k := CleanseFactor(r.factors[k])]
  {
    r.(factors := r.factors[k := CleanseFactor(r.factors[k])])
  }

  /** Cleansing cell `k` after the first `k` gives the first `k + 1`. */
  lemma CleanseNext(r: Crash, k: nat)
    requires k < 5
    ensures CleanseSlot(CleanseFirst(r, k), k) == CleanseFirst(r, k + 1)
  {
    assert CleanseSlot(CleanseFirst(r, k), k).factors == CleanseFirst(r, k + 1).factors;
  }

  /** How many factor columns, from the first, the header has: the loop stops with
      a KeyError at the first one missing. */
  function FactorColumnsPresent(columns: seq<string>): (k: nat)
    ensures k <= 5
    ensures forall j :: 0 <= j < k ==> FactorColumns()[j] in columns
    ensures k < 5 ==> FactorColumns()[k] !in columns
  {
    if FactorColumns()[0] !in columns then 0
    else if FactorColumns()[1] !in columns then 1
    else if FactorColumns()[2] !in columns then 2
    else if FactorColumns()[3] !in columns then 3
    else if FactorColumns()[4] !in columns then 4
    else 5
  }

  /** Where a crash lies, as the spatial join with the borough boundaries finds it:
      the borough's name and the index of its shape. */
  datatype BoroughMatch = BoroughMatch(name: string, index: nat)

  /** Lines 216-221 on one row: `BoroName` and `index__borough`, null when the
      point lies in no borough. */
  function Locate(r: Crash, locate: Crash -> Option<BoroughMatch>): (s: Crash)
    ensures s.boroName.Some? <==> locate(r).Some?
    ensures locate(r).Some? ==> s.boroName.value == locate(r).value.name && s.boroughIndex == Some(locate(r).value.index)
    ensures locate(r).None? ==> s.boroughIndex.None?
    ensures s == r.(boroName := s.boroName, boroughIndex := s.boroughIndex)
  {
    match locate(r)
    case None => r.(boroName := None, boroughIndex := None)
    case Some(m) => r.(boroName := Some(m.name), boroughIndex := Some(m.index))
  }

  /** Line 225: the location is not the text `(0.0, 0.0)`; a null location passes. */
  predicate NotNullIsland(r: Crash)
  {
    r.location != Some("(0.0, 0.0)")
  }

  /** Line 227: location, longitude, latitude, borough and zip code are not all null. */
  predicate HasPlace(r: Crash)
  {
    r.location.Some? || r.longitude.Some? || r.latitude.Some? || r.borough.Some? || r.zipCode.Some?
  }

  /** Line 230: the first vehicle type and the persons injured and killed are present. */
  predicate Complete(r: Crash)
  {
    r.vehicles[0].Some? && CountOf(r, PersonsInjured).Some? && CountOf(r, PersonsKilled).Some?
  }

  /** A row all three filters of lines 225-230 keep. */
  predicate Passes(r: Crash)
  {
    NotNullIsland(r) && HasPlace(r) && Complete(r)
  }

  /** Lines 233-234: the header columns whose lower-cased name contains `word`. */
  function ColumnsWith(columns: seq<string>, word: string): (r: seq<string>)
    ensures forall c :: c in r <==> c in columns && Contains(Lower(c), word)
  {
    Filter(columns, c => Contains(Lower(c), word))
  }

  /** A text contains each of its suffixes. */
  lemma {:induction false} ContainsSuffix(hay: string, prefix: string, word: string)
    requires hay == prefix + word
    ensures Contains(hay, word)
    decreases |prefix|
  {
    if prefix == [] {
      assert hay[..|word|] == word;
    } else {
      assert hay[1..] == prefix[1..] + word;
      ContainsSuffix(hay[1..], prefix[1..], word);
    }
  }

  /** `number_of_persons_injured` is among the columns summed into `total_injured`. */
  lemma PersonsInjuredSummed(columns: seq<string>)
    requires PersonsInjured in columns
    ensures PersonsInjured in ColumnsWith(columns, "injured")
  {
    LowerOfLower(PersonsInjured);
    ContainsSuffix(PersonsInjured, "number_of_persons_", "injured");
  }

  /** `number_of_persons_killed` is among the columns summed into `total_killed`. */
  lemma PersonsKilledSummed(columns: seq<string>)
    requires PersonsKilled in columns
    ensures PersonsKilled in ColumnsWith(columns, "killed")
  {
    LowerOfLower(PersonsKilled);
    ContainsSuffix(PersonsKilled, "number_of_persons_", "killed");
  }

  /** `df[cols].sum(axis=1)` on one row: the sum of the present counts, 0 when
      none is present. */
  function Total(r: Crash, cols: seq<string>): int
  {
    if cols == [] then 0
    else (if CountOf(r, cols[0]).Some? then CountOf(r, cols[0]).value else 0) + Total(r, cols[1..])
  }

  /** With no negative count, the total is not negative. */
  lemma {:induction false} TotalNonNegative(r: Crash, cols: seq<string>)
    requires forall d :: d in cols && CountOf(r, d).Some? ==> CountOf(r, d).value >= 0
    ensures Total(r, cols) >= 0
  {
    if cols != [] {
      TotalNonNegative(r, cols[1..]);
    }
  }

  /** With no negative count, the total is at least each count it adds up. */
  lemma {:induction false} TotalCoversEach(r: Crash, cols: seq<string>, c: string)
    requires forall d :: d in cols && CountOf(r, d).Some? ==> CountOf(r, d).value >= 0
    requires c in cols && CountOf(r, c).Some?
    ensures Total(r, cols) >= CountOf(r, c).value
  {
    if cols[0] != c {
      TotalCoversEach(r, cols[1..], c);
    } else {
      TotalNonNegative(r, cols[1..]);
    }
  }

  /** Lines 239-240. */
  function SeverityOf(killed: int, injured: int): (s: Severity)
    ensures s == Fatal <==> killed > 0
    ensures s == Injury <==> killed <= 0 && injured > 0
    ensures s == NoCasualty <==> killed <= 0 && injured <= 0
  {
    if killed > 0 then Fatal else if injured > 0 then Injury else NoCasualty
  }

  /** A crash in which somebody is killed is fatal, whatever else the counts say. */
  lemma KilledIsFatal(r: Crash, columns: seq<string>)
    requires PersonsKilled in columns
    requires forall d :: CountOf(r, d).Some? ==> CountOf(r, d).value >= 0
    requires CountOf(r, PersonsKilled).Some? && CountOf(r, PersonsKilled).value > 0
    ensures SeverityOf(Total(r, ColumnsWith(columns, "killed")), Total(r, ColumnsWith(columns, "injured"))) == Fatal
  {
    PersonsKilledSummed(columns);
    TotalCoversEach(r, ColumnsWith(columns, "killed"), PersonsKilled);
  }

  /** Lines 243-255: the first condition that holds picks the type; the three
      conditions cover every row, so the default `unknown` is never chosen. */
  function LocationTypeOf(onStreet: Option<string>, crossStreet: Option<string>): (t: LocationType)
    ensures t != Unknown
    ensures t == Intersection <==> onStreet.Some? && crossStreet.Some?
    ensures t == MidBlock <==> onStreet.Some? && crossStreet.None?
    ensures t == OffStreet <==> onStreet.None?
  {
    if onStreet.Some? && crossStreet.Some? then Intersection
    else if onStreet.Some? && crossStreet.None? then MidBlock
    else if onStreet.None? then OffStreet
    else Unknown
  }

  /** Lines 237-240 on one row. */
  function Score(r: Crash, injuredColumns: seq<string>, killedColumns: seq<string>): (s: Crash)
    ensures s.totalInjured == Some(Total(r, injuredColumns)) && s.totalKilled == Some(Total(r, killedColumns))
    ensures s.severity == Some(SeverityOf(s.totalKilled.value, s.totalInjured.value))
    ensures s == r.(totalInjured := s.totalInjured, totalKilled := s.totalKilled, severity := s.severity)
  {
    var injured := Total(r, injuredColumns);
    var killed := Total(r, killedColumns);
    r.(totalInjured := Some(injured), totalKilled := Some(killed), severity := Some(SeverityOf(killed, injured)))
  }

  /** Lines 243-255 on one row. */
  function Place(r: Crash): (s: Crash)
    ensures s.locationType.Some? && s.locationType.value != Unknown
    ensures s.locationType == Some(LocationTypeOf(r.onStreet, r.crossStreet))
    ensures s == r.(locationType := s.locationType)
  {
    r.(locationType := Some(LocationTypeOf(r.onStreet, r.crossStreet)))
  }

  /** Line 194 on every row. */
  function CountAll(rows: seq<Crash>): (r: seq<Crash>)
    ensures |r| == |rows| && forall i :: 0 <= i < |rows| ==> r[i] == CountVehicles(rows[i])
  {
    seq(|rows|, i requires 0 <= i < |rows| => CountVehicles(rows[i]))
  }

  /** The first `k` factor columns cleansed on every row. */
  function CleanseAll(rows: seq<Crash>, k: nat): (r: seq<Crash>)
    requires k <= 5
    ensures |r| == |rows| && forall i :: 0 <= i < |rows| ==> r[i] == CleanseFirst(rows[i], k)
  {
    seq(|rows|, i requires 0 <= i < |rows| => CleanseFirst(rows[i], k))
  }

  /** Factor column `k` cleansed on every row. */
  function CleanseColumn(rows: seq<Crash>, k: nat): (r: seq<Crash>)
    requires k < 5
    ensures |r| == |rows| && forall i :: 0 <= i < |rows| ==> r[i] == CleanseSlot(rows[i], k)
  {
    seq(|rows|, i requires 0 <= i < |rows| => CleanseSlot(rows[i], k))
  }

  /** Cleansing none of the factor columns changes no row. */
  lemma CleanseNone(rows: seq<Crash>)
    ensures CleanseAll(rows, 0) == rows
  {
    forall i | 0 <= i < |rows| ensures CleanseAll(rows, 0)[i] == rows[i] {
      assert CleanseFirst(rows[i], 0).factors == rows[i].factors;
    }
  }

  /** One more factor column cleansed. */
  lemma CleanseColumnNext(rows: seq<Crash>, k: nat)
    requires k < 5
    ensures CleanseColumn(CleanseAll(rows, k), k) == CleanseAll(rows, k + 1)
  {
    forall i | 0 <= i < |rows| ensures CleanseColumn(CleanseAll(rows, k), k)[i] == CleanseAll(rows, k + 1)[i] {
      CleanseNext(rows[i], k);
    }
  }

  /** The spatial join on every row. */
  function LocateAll(rows: seq<Crash>, locate: Crash -> Option<BoroughMatch>): (r: seq<Crash>)
    ensures |r| == |rows| && forall i :: 0 <= i < |rows| ==> r[i] == Locate(rows[i], locate)
  {
    seq(|rows|, i requires 0 <= i < |rows| => Locate(rows[i], locate))
  }

  /** Lines 237-240 on every row. */
  function ScoreAll(rows: seq<Crash>, injuredColumns: seq<string>, killedColumns: seq<string>): (r: seq<Crash>)
    ensures |r| == |rows| && forall i :: 0 <= i < |rows| ==> r[i] == Score(rows[i], injuredColumns, killedColumns)
  {
    seq(|rows|, i requires 0 <= i < |rows| => Score(rows[i], injuredColumns, killedColumns))
  }

  /** Lines 243-255 on every row. */
  function PlaceAll(rows: seq<Crash>): (r: seq<Crash>)
    ensures |r| == |rows| && forall i :: 0 <= i < |rows| ==> r[i] == Place(rows[i])
  {
    seq(|rows|, i requires 0 <= i < |rows| => Place(rows[i]))
  }

  predicate HasColumns(columns: seq<string>, names: seq<string>)
  {
    forall n :: n in names ==> n in columns
  }

  /** The columns line 227 reads. */
  predicate HasPlaceColumns(columns: seq<string>)
  {
    "location" in columns && "longitude" in columns && "latitude" in columns && "borough" in columns && "zip_code" in columns
  }

  /** The columns line 230 reads. */
  predicate HasCompleteColumns(columns: seq<string>)
  {
    "vehicle_type_code_1" in columns && PersonsInjured in columns && PersonsKilled in columns
  }

  /** The header once the vehicle count and the spatial join's `geometry`,
      `index__borough` and `BoroName` are added. */
  function JoinedColumns(columns: seq<string>): (r: seq<string>)
    ensures forall c :: c in r <==> c in columns || c in ["Number_of_involved_Vehicles", "geometry", "index__borough", "BoroName"]
  {
    AddColumn(AddColumn(AddColumn(AddColumn(columns, "Number_of_involved_Vehicles"), "geometry"), "index__borough"), "BoroName")
  }

  /** The header once `total_injured`, `total_killed` and `severity` are added. */
  function ScoredColumns(columns: seq<string>): (r: seq<string>)
    ensures forall c :: c in r <==> c in columns || c in ["total_injured", "total_killed", "severity"]
  {
    AddColumn(AddColumn(AddColumn(columns, "total_injured"), "total_killed"), "severity")
  }

  /** What `clean_transform` returns. */
  datatype Cleaning = Cleaning(columns: seq<string>, rows: seq<Crash>)

  /** Lines 237-255 on the filtered frame: the totals and severity, then the
      location type, stopping when a street column is missing. */
  function Rate(joined: seq<string>, kept: seq<Crash>): (c: Cleaning)
  {
    var scored := ScoreAll(kept, ColumnsWith(joined, "injured"), ColumnsWith(joined, "killed"));
    var header := ScoredColumns(joined);
    if "on_street_name" !in header || "cross_street_name" !in header then Cleaning(header, scored)
    else Cleaning(AddColumn(header, "location_type"), PlaceAll(scored))
  }

  /** Lines 225-255, from the joined frame on: the three filters, then the totals,
      severity and location type, stopping at the first missing column.
      On a frame with no rows, the mask of line 225 is an empty series that
      keeps the column's own type rather than a boolean one, so pandas reads it
      as a list of column labels: the frame loses every column, and line 227
      then raises KeyError, leaving a frame with neither columns nor rows. */
  function Sieve(joined: seq<string>, located: seq<Crash>): (c: Cleaning)
  {
    if "location" !in joined then Cleaning(joined, located)
    else if located == [] then Cleaning([], [])
    else
      var a := Filter(located, NotNullIsland);
      if !HasPlaceColumns(joined) then Cleaning(joined, a)
      else
        var b := Filter(a, HasPlace);
        if !HasCompleteColumns(joined) then Cleaning(joined, b)
        else Rate(joined, Filter(b, Complete))
  }

  /** `clean_transform(df)`, exception paths included: a missing column is the
      KeyError (or, for longitude and latitude, the spatial join's unbound
      result) that ends the `try`, and the copy as changed so far is returned. */
  function Clean(columns: seq<string>, rows: seq<Crash>, locate: Crash -> Option<BoroughMatch>): (c: Cleaning)
  {
    if !HasColumns(columns, VehicleColumns()) then Cleaning(columns, rows)
    else
      var header := AddColumn(columns, "Number_of_involved_Vehicles");
      var k := FactorColumnsPresent(header);
      var cleansed := CleanseAll(CountAll(rows), k);
      if k < 5 || "longitude" !in header || "latitude" !in header then Cleaning(header, cleansed)
      else Sieve(JoinedColumns(columns), LocateAll(cleansed, locate))
  }

  /** Every column `clean_transform` reads. */
  predicate CleanColumns(columns: seq<string>)
  {
    && HasColumns(columns, VehicleColumns())
    && HasColumns(columns, FactorColumns())
    && HasPlaceColumns(columns) && PersonsInjured in columns && PersonsKilled in columns
    && "on_street_name" in columns && "cross_street_name" in columns
  }

  /** One row before the filters: counted, cleansed and located. */
  function Transform(r: Crash, locate: Crash -> Option<BoroughMatch>): Crash
  {
    Locate(CleanseFirst(CountVehicles(r), 5), locate)
  }

  /** What a row carries once counted and cleansed: a vehicle count of at most
      five, at least one when the first vehicle type is present, and cleansed
      factor cells. */
  predicate Prepped(r: Crash)
  {
    && r.vehicleCount.Some? && r.vehicleCount.value <= 5
    && (r.vehicles[0].Some? ==> r.vehicleCount.value >= 1)
    && (forall j :: 0 <= j < 5 ==> IsCleansed(r.factors[j]))
  }

  lemma TransformPrepped(r: Crash, locate: Crash -> Option<BoroughMatch>)
    ensures Prepped(Transform(r, locate))
  {
  }

  /** The three filters of lines 225-230, one after the other. */
  function Sift(rows: seq<Crash>): (kept: seq<Crash>)
    ensures |kept| <= |rows|
    ensures forall x :: x in kept <==> x in rows && Passes(x)
  {
    var a := Filter(rows, NotNullIsland);
    var b := Filter(a, HasPlace);
    FilterMembers(rows, NotNullIsland);
    FilterMembers(a, HasPlace);
    FilterMembers(b, Complete);
    Filter(b, Complete)
  }

  /** The three masks of lines 225-230 are one mask: the rows that pass all three. */
  lemma SiftIsFilter(rows: seq<Crash>)
    ensures Sift(rows) == Filter(rows, Passes)
  {
    var onLand := (r: Crash) => NotNullIsland(r) && HasPlace(r);
    FilterFilter(rows, NotNullIsland, HasPlace, onLand);
    FilterFilter(rows, onLand, Complete, Passes);
  }

  /** The filters never reorder rows: sifting two stretches one after the other
      is sifting them together. */
  lemma SiftConcat(a: seq<Crash>, b: seq<Crash>)
    ensures Sift(a + b) == Sift(a) + Sift(b)
  {
    SiftIsFilter(a + b);
    SiftIsFilter(a);
    SiftIsFilter(b);
    FilterConcat(a, b, Passes);
  }

  /** One row is kept, as it is, exactly when it passes the three filters. */
  lemma SiftSingle(x: Crash)
    ensures Sift([x]) == if Passes(x) then [x] else []
  {
    SiftIsFilter([x]);
    assert [x][1..] == [];
  }

  /** The filters keep every copy of a passing row and no copy of another one. */
  lemma SiftCopies(rows: seq<Crash>, x: Crash)
    ensures multiset(Sift(rows))[x] == if Passes(x) then multiset(rows)[x] else 0
  {
    SiftIsFilter(rows);
    FilterCopies(rows, Passes, x);
  }

  /** One row after the filters: scored and placed. */
  function Finish(r: Crash, columns: seq<string>): Crash
  {
    var joined := JoinedColumns(columns);
    Place(Score(r, ColumnsWith(joined, "injured"), ColumnsWith(joined, "killed")))
  }

  /** What a row that came through `clean_transform` carries: the filters hold,
      the vehicle count is 1..5, every factor cell is cleansed, the severity
      follows the totals, and the location type is known. */
  predicate Cleaned(r: Crash)
  {
    && Passes(r)
    && r.vehicleCount.Some? && 1 <= r.vehicleCount.value <= 5
    && (forall j :: 0 <= j < 5 ==> IsCleansed(r.factors[j]))
    && r.totalInjured.Some? && r.totalKilled.Some?
    && r.severity == Some(SeverityOf(r.totalKilled.value, r.totalInjured.value))
    && r.locationType.Some? && r.locationType.value != Unknown
  }

  /** A prepared row that passes the filters comes out cleaned, whichever columns
      the totals add up. */
  lemma FinishCleaned(r: Crash, injuredColumns: seq<string>, killedColumns: seq<string>)
    requires Prepped(r) && Passes(r)
    ensures Cleaned(Place(Score(r, injuredColumns, killedColumns)))
  {
  }

  /** The rows `clean_transform` ends with when nothing stops it. */
  function Survivors(columns: seq<string>, rows: seq<Crash>, locate: Crash -> Option<BoroughMatch>): (out: seq<Crash>)
    ensures var kept := Sift(LocateAll(CleanseAll(CountAll(rows), 5), locate));
            |out| == |kept| <= |rows| && forall i :: 0 <= i < |out| ==> out[i] == Finish(kept[i], columns)
  {
    var joined := JoinedColumns(columns);
    PlaceAll(ScoreAll(Sift(LocateAll(CleanseAll(CountAll(rows), 5), locate)),
                      ColumnsWith(joined, "injured"), ColumnsWith(joined, "killed")))
  }

  /** When every column it reads is there, `clean_transform` runs to the end on
      a frame with rows, and stops with no columns at all on a frame without. */
  lemma CleanCompletes(columns: seq<string>, rows: seq<Crash>, locate: Crash -> Option<BoroughMatch>)
    requires CleanColumns(columns)
    ensures rows != [] ==> Clean(columns, rows, locate) == Cleaning(AddColumn(ScoredColumns(JoinedColumns(columns)), "location_type"), Survivors(columns, rows, locate))
    ensures rows == [] ==> Clean(columns, rows, locate) == Cleaning([], [])
  {
    if rows == [] {
      CleanEmpty(columns, locate);
    } else {
      var located := LocateAll(CleanseAll(CountAll(rows), 5), locate);
      CleanSieves(columns, rows, locate);
      SieveCompletes(columns, located);
    }
  }

  /** With every column present, row `i` that `clean_transform` returns is
      survivor `i`. */
  lemma CleanRow(columns: seq<string>, rows: seq<Crash>, locate: Crash -> Option<BoroughMatch>, i: nat)
    requires CleanColumns(columns) && i < |Clean(columns, rows, locate).rows|
    ensures i < |Survivors(columns, rows, locate)| && Clean(columns, rows, locate).rows[i] == Survivors(columns, rows, locate)[i]
  {
    if rows == [] {
      CleanEmpty(columns, locate);
      assert false;
    }
    CleanCompletes(columns, rows, locate);
  }

  /** A frame with no rows leaves `clean_transform` with no columns either. */
  lemma CleanEmpty(columns: seq<string>, locate: Crash -> Option<BoroughMatch>)
    requires CleanColumns(columns)
    ensures Clean(columns, [], locate) == Cleaning([], [])
  {
    var located := LocateAll(CleanseAll(CountAll([]), 5), locate);
    CleanSieves(columns, [], locate);
    assert located == [];
    SieveCompletes(columns, located);
  }

  /** With every column present, the factor loop gets through all five columns
      and the spatial join runs, so what remains is the sieve. */
  lemma CleanSieves(columns: seq<string>, rows: seq<Crash>, locate: Crash -> Option<BoroughMatch>)
    requires CleanColumns(columns)
    ensures Clean(columns, rows, locate) == Sieve(JoinedColumns(columns), LocateAll(CleanseAll(CountAll(rows), 5), locate))
  {
    var header := AddColumn(columns, "Number_of_involved_Vehicles");
    assert forall j :: 0 <= j < 5 ==> FactorColumns()[j] in header by {
      assert forall j :: 0 <= j < 5 ==> FactorColumns()[j] in FactorColumns();
    }
    assert FactorColumnsPresent(header) == 5;
  }

  /** With every column present, the sieve filters, scores and places the rows
      of a frame that has some, and empties a frame that has none. */
  lemma SieveCompletes(columns: seq<string>, located: seq<Crash>)
    requires CleanColumns(columns)
    ensures var joined := JoinedColumns(columns);
            located != [] ==>
              Sieve(joined, located)
              == Cleaning(AddColumn(ScoredColumns(joined), "location_type"),
                          PlaceAll(ScoreAll(Sift(located), ColumnsWith(joined, "injured"), ColumnsWith(joined, "killed"))))
    ensures located == [] ==> Sieve(JoinedColumns(columns), located) == Cleaning([], [])
  {
    var joined := JoinedColumns(columns);
    assert HasPlaceColumns(joined);
    assert HasCompleteColumns(joined) by {
      assert VehicleColumns()[0] in VehicleColumns();
    }
    assert "on_street_name" in ScoredColumns(joined) && "cross_street_name" in ScoredColumns(joined);
  }

  /** The filters keep prepared rows prepared. */
  lemma SiftPrepped(xs: seq<Crash>)
    requires forall k :: 0 <= k < |xs| ==> Prepped(xs[k])
    ensures forall i :: 0 <= i < |Sift(xs)| ==> Prepped(Sift(xs)[i]) && Passes(Sift(xs)[i])
  {
    forall i | 0 <= i < |Sift(xs)| ensures Prepped(Sift(xs)[i]) && Passes(Sift(xs)[i]) {
      assert Sift(xs)[i] in Sift(xs);
    }
  }

  /** Every row that comes through is cleaned. */
  lemma SurvivorsCleaned(columns: seq<string>, rows: seq<Crash>, locate: Crash -> Option<BoroughMatch>)
    ensures forall i :: 0 <= i < |Survivors(columns, rows, locate)| ==> Cleaned(Survivors(columns, rows, locate)[i])
  {
    var located := LocateAll(CleanseAll(CountAll(rows), 5), locate);
    forall k | 0 <= k < |located| ensures Prepped(located[k]) {
      LocatedRow(rows, locate, k);
      TransformPrepped(rows[k], locate);
    }
    SiftPrepped(located);
    var joined := JoinedColumns(columns);
    forall i | 0 <= i < |Survivors(columns, rows, locate)| ensures Cleaned(Survivors(columns, rows, locate)[i]) {
      FinishCleaned(Sift(located)[i], ColumnsWith(joined, "injured"), ColumnsWith(joined, "killed"));
    }
  }

  /** Row `k` before the filters is row `k` of the input, transformed. */
  lemma LocatedRow(rows: seq<Crash>, locate: Crash -> Option<BoroughMatch>, k: nat)
    requires k < |rows|
    ensures LocateAll(CleanseAll(CountAll(rows), 5), locate)[k] == Transform(rows[k], locate)
  {
  }

  /** Each row the filters keep is a row of their input that passes them. */
  lemma SiftFrom(xs: seq<Crash>, i: nat)
    requires i < |Sift(xs)|
    ensures exists k :: 0 <= k < |xs| && xs[k] == Sift(xs)[i] && Passes(xs[k])
  {
    assert Sift(xs)[i] in Sift(xs);
  }

  /** Every row that comes through is the finished form of an input row that
      passed the filters. */
  lemma SurvivorsFrom(columns: seq<string>, rows: seq<Crash>, locate: Crash -> Option<BoroughMatch>, i: nat)
    requires i < |Survivors(columns, rows, locate)|
    ensures exists k :: 0 <= k < |rows| && Passes(Transform(rows[k], locate))
                        && Survivors(columns, rows, locate)[i] == Finish(Transform(rows[k], locate), columns)
  {
    var located := LocateAll(CleanseAll(CountAll(rows), 5), locate);
    SiftFrom(located, i);
    var k :| 0 <= k < |located| && located[k] == Sift(located)[i] && Passes(located[k]);
    LocatedRow(rows, locate, k);
  }

  /** Every input row that passes the filters comes through, finished. */
  lemma SurvivorsComplete(columns: seq<string>, rows: seq<Crash>, locate: Crash -> Option<BoroughMatch>, k: nat)
    requires k < |rows| && Passes(Transform(rows[k], locate))
    ensures Finish(Transform(rows[k], locate), columns) in Survivors(columns, rows, locate)
  {
    var located := LocateAll(CleanseAll(CountAll(rows), 5), locate);
    var kept := Sift(located);
    LocatedRow(rows, locate, k);
    assert located[k] in kept;
    var i :| 0 <= i < |kept| && kept[i] == located[k];
  }

  /** Scoring works row by row, so it distributes over concatenation. */
  lemma ScoreAllConcat(a: seq<Crash>, b: seq<Crash>, injuredColumns: seq<string>, killedColumns: seq<string>)
    ensures ScoreAll(a + b, injuredColumns, killedColumns) == ScoreAll(a, injuredColumns, killedColumns) + ScoreAll(b, injuredColumns, killedColumns)
  {
  }

  /** Placing works row by row, so it distributes over concatenation. */
  lemma PlaceAllConcat(a: seq<Crash>, b: seq<Crash>)
    ensures PlaceAll(a + b) == PlaceAll(a) + PlaceAll(b)
  {
  }

  /** Counting, cleansing and locating work row by row, so they distribute over
      concatenation. */
  lemma TransformedConcat(a: seq<Crash>, b: seq<Crash>, locate: Crash -> Option<BoroughMatch>)
    ensures LocateAll(CleanseAll(CountAll(a + b), 5), locate)
         == LocateAll(CleanseAll(CountAll(a), 5), locate) + LocateAll(CleanseAll(CountAll(b), 5), locate)
  {
    var whole := LocateAll(CleanseAll(CountAll(a + b), 5), locate);
    var parts := LocateAll(CleanseAll(CountAll(a), 5), locate) + LocateAll(CleanseAll(CountAll(b), 5), locate);
    forall k | 0 <= k < |a + b| ensures whole[k] == parts[k] {
      LocatedRow(a + b, locate, k);
      if k < |a| {
        LocatedRow(a, locate, k);
      } else {
        LocatedRow(b, locate, k - |a|);
      }
    }
  }

  /** `clean_transform` never reorders rows: the survivors of two stretches one
      after the other are the survivors of each, in that order. */
  lemma SurvivorsConcat(columns: seq<string>, a: seq<Crash>, b: seq<Crash>, locate: Crash -> Option<BoroughMatch>)
    ensures Survivors(columns, a + b, locate) == Survivors(columns, a, locate) + Survivors(columns, b, locate)
  {
    var ta := LocateAll(CleanseAll(CountAll(a), 5), locate);
    var tb := LocateAll(CleanseAll(CountAll(b), 5), locate);
    var joined := JoinedColumns(columns);
    var injured, killed := ColumnsWith(joined, "injured"), ColumnsWith(joined, "killed");
    TransformedConcat(a, b, locate);
    SiftConcat(ta, tb);
    ScoreAllConcat(Sift(ta), Sift(tb), injured, killed);
    PlaceAllConcat(ScoreAll(Sift(ta), injured, killed), ScoreAll(Sift(tb), injured, killed));
  }

  /** One input row comes through, finished, exactly when its transformed form
      passes the filters. */
  lemma SurvivorsSingle(columns: seq<string>, x: Crash, locate: Crash -> Option<BoroughMatch>)
    ensures Survivors(columns, [x], locate) == if Passes(Transform(x, locate)) then [Finish(Transform(x, locate), columns)] else []
  {
    LocatedSingle(x, locate);
    SurvivorsOfOne(columns, [x], locate, Transform(x, locate));
  }

  /** Rows that reach the filters as the single row `t` come through as `t`
      finished, or not at all. */
  lemma SurvivorsOfOne(columns: seq<string>, rows: seq<Crash>, locate: Crash -> Option<BoroughMatch>, t: Crash)
    requires LocateAll(CleanseAll(CountAll(rows), 5), locate) == [t]
    ensures Survivors(columns, rows, locate) == if Passes(t) then [Finish(t, columns)] else []
  {
    SiftSingle(t);
    if Passes(t) {
      FinishSingle(t, columns);
    }
  }

  /** One row before the filters is that row, transformed. */
  lemma LocatedSingle(x: Crash, locate: Crash -> Option<BoroughMatch>)
    ensures LocateAll(CleanseAll(CountAll([x]), 5), locate) == [Transform(x, locate)]
  {
    LocatedRow([x], locate, 0);
  }

  /** Scoring and placing one row is finishing it. */
  lemma FinishSingle(t: Crash, columns: seq<string>)
    ensures var joined := JoinedColumns(columns);
            PlaceAll(ScoreAll([t], ColumnsWith(joined, "injured"), ColumnsWith(joined, "killed"))) == [Finish(t, columns)]
  {
    var joined := JoinedColumns(columns);
    ScorePlaceSingle(t, ColumnsWith(joined, "injured"), ColumnsWith(joined, "killed"));
  }

  lemma ScorePlaceSingle(t: Crash, injuredColumns: seq<string>, killedColumns: seq<string>)
    ensures PlaceAll(ScoreAll([t], injuredColumns, killedColumns)) == [Place(Score(t, injuredColumns, killedColumns))]
  {
    var scored := ScoreAll([t], injuredColumns, killedColumns);
    assert scored[0] == Score(t, injuredColumns, killedColumns);
    assert PlaceAll(scored)[0] == Place(scored[0]);
  }

  /** `clean_transform(df)`: works on a copy, so the caller's frame is untouched. */
  method CleanTransform(columns: seq<string>, rows: seq<Crash>, locate: Crash -> Option<BoroughMatch>)
    returns (outColumns: seq<string>, outRows: seq<Crash>)
    ensures Cleaning(outColumns, outRows) == Clean(columns, rows, locate)
  {
    outColumns, outRows := columns, rows;
    if !HasColumns(outColumns, VehicleColumns()) {
      return;
    }
    outRows := CountAll(outRows);
    outColumns := AddColumn(outColumns, "Number_of_involved_Vehicles");
    ghost var counted := outRows;
    CleanseNone(counted);
    var k := 0;
    while k < 5
      invariant 0 <= k <= 5
      invariant k <= FactorColumnsPresent(outColumns)
      invariant outRows == CleanseAll(counted, k)
    {
      if FactorColumns()[k] !in outColumns {
        return;
      }
      CleanseColumnNext(counted, k);
      outRows := CleanseColumn(outRows, k);
      k := k + 1;
    }
    if "longitude" !in outColumns || "latitude" !in outColumns {
      return;
    }
    var sieved := Sieve(JoinedColumns(columns), LocateAll(outRows, locate));
    outColumns, outRows := sieved.columns, sieved.rows;
  }
}
