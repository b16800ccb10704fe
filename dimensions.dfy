/**
  The dimension builder shared by `create_dimension_contributing_factors`,
  `create_dimension_vehicle_types`, `create_dimension_borough` and
  `create_dimension_holidays`: the distinct stripped non-null values of some
  columns, sorted, numbered from 1, and the description-to-id map used to turn a
  text column into a foreign key.
 */
module Dimensions {
  import opened Wrappers
  import opened Text
  import opened Seqs
  import opened Ordering

  /** One row of a dimension table: surrogate id and description. */
  datatype DimRow = DimRow(id: nat, description: string)

  /** The dimension table and the `dict(zip(descriptions, ids))` built from it. */
  datatype Dimension = Dimension(rows: seq<DimRow>, ids: map<string, nat>)

  /** The values that end up as descriptions: every non-null cell, stripped. */
  ghost function Described(cells: seq<Option<string>>): set<string>
  {
    set k | 0 <= k < |cells| && cells[k].Some? :: Strip(cells[k].value)
  }

  /** The descriptions of a dimension's rows, in row order. */
  function Labels(rows: seq<DimRow>): (labels: seq<string>)
    ensures |labels| == |rows|
    ensures forall i :: 0 <= i < |rows| ==> labels[i] == rows[i].description
  {
    seq(|rows|, i requires 0 <= i < |rows| => rows[i].description)
  }

  /** The dimension numbers the descriptions `d` from 1 in their order, and its
      map has exactly those descriptions as keys, each sending to its row's id. */
  ghost predicate Numbers(dim: Dimension, d: seq<string>)
  {
    && |dim.rows| == |d|
    && (forall i :: 0 <= i < |d| ==> dim.rows[i] == DimRow(i + 1, d[i]))
    && dim.ids.Keys == Elems(d)
    && (forall i :: 0 <= i < |d| ==> d[i] in dim.ids && dim.ids[d[i]] == i + 1)
  }

  /** `pd.concat(columns).dropna().str.strip()`: the stripped non-null cells, in
      column order. */
  function StrippedValues(cells: seq<Option<string>>): (r: seq<string>)
    ensures |r| <= |cells|
  {
    if cells == [] then []
    else (if cells[0].Some? then [Strip(cells[0].value)] else []) + StrippedValues(cells[1..])
  }

  /** Every non-null cell contributes its stripped text. */
  lemma {:induction false} StrippedValuesComplete(cells: seq<Option<string>>, k: nat)
    requires k < |cells| && cells[k].Some?
    ensures Strip(cells[k].value) in StrippedValues(cells)
  {
    if k > 0 {
      assert cells[1..][k - 1] == cells[k];
      StrippedValuesComplete(cells[1..], k - 1);
    }
  }

  /** Every value comes from some non-null cell. */
  lemma {:induction false} StrippedValuesSound(cells: seq<Option<string>>, v: string)
    requires v in StrippedValues(cells)
    ensures exists k :: 0 <= k < |cells| && cells[k].Some? && Strip(cells[k].value) == v
  {
    var head := if cells[0].Some? then [Strip(cells[0].value)] else [];
    if v !in head {
      StrippedValuesSound(cells[1..], v);
      var k :| 0 <= k < |cells[1..]| && cells[1..][k].Some? && Strip(cells[1..][k].value) == v;
      assert cells[k + 1] == cells[1..][k];
    }
  }

  /** The values of the dimension are exactly the stripped non-null cells. */
  lemma StrippedValuesDescribed(cells: seq<Option<string>>)
    ensures Elems(StrippedValues(cells)) == Described(cells)
  {
    forall v | v in Elems(StrippedValues(cells)) ensures v in Described(cells) {
      StrippedValuesSound(cells, v);
    }
    forall v | v in Described(cells) ensures v in Elems(StrippedValues(cells)) {
      var k :| 0 <= k < |cells| && cells[k].Some? && Strip(cells[k].value) == v;
      StrippedValuesComplete(cells, k);
    }
  }

  /** `sorted(....unique())`: the descriptions in ascending order, each once. */
  function Descriptions(cells: seq<Option<string>>): (d: seq<string>)
    ensures Ascending(d, Below)
    ensures Elems(d) == Elems(StrippedValues(cells))
  {
    BelowIsStrictTotalOrder();
    SortedDistinct(StrippedValues(cells), Below)
  }

  /** `dict(zip(descriptions, range(1, n + 1)))`: a later pair overrides an earlier one. */
  function IdMap(d: seq<string>): (ids: map<string, nat>)
    ensures ids.Keys == Elems(d)
  {
    if d == [] then map[]
    else
      assert Elems(d) == Elems(d[..|d| - 1]) + {d[|d| - 1]} by {
        assert d == d[..|d| - 1] + [d[|d| - 1]];
      }
      IdMap(d[..|d| - 1])[d[|d| - 1] := |d|]
  }

  /** Over distinct descriptions, the map sends the description at position i to
      i + 1. */
  lemma {:induction false} IdMapPositions(d: seq<string>)
    requires forall a, b :: 0 <= a < b < |d| ==> d[a] != d[b]
    ensures forall i :: 0 <= i < |d| ==> d[i] in IdMap(d) && IdMap(d)[d[i]] == i + 1
  {
    if d != [] {
      var p := d[..|d| - 1];
      IdMapPositions(p);
      forall i | 0 <= i < |d| ensures d[i] in IdMap(d) && IdMap(d)[d[i]] == i + 1 {
        if i < |d| - 1 {
          assert d[i] == p[i] && d[i] != d[|d| - 1];
        }
      }
    }
  }

  /** An ascending sequence of strings repeats no value. */
  lemma AscendingDistinct(d: seq<string>)
    requires Ascending(d, Below)
    ensures forall a, b :: 0 <= a < b < |d| ==> d[a] != d[b]
  {
    forall a, b | 0 <= a < b < |d| ensures d[a] != d[b] {
      BelowIrreflexive(d[a]);
    }
  }

  /** Ids 1..n over ascending descriptions, and the map from description to id. */
  function Number(d: seq<string>): (dim: Dimension)
    requires Ascending(d, Below)
    ensures Numbers(dim, d)
  {
    AscendingDistinct(d);
    IdMapPositions(d);
    Dimension(seq(|d|, i requires 0 <= i < |d| => DimRow(i + 1, d[i])), IdMap(d))
  }

  /** `create_dimension_*`: ids 1..n over the sorted distinct stripped values. */
  function CreateDimension(cells: seq<Option<string>>): (dim: Dimension)
    ensures Numbers(dim, Descriptions(cells))
  {
    Number(Descriptions(cells))
  }

  /** The rows of a dimension describe exactly the stripped non-null cells, each
      once, in ascending order. */
  lemma CreateDimensionDescribes(cells: seq<Option<string>>)
    ensures var labels := Labels(CreateDimension(cells).rows);
            && Elems(labels) == Described(cells)
            && Ascending(labels, Below)
            && (forall a, b :: 0 <= a < b < |labels| ==> labels[a] != labels[b])
  {
    var d := Descriptions(cells);
    assert Labels(CreateDimension(cells).rows) == d;
    StrippedValuesDescribed(cells);
    AscendingDistinct(d);
  }

  /** The map and the table agree both ways: every description's id names the row
      that describes it, so the map is a bijection between the descriptions and
      1..n. */
  lemma NumbersLookup(dim: Dimension, d: seq<string>, v: string)
    requires Numbers(dim, d)
    requires v in d
    ensures v in dim.ids && 1 <= dim.ids[v] <= |dim.rows|
    ensures dim.rows[dim.ids[v] - 1] == DimRow(dim.ids[v], v)
  {
    var i :| 0 <= i < |d| && d[i] == v;
  }

  /** `column.str.strip().map(ids)`: null stays null, an unknown value is null. */
  function ForeignKey(cell: Option<string>, ids: map<string, nat>): (fk: Option<nat>)
    ensures cell.None? ==> fk.None?
  {
    match cell
    case None => None
    case Some(v) => if Strip(v) in ids then Some(ids[Strip(v)]) else None
  }

  /** The key `fk` of `cell` is null exactly when the cell is, and otherwise is the
      id of the dimension row whose description is the stripped cell. */
  ghost predicate Describes(dim: Dimension, cell: Option<string>, fk: Option<nat>)
  {
    && (fk.None? <==> cell.None?)
    && (fk.Some? ==> 1 <= fk.value <= |dim.rows|
                     && dim.rows[fk.value - 1] == DimRow(fk.value, Strip(cell.value)))
  }

  /** Against a dimension numbering `d`, a cell whose stripped text is in `d` gets
      the id of the row describing it, and a null cell gets null. */
  lemma ForeignKeyOfNumbered(dim: Dimension, d: seq<string>, cell: Option<string>)
    requires Numbers(dim, d)
    requires cell.Some? ==> Strip(cell.value) in d
    ensures Describes(dim, cell, ForeignKey(cell, dim.ids))
  {
    if cell.Some? {
      NumbersLookup(dim, d, Strip(cell.value));
    }
  }

  /** For a cell of the columns a dimension was built from, the foreign key is null
      exactly when the cell is, and otherwise names the row whose description is
      the stripped cell. */
  lemma ForeignKeyOfDescribed(cells: seq<Option<string>>, cell: Option<string>)
    requires cell in cells
    ensures var dim := CreateDimension(cells);
            Describes(dim, cell, ForeignKey(cell, dim.ids))
  {
    if cell.Some? {
      var k :| 0 <= k < |cells| && cells[k] == cell;
      StrippedValuesComplete(cells, k);
      assert Strip(cell.value) in Elems(StrippedValues(cells));
    }
    ForeignKeyOfNumbered(CreateDimension(cells), Descriptions(cells), cell);
  }

  /** The stripped values of `[b, null, " " + a, b]` are `a` and `b`. */
  lemma StrippedValuesExample(a: string, b: string)
    requires IsStripped(a) && IsStripped(b)
    ensures Elems(StrippedValues([Some(b), None, Some(" " + a), Some(b)])) == {a, b}
  {
    StripLeadingBlank(a);
    StripOfStripped(b);
    var cells := [Some(b), None, Some(" " + a), Some(b)];
    assert StrippedValues(cells[3..]) == [b];
    assert StrippedValues(cells[2..]) == [a, b];
    assert StrippedValues(cells[1..]) == [a, b];
    assert StrippedValues(cells) == [b, a, b];
  }

  /** Stripped, deduplicated and sorted: `[b, null, " " + a, b]` with `a < b` gives
      the rows `a` then `b`. */
  lemma DimensionExample(a: string, b: string)
    requires IsStripped(a) && IsStripped(b) && Below(a, b)
    ensures Labels(CreateDimension([Some(b), None, Some(" " + a), Some(b)]).rows) == [a, b]
  {
    var cells := [Some(b), None, Some(" " + a), Some(b)];
    var labels := Labels(CreateDimension(cells).rows);
    StrippedValuesExample(a, b);
    assert labels == Descriptions(cells);
    BelowIsStrictTotalOrder();
    AscendingPair(labels, a, b, Below);
  }
}
