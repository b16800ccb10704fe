/**
  `create_data_model`: the contributing-factor, vehicle-type and borough
  dimensions built from the cleansed crash table, the `<column>_id` foreign keys
  written into that table in place, and the fact table that keeps the keys but
  not the text columns.
 */
module DataModel {
  import opened Wrappers
  import opened Seqs
  import opened Frames
  import opened Dimensions
  import opened Crashes
  import opened Cleansing

  /** The two five-column groups a dimension is built from. */
  datatype Group = FactorGroup | VehicleGroup

  /** The column names of a group, `contributing_factor_vehicle_1..5` or
      `vehicle_type_code_1..5`. */
  function Names(g: Group): (names: seq<string>)
    ensures |names| == 5
  {
    if g == FactorGroup then FactorColumns() else VehicleColumns()
  }

  /** A row's five cells of a group. */
  function SlotsOf(r: Crash, g: Group): Slots
  {
    if g == FactorGroup then r.factors else r.vehicles
  }

  /** `column + '_id'`: the foreign-key column that replaces a text column. */
  function IdColumn(column: string): (name: string)
    ensures |name| == |column| + 3
  {
    column + "_id"
  }

  /** Different text columns get different key columns. */
  lemma IdColumnInjective(a: string, b: string)
    requires a != b
    ensures IdColumn(a) != IdColumn(b)
  {
    if |a| == |b| {
      var i :| 0 <= i < |a| && a[i] != b[i];
      assert IdColumn(a)[i] == a[i] && IdColumn(b)[i] == b[i];
    }
  }

  /** The five names of a group are different from each other, all of one length,
      and of a length no other text column has. */
  lemma NamesShape(g: Group)
    ensures forall j, k :: 0 <= j < k < 5 ==> Names(g)[j] != Names(g)[k]
    ensures forall k :: 0 <= k < 5 ==> |Names(g)[k]| == if g == FactorGroup then 29 else 19
  {
    var n := Names(g);
    var last := if g == FactorGroup then 28 else 18;
    assert n[0][last] == '1' && n[1][last] == '2' && n[2][last] == '3' && n[3][last] == '4' && n[4][last] == '5';
  }

  /** `df[column]` for the k-th column of a group. */
  function ColumnCells(rows: seq<Crash>, g: Group, k: nat): (cells: seq<Option<string>>)
    requires k < 5
    ensures |cells| == |rows|
    ensures forall i :: 0 <= i < |rows| ==> cells[i] == SlotsOf(rows[i], g)[k]
  {
    seq(|rows|, i requires 0 <= i < |rows| => SlotsOf(rows[i], g)[k])
  }

  /** `pd.concat([df[col] for col in columns[:n]], axis=0)`: the group's first n
      columns one after the other. */
  function Stacked(rows: seq<Crash>, g: Group, n: nat): seq<Option<string>>
    requires n <= 5
  {
    if n == 0 then [] else Stacked(rows, g, n - 1) + ColumnCells(rows, g, n - 1)
  }

  /** Every cell of the first n columns is one of the stacked cells. */
  lemma {:induction false} StackedHolds(rows: seq<Crash>, g: Group, n: nat, k: nat, i: nat)
    requires k < n <= 5 && i < |rows|
    ensures SlotsOf(rows[i], g)[k] in Stacked(rows, g, n)
  {
    if k < n - 1 {
      StackedHolds(rows, g, n - 1, k, i);
    } else {
      assert ColumnCells(rows, g, k)[i] == SlotsOf(rows[i], g)[k];
    }
  }

  /** `df['BoroName']`. */
  function BoroCells(rows: seq<Crash>): (cells: seq<Option<string>>)
    ensures |cells| == |rows|
    ensures forall i :: 0 <= i < |rows| ==> cells[i] == rows[i].boroName
  {
    seq(|rows|, i requires 0 <= i < |rows| => rows[i].boroName)
  }

  /** The row with the key column `name` set to `fk`; nothing else changes. */
  function WithKey(r: Crash, name: string, fk: Option<nat>): (s: Crash)
    ensures s.keys == r.keys[name := fk]
    ensures s.factors == r.factors && s.vehicles == r.vehicles && s.boroName == r.boroName
  {
    r.(keys := r.keys[name := fk])
  }

  /** `df[col + '_id'] = df[col].str.strip().map(ids)` for the k-th column of a
      group. */
  function KeyColumn(rows: seq<Crash>, g: Group, k: nat, ids: map<string, nat>): (r: seq<Crash>)
    requires k < 5
    ensures |r| == |rows|
    ensures forall i :: 0 <= i < |rows| ==>
              r[i] == WithKey(rows[i], IdColumn(Names(g)[k]), ForeignKey(SlotsOf(rows[i], g)[k], ids))
  {
    seq(|rows|, i requires 0 <= i < |rows| =>
      WithKey(rows[i], IdColumn(Names(g)[k]), ForeignKey(SlotsOf(rows[i], g)[k], ids)))
  }

  /** The rows after the loop has keyed the group's first n columns. */
  function KeyColumns(rows: seq<Crash>, g: Group, ids: map<string, nat>, n: nat): (r: seq<Crash>)
    requires n <= 5
    ensures |r| == |rows|
  {
    if n == 0 then rows else KeyColumn(KeyColumns(rows, g, ids, n - 1), g, n - 1, ids)
  }

  /** The header after the loop has added the group's first n key columns. */
  function IdColumns(columns: seq<string>, g: Group, n: nat): seq<string>
    requires n <= 5
  {
    if n == 0 then columns else AddColumn(IdColumns(columns, g, n - 1), IdColumn(Names(g)[n - 1]))
  }

  /** A key map after the first n of `names` are keyed with the foreign keys of
      the matching cells. */
  function KeysAfter(keys: map<string, Option<nat>>, cells: Slots, names: seq<string>, ids: map<string, nat>, n: nat)
    : map<string, Option<nat>>
    requires n <= 5 && |names| == 5
  {
    if n == 0 then keys
    else KeysAfter(keys, cells, names, ids, n - 1)[IdColumn(names[n - 1]) := ForeignKey(cells[n - 1], ids)]
  }

  /** Keying a group changes only the key map of each row. */
  lemma {:induction false} KeyColumnsRow(rows: seq<Crash>, g: Group, ids: map<string, nat>, n: nat, i: nat)
    requires n <= 5 && i < |rows|
    ensures KeyColumns(rows, g, ids, n)[i]
            == rows[i].(keys := KeysAfter(rows[i].keys, SlotsOf(rows[i], g), Names(g), ids, n))
  {
    if n > 0 {
      KeyColumnsRow(rows, g, ids, n - 1, i);
    }
  }

  /** Over distinct names, after the first n are keyed, key column k < n holds the
      foreign key of cell k. */
  lemma {:induction false} KeysAfterHolds(keys: map<string, Option<nat>>, cells: Slots, names: seq<string>,
                                          ids: map<string, nat>, n: nat, k: nat)
    requires k < n <= 5 && |names| == 5
    requires forall a, b :: 0 <= a < b < 5 ==> names[a] != names[b]
    ensures var m := KeysAfter(keys, cells, names, ids, n);
            IdColumn(names[k]) in m && m[IdColumn(names[k])] == ForeignKey(cells[k], ids)
  {
    if k < n - 1 {
      IdColumnInjective(names[k], names[n - 1]);
      KeysAfterHolds(keys, cells, names, ids, n - 1, k);
    }
  }

  /** Keying leaves every key whose name is not one of the key columns as it was. */
  lemma {:induction false} KeysAfterKeeps(keys: map<string, Option<nat>>, cells: Slots, names: seq<string>,
                                          ids: map<string, nat>, n: nat, name: string)
    requires n <= 5 && |names| == 5
    requires forall k :: 0 <= k < 5 ==> name != IdColumn(names[k])
    ensures var m := KeysAfter(keys, cells, names, ids, n);
            (name in m <==> name in keys) && (name in keys ==> m[name] == keys[name])
  {
    if n > 0 {
      var m := KeysAfter(keys, cells, names, ids, n - 1);
      KeysAfterKeeps(keys, cells, names, ids, n - 1, name);
      assert name != IdColumn(names[n - 1]);
      assert KeysAfter(keys, cells, names, ids, n) == m[IdColumn(names[n - 1]) := ForeignKey(cells[n - 1], ids)];
    }
  }

  /** The header after keying keeps every column and gains the key columns. */
  lemma {:induction false} IdColumnsHeader(columns: seq<string>, g: Group, n: nat)
    requires n <= 5
    ensures forall c :: c in columns ==> c in IdColumns(columns, g, n)
    ensures forall k :: 0 <= k < n ==> IdColumn(Names(g)[k]) in IdColumns(columns, g, n)
    ensures forall c :: c in IdColumns(columns, g, n) ==>
              c in columns || exists k :: 0 <= k < n && c == IdColumn(Names(g)[k])
  {
    if n > 0 {
      IdColumnsHeader(columns, g, n - 1);
    }
  }

  /** `df['BoroName_id'] = df['BoroName'].str.strip().map(ids)`. */
  function KeyBoroughs(rows: seq<Crash>, ids: map<string, nat>): (r: seq<Crash>)
    ensures |r| == |rows|
    ensures forall i :: 0 <= i < |rows| ==>
              r[i] == WithKey(rows[i], IdColumn("BoroName"), ForeignKey(rows[i].boroName, ids))
  {
    seq(|rows|, i requires 0 <= i < |rows| =>
      WithKey(rows[i], IdColumn("BoroName"), ForeignKey(rows[i].boroName, ids)))
  }

  /** What `create_data_model` returns: the fact table's header (its rows are the
      keyed rows) and the three dimensions, each with its description-to-id map. */
  datatype Modelling =
    | Modelled(columns: seq<string>, rows: seq<Crash>, factColumns: seq<string>,
               factors: Dimension, vehicleTypes: Dimension, boroughs: Dimension)
    | Failed(columns: seq<string>, rows: seq<Crash>)

  /** `create_data_model` on a table, step by step: `columns`/`rows` is the table
      as left behind, keyed so far. A missing text column is the KeyError that
      stops it (nothing catches it). */
  function Model(columns: seq<string>, rows: seq<Crash>): (m: Modelling)
  {
    if !HasColumns(columns, FactorColumns()) then Failed(columns, rows)
    else
      var factors := CreateDimension(Stacked(rows, FactorGroup, 5));
      var rows1 := KeyColumns(rows, FactorGroup, factors.ids, 5);
      var columns1 := IdColumns(columns, FactorGroup, 5);
      if !HasColumns(columns1, VehicleColumns()) then Failed(columns1, rows1)
      else
        var vehicleTypes := CreateDimension(Stacked(rows1, VehicleGroup, 5));
        var rows2 := KeyColumns(rows1, VehicleGroup, vehicleTypes.ids, 5);
        var columns2 := IdColumns(columns1, VehicleGroup, 5);
        if "BoroName" !in columns2 then Failed(columns2, rows2)
        else
          var boroughs := CreateDimension(BoroCells(rows2));
          var rows3 := KeyBoroughs(rows2, boroughs.ids);
          var columns3 := AddColumn(columns2, IdColumn("BoroName"));
          var fact := DropColumns(DropColumns(DropColumns(columns3, FactorColumns()), VehicleColumns()), ["BoroName"]);
          Modelled(columns3, rows3, fact, factors, vehicleTypes, boroughs)
  }

  /** `create_data_model` fails with a KeyError exactly when one of the text
      columns is missing: the key columns it adds on the way are never the
      names it looks up next. */
  lemma ModelFails(columns: seq<string>, rows: seq<Crash>)
    ensures Model(columns, rows).Failed? <==>
              !HasColumns(columns, FactorColumns()) || !HasColumns(columns, VehicleColumns()) || "BoroName" !in columns
  {
    NamesShape(FactorGroup);
    NamesShape(VehicleGroup);
    IdColumnsHeader(columns, FactorGroup, 5);
    var columns1 := IdColumns(columns, FactorGroup, 5);
    IdColumnsHeader(columns1, VehicleGroup, 5);
    var columns2 := IdColumns(columns1, VehicleGroup, 5);
    assert forall c :: c in VehicleColumns() ==> (c in columns1 <==> c in columns);
    assert "BoroName" in columns2 <==> "BoroName" in columns;
  }

  /** A name of another length is none of the names. */
  lemma LengthApart(x: string, names: seq<string>, n: nat)
    requires forall j :: 0 <= j < |names| ==> |names[j]| == n
    requires |x| != n
    ensures x !in names
  {
  }

  /** Two row sequences that agree on a group's cells stack to the same cells. */
  lemma {:induction false} StackedAgree(a: seq<Crash>, b: seq<Crash>, g: Group, n: nat)
    requires n <= 5 && |a| == |b|
    requires forall i :: 0 <= i < |a| ==> SlotsOf(a[i], g) == SlotsOf(b[i], g)
    ensures Stacked(a, g, n) == Stacked(b, g, n)
  {
    if n > 0 {
      StackedAgree(a, b, g, n - 1);
      assert ColumnCells(a, g, n - 1) == ColumnCells(b, g, n - 1);
    }
  }

  /** The three dimensions are built from the table's original text cells: keying
      one group changes no cell another dimension reads. */
  lemma ModelDimensions(columns: seq<string>, rows: seq<Crash>)
    requires Model(columns, rows).Modelled?
    ensures var m := Model(columns, rows);
            && m.vehicleTypes == CreateDimension(Stacked(rows, VehicleGroup, 5))
            && m.boroughs == CreateDimension(BoroCells(rows))
  {
    var m := Model(columns, rows);
    var rows1 := KeyColumns(rows, FactorGroup, m.factors.ids, 5);
    var rows2 := KeyColumns(rows1, VehicleGroup, m.vehicleTypes.ids, 5);
    forall i | 0 <= i < |rows| ensures rows1[i].vehicles == rows[i].vehicles && rows2[i].boroName == rows[i].boroName {
      KeyColumnsRow(rows, FactorGroup, m.factors.ids, 5, i);
      KeyColumnsRow(rows1, VehicleGroup, m.vehicleTypes.ids, 5, i);
    }
    StackedAgree(rows1, rows, VehicleGroup, 5);
    assert BoroCells(rows2) == BoroCells(rows);
  }

  /** The value of a key column, null when the row has none. */
  function KeyOf(r: Crash, name: string): Option<nat>
  {
    if name in r.keys then r.keys[name] else None
  }

  /** One row as `create_data_model` leaves it: the factor keys, then the vehicle
      keys, then the borough key written into its key map. */
  function KeyRow(r: Crash, factorIds: map<string, nat>, vehicleIds: map<string, nat>, boroughIds: map<string, nat>)
    : (s: Crash)
    ensures s == r.(keys := s.keys)
  {
    var keys1 := KeysAfter(r.keys, r.factors, FactorColumns(), factorIds, 5);
    var keys2 := KeysAfter(keys1, r.vehicles, VehicleColumns(), vehicleIds, 5);
    r.(keys := keys2[IdColumn("BoroName") := ForeignKey(r.boroName, boroughIds)])
  }

  /** The keyed table is the original table with each row keyed. */
  lemma ModelRows(columns: seq<string>, rows: seq<Crash>, i: nat)
    requires Model(columns, rows).Modelled? && i < |rows|
    ensures var m := Model(columns, rows);
            |m.rows| == |rows| && m.rows[i] == KeyRow(rows[i], m.factors.ids, m.vehicleTypes.ids, m.boroughs.ids)
  {
    var m := Model(columns, rows);
    var rows1 := KeyColumns(rows, FactorGroup, m.factors.ids, 5);
    KeyColumnsRow(rows, FactorGroup, m.factors.ids, 5, i);
    KeyColumnsRow(rows1, VehicleGroup, m.vehicleTypes.ids, 5, i);
  }

  /** Three keying stages over key names that never collide: each key column ends
      up with the foreign key of its own cell. */
  lemma StagesHold(keys: map<string, Option<nat>>, cells1: Slots, names1: seq<string>, ids1: map<string, nat>,
                   cells2: Slots, names2: seq<string>, ids2: map<string, nat>, last: string, fk: Option<nat>, k: nat)
    requires |names1| == 5 && |names2| == 5 && k < 5
    requires forall a, b :: 0 <= a < b < 5 ==> names1[a] != names1[b] && names2[a] != names2[b]
    requires forall a, b :: 0 <= a < 5 && 0 <= b < 5 ==> IdColumn(names1[a]) != IdColumn(names2[b])
    requires forall a :: 0 <= a < 5 ==> last != IdColumn(names1[a]) && last != IdColumn(names2[a])
    ensures var m := KeysAfter(KeysAfter(keys, cells1, names1, ids1, 5), cells2, names2, ids2, 5)[last := fk];
            && IdColumn(names1[k]) in m && m[IdColumn(names1[k])] == ForeignKey(cells1[k], ids1)
            && IdColumn(names2[k]) in m && m[IdColumn(names2[k])] == ForeignKey(cells2[k], ids2)
            && last in m && m[last] == fk
  {
    var keys1 := KeysAfter(keys, cells1, names1, ids1, 5);
    KeysAfterHolds(keys, cells1, names1, ids1, 5, k);
    KeysAfterKeeps(keys1, cells2, names2, ids2, 5, IdColumn(names1[k]));
    KeysAfterHolds(keys1, cells2, names2, ids2, 5, k);
  }

  /** The eleven key names never collide: the factor, vehicle and borough key
      names have three different lengths, and within a group the names differ. */
  lemma KeyNamesApart()
    ensures forall a, b :: 0 <= a < b < 5 ==> FactorColumns()[a] != FactorColumns()[b] && VehicleColumns()[a] != VehicleColumns()[b]
    ensures forall a, b :: 0 <= a < 5 && 0 <= b < 5 ==> IdColumn(FactorColumns()[a]) != IdColumn(VehicleColumns()[b])
    ensures forall a :: 0 <= a < 5 ==> IdColumn("BoroName") != IdColumn(FactorColumns()[a]) && IdColumn("BoroName") != IdColumn(VehicleColumns()[a])
  {
    NamesShape(FactorGroup);
    NamesShape(VehicleGroup);
  }

  /** A keyed row is the original row with only its key map changed, and each key
      column holds the foreign key of its text cell. */
  lemma KeyRowHolds(r: Crash, factorIds: map<string, nat>, vehicleIds: map<string, nat>, boroughIds: map<string, nat>, k: nat)
    requires k < 5
    ensures var s := KeyRow(r, factorIds, vehicleIds, boroughIds);
            && KeyOf(s, IdColumn(FactorColumns()[k])) == ForeignKey(r.factors[k], factorIds)
            && KeyOf(s, IdColumn(VehicleColumns()[k])) == ForeignKey(r.vehicles[k], vehicleIds)
            && KeyOf(s, IdColumn("BoroName")) == ForeignKey(r.boroName, boroughIds)
  {
    KeyNamesApart();
    StagesHold(r.keys, r.factors, FactorColumns(), factorIds, r.vehicles, VehicleColumns(), vehicleIds,
               IdColumn("BoroName"), ForeignKey(r.boroName, boroughIds), k);
  }

  /** A row keyed against dimensions built from cells that include its own text
      cells gets keys that describe those cells. */
  lemma KeyRowDescribes(r: Crash, factorCells: seq<Option<string>>, vehicleCells: seq<Option<string>>,
                        boroughCells: seq<Option<string>>, k: nat)
    requires k < 5
    requires r.factors[k] in factorCells && r.vehicles[k] in vehicleCells && r.boroName in boroughCells
    ensures var factors, vehicleTypes, boroughs := CreateDimension(factorCells), CreateDimension(vehicleCells), CreateDimension(boroughCells);
            var s := KeyRow(r, factors.ids, vehicleTypes.ids, boroughs.ids);
            && Describes(factors, r.factors[k], KeyOf(s, IdColumn(FactorColumns()[k])))
            && Describes(vehicleTypes, r.vehicles[k], KeyOf(s, IdColumn(VehicleColumns()[k])))
            && Describes(boroughs, r.boroName, KeyOf(s, IdColumn("BoroName")))
  {
    KeyRowHolds(r, CreateDimension(factorCells).ids, CreateDimension(vehicleCells).ids, CreateDimension(boroughCells).ids, k);
    ForeignKeyOfDescribed(factorCells, r.factors[k]);
    ForeignKeyOfDescribed(vehicleCells, r.vehicles[k]);
    ForeignKeyOfDescribed(boroughCells, r.boroName);
  }

  /** In the keyed table every key column is null exactly when its text cell is,
      and otherwise holds the id of the dimension row describing the stripped
      cell; nothing but the key map of a row changes. */
  lemma ModelDescribes(columns: seq<string>, rows: seq<Crash>, i: nat, k: nat)
    requires Model(columns, rows).Modelled?
    requires i < |rows| && k < 5
    ensures var m := Model(columns, rows);
            && |m.rows| == |rows|
            && m.rows[i] == rows[i].(keys := m.rows[i].keys)
            && Describes(m.factors, rows[i].factors[k], KeyOf(m.rows[i], IdColumn(FactorColumns()[k])))
            && Describes(m.vehicleTypes, rows[i].vehicles[k], KeyOf(m.rows[i], IdColumn(VehicleColumns()[k])))
            && Describes(m.boroughs, rows[i].boroName, KeyOf(m.rows[i], IdColumn("BoroName")))
  {
    ModelRows(columns, rows, i);
    ModelDimensions(columns, rows);
    StackedHolds(rows, FactorGroup, 5, k, i);
    StackedHolds(rows, VehicleGroup, 5, k, i);
    assert BoroCells(rows)[i] == rows[i].boroName;
    KeyRowDescribes(rows[i], Stacked(rows, FactorGroup, 5), Stacked(rows, VehicleGroup, 5), BoroCells(rows), k);
  }

  /** The headers `create_data_model` leaves: the table's own, with the key
      columns added, and the fact table's, without the text columns. */
  lemma ModelColumns(columns: seq<string>, rows: seq<Crash>)
    requires Model(columns, rows).Modelled?
    ensures var m := Model(columns, rows);
            && m.columns == AddColumn(IdColumns(IdColumns(columns, FactorGroup, 5), VehicleGroup, 5), IdColumn("BoroName"))
            && m.factColumns == DropColumns(DropColumns(DropColumns(m.columns, FactorColumns()), VehicleColumns()), ["BoroName"])
  {
  }

  /** The table keeps all its columns and gains the eleven key columns; the fact
      table has the key columns and every other column, but none of the text
      columns the keys replace. */
  lemma ModelHeaders(columns: seq<string>, rows: seq<Crash>)
    requires Model(columns, rows).Modelled?
    ensures var m := Model(columns, rows);
            && (forall c :: c in columns ==> c in m.columns)
            && (forall k :: 0 <= k < 5 ==> FactorColumns()[k] !in m.factColumns && VehicleColumns()[k] !in m.factColumns)
            && "BoroName" !in m.factColumns
            && (forall c :: c in columns && c !in FactorColumns() && c !in VehicleColumns() && c != "BoroName"
                  ==> c in m.factColumns)
            && (forall k :: 0 <= k < 5 ==> IdColumn(FactorColumns()[k]) in m.factColumns)
            && (forall k :: 0 <= k < 5 ==> IdColumn(VehicleColumns()[k]) in m.factColumns)
            && IdColumn("BoroName") in m.factColumns
  {
    var m := Model(columns, rows);
    ModelColumns(columns, rows);
    NamesShape(FactorGroup);
    NamesShape(VehicleGroup);
    IdColumnsHeader(columns, FactorGroup, 5);
    IdColumnsHeader(IdColumns(columns, FactorGroup, 5), VehicleGroup, 5);
    forall k | 0 <= k < 5
      ensures IdColumn(FactorColumns()[k]) in m.factColumns && IdColumn(VehicleColumns()[k]) in m.factColumns
    {
      LengthApart(IdColumn(FactorColumns()[k]), FactorColumns(), 29);
      LengthApart(IdColumn(FactorColumns()[k]), VehicleColumns(), 19);
      LengthApart(IdColumn(VehicleColumns()[k]), FactorColumns(), 29);
      LengthApart(IdColumn(VehicleColumns()[k]), VehicleColumns(), 19);
    }
    LengthApart(IdColumn("BoroName"), FactorColumns(), 29);
    LengthApart(IdColumn("BoroName"), VehicleColumns(), 19);
  }

  /** The fact table and the three dimension tables of `create_data_model`. */
  datatype Tables = Tables(fact: Frame<Crash>, factors: Dimension, vehicleTypes: Dimension, boroughs: Dimension)

  /** The key-column loop of one group: `df[col + '_id'] = ...` for each of its
      five columns, in place. */
  method KeyGroup(main: Frame<Crash>, g: Group, ids: map<string, nat>)
    modifies main
    ensures main.rows == KeyColumns(old(main.rows), g, ids, 5)
    ensures main.columns == IdColumns(old(main.columns), g, 5)
  {
    for k := 0 to 5
      invariant main.rows == KeyColumns(old(main.rows), g, ids, k)
      invariant main.columns == IdColumns(old(main.columns), g, k)
    {
      main.rows := KeyColumn(main.rows, g, k, ids);
      main.columns := AddColumn(main.columns, IdColumn(Names(g)[k]));
    }
  }

  /** `create_data_model(main)`: the caller's table gains its key columns in place;
      the result is the fact table and the three dimensions, or nothing when a
      KeyError stopped it part way. */
  method CreateDataModel(main: Frame<Crash>) returns (tables: Option<Tables>)
    modifies main
    ensures var m := Model(old(main.columns), old(main.rows));
            && main.columns == m.columns && main.rows == m.rows
            && (tables.None? <==> m.Failed?)
            && (tables.Some? ==>
                  && fresh(tables.value.fact)
                  && tables.value.fact.columns == m.factColumns && tables.value.fact.rows == m.rows
                  && tables.value.factors == m.factors && tables.value.vehicleTypes == m.vehicleTypes
                  && tables.value.boroughs == m.boroughs)
  {
    if !HasColumns(main.columns, FactorColumns()) {
      return None;
    }
    var factors := CreateDimension(Stacked(main.rows, FactorGroup, 5));
    KeyGroup(main, FactorGroup, factors.ids);
    if !HasColumns(main.columns, VehicleColumns()) {
      return None;
    }
    var vehicleTypes := CreateDimension(Stacked(main.rows, VehicleGroup, 5));
    KeyGroup(main, VehicleGroup, vehicleTypes.ids);
    if "BoroName" !in main.columns {
      return None;
    }
    var boroughs := CreateDimension(BoroCells(main.rows));
    main.rows := KeyBoroughs(main.rows, boroughs.ids);
    main.columns := AddColumn(main.columns, IdColumn("BoroName"));
    var factColumns := DropColumns(DropColumns(DropColumns(main.columns, FactorColumns()), VehicleColumns()), ["BoroName"]);
    var fact := new Frame(factColumns, main.rows);
    tables := Some(Tables(fact, factors, vehicleTypes, boroughs));
  }
}
