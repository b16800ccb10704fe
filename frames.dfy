/** A DataFrame that is changed in place where a caller can see it. */
module Frames {

  /** A pandas DataFrame: its header (`df.columns`) and its rows. The typed row
      stands for the values of the row's columns. */
  class Frame<R> {
    var columns: seq<string>
    var rows: seq<R>

    constructor (columns: seq<string>, rows: seq<R>)
      ensures this.columns == columns && this.rows == rows
    {
      this.columns := columns;
      this.rows := rows;
    }
  }

  /** The header after `df[name] = ...`: a new column goes at the end, an existing
      one keeps its place. */
  function AddColumn(columns: seq<string>, name: string): (r: seq<string>)
    ensures name in r
    ensures forall c :: c in columns ==> c in r
    ensures forall c :: c in r ==> c in columns || c == name
  {
    if name in columns then columns else columns + [name]
  }

  /** The header after `df.drop(columns=names)` once every name is known to be a
      column (pandas raises a KeyError otherwise; callers check that first). */
  function DropColumns(columns: seq<string>, names: seq<string>): (r: seq<string>)
    ensures forall c :: c in r <==> c in columns && c !in names
  {
    if columns == [] then []
    else (if columns[0] in names then [] else [columns[0]]) + DropColumns(columns[1..], names)
  }
}
