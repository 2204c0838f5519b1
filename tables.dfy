/** A row-major model of a pandas DataFrame: column labels and rows of cells,
    with the column operations the reshaping and the pairwise test use. */
module Tables {
  import opened Values
  import opened Seqs

  datatype Table = Table(columns: seq<string>, rows: seq<seq<Value>>)

  /** Every row has one cell per column, as in any DataFrame. */
  predicate Rectangular(t: Table)
  {
    forall i :: 0 <= i < |t.rows| ==> |t.rows[i]| == |t.columns|
  }

  /** The cells of column c, top to bottom (df[name] as a sequence). */
  function Column(t: Table, c: nat): (cs: seq<Value>)
    requires Rectangular(t) && c < |t.columns|
    ensures |cs| == |t.rows| && forall i :: 0 <= i < |t.rows| ==> cs[i] == t.rows[i][c]
  {
    seq(|t.rows|, i requires 0 <= i < |t.rows| => t.rows[i][c])
  }

  /** The position of the column labelled name (the first one, should the label repeat). */
  function ColumnIndex(cols: seq<string>, name: string): (r: Option<nat>)
    ensures r.Some? ==> r.value < |cols| && cols[r.value] == name && name !in cols[..r.value]
    ensures r.None? <==> name !in cols
  {
    if name in cols then Some(FirstIndex(cols, name)) else None
  }

  /** The positions of the columns whose labels are not in drop, in order;
      pandas' drop(columns=...) removes every column carrying a dropped label. */
  function Kept(cols: seq<string>, drop: set<string>): (pos: seq<nat>)
    ensures forall i :: 0 <= i < |pos| ==> pos[i] < |cols| && cols[pos[i]] !in drop
    ensures forall i, j :: 0 <= i < j < |pos| ==> pos[i] < pos[j]
    ensures forall j :: 0 <= j < |cols| && cols[j] !in drop ==> j in pos
    decreases |cols|
  {
    if cols == [] then []
    else
      var rest := Kept(cols[..|cols| - 1], drop);
      if cols[|cols| - 1] in drop then rest else rest + [|cols| - 1]
  }

  /** The cells of row at the given positions. */
  function Project<T>(row: seq<T>, pos: seq<nat>): (r: seq<T>)
    requires forall i :: 0 <= i < |pos| ==> pos[i] < |row|
    ensures |r| == |pos| && forall i :: 0 <= i < |pos| ==> r[i] == row[pos[i]]
  {
    seq(|pos|, i requires 0 <= i < |pos| => row[pos[i]])
  }

  /** DataFrame.drop(columns=drop) once every label in drop is known to be present. */
  function DropColumns(t: Table, drop: set<string>): (r: Table)
    requires Rectangular(t)
    ensures Rectangular(r) && |r.rows| == |t.rows|
    ensures forall name :: name in drop ==> name !in r.columns
    ensures forall j :: 0 <= j < |t.columns| && t.columns[j] !in drop ==> t.columns[j] in r.columns
    ensures Distinct(t.columns) ==> Distinct(r.columns)
  {
    var pos := Kept(t.columns, drop);
    var cols := Project(t.columns, pos);
    assert forall name :: name in cols ==> name !in drop;
    forall j | 0 <= j < |t.columns| && t.columns[j] !in drop
      ensures t.columns[j] in cols
    {
      var i :| 0 <= i < |pos| && pos[i] == j;
      assert cols[i] == t.columns[j];
    }
    Table(cols, seq(|t.rows|, i requires 0 <= i < |t.rows| => Project(t.rows[i], pos)))
  }
}
