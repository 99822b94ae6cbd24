/**
 * The part of a pandas DataFrame built from a list of flat records that the model
 * needs: its columns are the union of the records' keys in first-seen order, and a
 * record without a column reads as missing there.
 */
module Frames {
  import opened Wrappers
  import opened Dicts
  import opened Records

  datatype Frame = Frame(columns: seq<string>, rows: seq<Row>)

  /** Adds the keys of one record that are not yet columns, in the record's order. */
  function AddColumns(cols: seq<string>, row: Row): (r: seq<string>)
    requires Distinct(cols)
    ensures Distinct(r)
    ensures |cols| <= |r| && r[..|cols|] == cols
    ensures forall c :: c in r <==> c in cols || HasKey(row, c)
    decreases |row|
  {
    if row == [] then cols
    else
      var k := row[0].0;
      var next := if k in cols then cols else cols + [k];
      var r := AddColumns(next, row[1..]);
      assert forall c :: HasKey(row, c) <==> c == k || HasKey(row[1..], c) by {
        forall c ensures HasKey(row, c) <==> c == k || HasKey(row[1..], c) {
          if HasKey(row, c) && c != k {
            var i :| 0 <= i < |row| && row[i].0 == c;
            assert row[1..][i - 1].0 == c;
          }
          if HasKey(row[1..], c) {
            var i :| 0 <= i < |row| - 1 && row[1..][i].0 == c;
            assert row[i + 1].0 == c;
          }
        }
      }
      assert r[..|cols|] == r[..|next|][..|cols|];
      r
  }

  /** The column index pandas builds from a list of records. */
  function Columns(rows: seq<Row>): (cols: seq<string>)
    ensures Distinct(cols)
    ensures forall c :: c in cols <==> exists i :: 0 <= i < |rows| && HasKey(rows[i], c)
  {
    if rows == [] then []
    else
      var init := rows[..|rows| - 1];
      var cols := AddColumns(Columns(init), rows[|rows| - 1]);
      assert forall c :: c in cols <==> exists i :: 0 <= i < |rows| && HasKey(rows[i], c) by {
        forall c ensures c in cols <==> exists i :: 0 <= i < |rows| && HasKey(rows[i], c) {
          if c in Columns(init) {
            var i :| 0 <= i < |init| && HasKey(init[i], c);
            assert rows[i] == init[i];
          }
          if exists i :: 0 <= i < |rows| && HasKey(rows[i], c) {
            var i :| 0 <= i < |rows| && HasKey(rows[i], c);
            if i < |rows| - 1 { assert init[i] == rows[i]; }
          }
        }
      }
      cols
  }

  /** `pd.DataFrame(flat_data)`. */
  function ToFrame(rows: seq<Row>): (f: Frame)
    ensures f.rows == rows
    ensures Distinct(f.columns)
    ensures forall c :: c in f.columns <==> exists i :: 0 <= i < |rows| && HasKey(rows[i], c)
  {
    Frame(Columns(rows), rows)
  }

  /** `df.loc[i, c]`: the record's value, or missing when the record lacks the column. */
  function CellAt(f: Frame, i: nat, c: string): (r: Cell)
    requires i < |f.rows|
    ensures HasKey(f.rows[i], c) ==> Some(r) == Lookup(f.rows[i], c)
    ensures !HasKey(f.rows[i], c) ==> r == Missing
  {
    match Lookup(f.rows[i], c)
    case Some(v) => v
    case None => Missing
  }

  /** `df[c]` as a sequence of cells, one per row. */
  function Column(f: Frame, c: string): (col: seq<Cell>)
    ensures |col| == |f.rows|
    ensures forall i :: 0 <= i < |f.rows| ==> col[i] == CellAt(f, i, c)
  {
    seq(|f.rows|, i requires 0 <= i < |f.rows| => CellAt(f, i, c))
  }

  /** One record after `df['trapped'] = df['trapped'].map(...)`. */
  function CoerceRow(row: Row): Row {
    match Lookup(row, "trapped")
    case Some(c) => Put(row, "trapped", CoerceTrapped(c))
    case None => row
  }

  /** `df['trapped'] = df['trapped'].map({'true': True, 'false': False})`. */
  function MapTrapped(f: Frame): (g: Frame)
    ensures g.columns == f.columns && |g.rows| == |f.rows|
  {
    Frame(f.columns, seq(|f.rows|, i requires 0 <= i < |f.rows| => CoerceRow(f.rows[i])))
  }

  /** Mapping `trapped` changes that column's cells through CoerceTrapped and nothing else. */
  lemma MapTrappedCell(f: Frame, i: nat, c: string)
    requires i < |f.rows|
    ensures CellAt(MapTrapped(f), i, c) == if c == "trapped" then CoerceTrapped(CellAt(f, i, c)) else CellAt(f, i, c)
  {
    var row := f.rows[i];
    if HasKey(row, "trapped") {
      PutLookup(row, "trapped", CoerceTrapped(Lookup(row, "trapped").value), c);
    }
  }
}
