/** The DataFrames the extractors build and `pd.concat(..., ignore_index=True)`
    over them (app.py:133, 193). A frame is a header and rows; after
    concatenation a cell is absent where a table lacked the column. */
module Frames {
  import opened Wrappers

  /** One DataFrame built from one extracted table: every cell a string. */
  datatype Table = Table(columns: seq<string>, rows: seq<seq<string>>)

  /** Every row has `width` cells: one cell per column. */
  predicate Fits<T>(width: nat, rows: seq<seq<T>>) {
    forall i :: 0 <= i < |rows| ==> |rows[i]| == width
  }

  predicate Rectangular(t: Table) {
    Fits(|t.columns|, t.rows)
  }

  /** The combined DataFrame; `None` is the NaN of a column union. */
  datatype Frame = Frame(columns: seq<string>, rows: seq<seq<Option<string>>>)

  /** pd.DataFrame() */
  const EmptyFrame := Frame([], [])

  /** DataFrame.empty: no columns or no rows. */
  predicate IsEmpty(f: Frame) {
    |f.columns| == 0 || |f.rows| == 0
  }

  predicate Distinct(cols: seq<string>) {
    forall i, j :: 0 <= i < j < |cols| ==> cols[i] != cols[j]
  }

  function TotalRows(tables: seq<Table>): nat {
    if tables == [] then 0 else TotalRows(tables[..|tables| - 1]) + |tables[|tables| - 1].rows|
  }

  // ---------------------------------------------------------------------
  // Identical headers: the rows are stacked as they are.
  // ---------------------------------------------------------------------

  function Lift(row: seq<string>): (r: seq<Option<string>>)
    ensures |r| == |row| && forall k :: 0 <= k < |row| ==> r[k] == Some(row[k])
  {
    seq(|row|, k requires 0 <= k < |row| => Some(row[k]))
  }

  /** The rows of all tables, in table order and row order. */
  function Stacked(tables: seq<Table>): (rows: seq<seq<Option<string>>>)
    ensures |rows| == TotalRows(tables)
  {
    if tables == [] then []
    else
      var t := tables[|tables| - 1];
      Stacked(tables[..|tables| - 1]) + seq(|t.rows|, i requires 0 <= i < |t.rows| => Lift(t.rows[i]))
  }

  // ---------------------------------------------------------------------
  // Different headers: the columns are united in order of first
  // appearance and every row is re-indexed to them.
  // ---------------------------------------------------------------------

  /** `acc` followed by the names of `cols` it does not hold yet. */
  function AddNew(acc: seq<string>, cols: seq<string>): (r: seq<string>)
    ensures |acc| <= |r| && r[..|acc|] == acc
    ensures forall c :: c in r <==> c in acc || c in cols
    ensures Distinct(acc) ==> Distinct(r)
    decreases |cols|
  {
    if cols == [] then acc
    else if cols[0] in acc then AddNew(acc, cols[1..])
    else AddNew(acc + [cols[0]], cols[1..])
  }

  function UnionColumns(tables: seq<Table>): (cols: seq<string>)
    ensures Distinct(cols)
  {
    if tables == [] then [] else AddNew(UnionColumns(tables[..|tables| - 1]), tables[|tables| - 1].columns)
  }

  function IndexOf(cols: seq<string>, c: string): (k: nat)
    requires c in cols
    ensures k < |cols| && cols[k] == c
  {
    if cols[0] == c then 0 else 1 + IndexOf(cols[1..], c)
  }

  /** One row under the united header: the cell of the same name, or
      NaN where the row's table has no such column. */
  function Reindex(row: seq<string>, from: seq<string>, to: seq<string>): (r: seq<Option<string>>)
    requires |row| == |from|
    ensures |r| == |to|
  {
    seq(|to|, k requires 0 <= k < |to| => if to[k] in from then Some(row[IndexOf(from, to[k])]) else None)
  }

  function Aligned(tables: seq<Table>, to: seq<string>): (rows: seq<seq<Option<string>>>)
    requires forall t :: t in tables ==> Rectangular(t)
    ensures |rows| == TotalRows(tables)
  {
    if tables == [] then []
    else
      var t := tables[|tables| - 1];
      assert t in tables && Rectangular(t);
      Aligned(tables[..|tables| - 1], to) +
        seq(|t.rows|, i requires 0 <= i < |t.rows| => Reindex(t.rows[i], t.columns, to))
  }

  // ---------------------------------------------------------------------
  // pd.concat
  // ---------------------------------------------------------------------

  predicate SameColumns(tables: seq<Table>)
    requires tables != []
  {
    forall i :: 0 <= i < |tables| ==> tables[i].columns == tables[0].columns
  }

  /** pd.concat over a non-empty list: `None` where pandas raises, which
      it does when the headers differ and one of them repeats a name
      (a header with repeats cannot be re-indexed). */
  function Concat(tables: seq<Table>): (r: Option<Frame>)
    requires tables != []
    requires forall t :: t in tables ==> Rectangular(t)
  {
    if SameColumns(tables) then Some(Frame(tables[0].columns, Stacked(tables)))
    else if exists i :: 0 <= i < |tables| && !Distinct(tables[i].columns) then None
    else
      var cols := UnionColumns(tables);
      Some(Frame(cols, Aligned(tables, cols)))
  }

  /** `pd.concat(dfs, ignore_index=True) if dfs else pd.DataFrame()`, with
      a raising concat caught into the empty frame. */
  function ConcatOrEmpty(tables: seq<Table>): Frame
    requires forall t :: t in tables ==> Rectangular(t)
  {
    if tables == [] then EmptyFrame
    else match Concat(tables)
      case None => EmptyFrame
      case Some(f) => f
  }

  // ---------------------------------------------------------------------
  // Properties of the concatenation
  // ---------------------------------------------------------------------

  lemma {:induction false} StackedRows(tables: seq<Table>)
    requires forall t :: t in tables ==> Rectangular(t)
    requires tables != [] && SameColumns(tables)
    ensures forall r :: r in Stacked(tables) ==> |r| == |tables[0].columns|
  {
    var init := tables[..|tables| - 1];
    if init != [] {
      assert init[0] == tables[0];
      StackedRows(init);
    }
    var t := tables[|tables| - 1];
    assert t in tables;
  }

  lemma {:induction false} AlignedRows(tables: seq<Table>, to: seq<string>)
    requires forall t :: t in tables ==> Rectangular(t)
    ensures forall r :: r in Aligned(tables, to) ==> |r| == |to|
  {
    if tables != [] {
      AlignedRows(tables[..|tables| - 1], to);
    }
  }

  /** Some table has a column named `c`. */
  predicate InSome(tables: seq<Table>, c: string) {
    exists i :: 0 <= i < |tables| && c in tables[i].columns
  }

  lemma InSomeSnoc(tables: seq<Table>, c: string)
    requires tables != []
    ensures InSome(tables, c) <==>
      InSome(tables[..|tables| - 1], c) || c in tables[|tables| - 1].columns
  {
    var init := tables[..|tables| - 1];
    if InSome(tables, c) {
      var i :| 0 <= i < |tables| && c in tables[i].columns;
      if i < |init| {
        assert init[i] == tables[i];
      }
    }
    if InSome(init, c) {
      var i :| 0 <= i < |init| && c in init[i].columns;
      assert tables[i] == init[i];
    }
  }

  lemma {:induction false} UnionHasAll(tables: seq<Table>, c: string)
    ensures c in UnionColumns(tables) <==> InSome(tables, c)
  {
    if tables != [] {
      UnionHasAll(tables[..|tables| - 1], c);
      InSomeSnoc(tables, c);
    }
  }

  /** The concatenation keeps every row of every table, and each of its
      rows has one cell per column; under a column union, the columns are
      distinct and are exactly the names some table has. */
  lemma ConcatShape(tables: seq<Table>)
    requires tables != []
    requires forall t :: t in tables ==> Rectangular(t)
    requires Concat(tables).Some?
    ensures |Concat(tables).value.rows| == TotalRows(tables)
    ensures forall r :: r in Concat(tables).value.rows ==> |r| == |Concat(tables).value.columns|
    ensures !SameColumns(tables) ==> Distinct(Concat(tables).value.columns)
    ensures !SameColumns(tables) ==> forall c :: c in Concat(tables).value.columns <==> InSome(tables, c)
  {
    if SameColumns(tables) {
      StackedRows(tables);
    } else {
      AlignedRows(tables, UnionColumns(tables));
      forall c
        ensures c in UnionColumns(tables) <==> InSome(tables, c)
      {
        UnionHasAll(tables, c);
      }
    }
  }

  /** How many rows the tables before `j` have, plus table j's, is at
      most the total. */
  lemma {:induction false} TotalRowsPrefix(tables: seq<Table>, j: nat)
    requires j < |tables|
    ensures TotalRows(tables[..j]) + |tables[j].rows| <= TotalRows(tables)
  {
    var init := tables[..|tables| - 1];
    if j < |init| {
      TotalRowsPrefix(init, j);
      assert init[..j] == tables[..j] && init[j] == tables[j];
    } else {
      assert tables[..j] == init;
    }
  }

  /** Stacking places row k of table j after the rows of the tables
      before it, with every cell present. */
  lemma {:induction false} StackedAt(tables: seq<Table>, j: nat, k: nat)
    requires j < |tables| && k < |tables[j].rows|
    ensures TotalRows(tables[..j]) + k < TotalRows(tables)
    ensures Stacked(tables)[TotalRows(tables[..j]) + k] == Lift(tables[j].rows[k])
  {
    TotalRowsPrefix(tables, j);
    var init := tables[..|tables| - 1];
    var r := TotalRows(tables[..j]) + k;
    if j < |init| {
      assert init[..j] == tables[..j] && init[j] == tables[j];
      StackedAt(init, j, k);
      assert r < |Stacked(init)|;
      assert Stacked(tables)[r] == Stacked(init)[r];
    } else {
      assert tables[..j] == init;
      assert r == |Stacked(init)| + k;
    }
  }

  /** Under a united header, row k of table j sits at the same place,
      re-indexed to the united header. */
  lemma {:induction false} AlignedAt(tables: seq<Table>, to: seq<string>, j: nat, k: nat)
    requires forall t :: t in tables ==> Rectangular(t)
    requires j < |tables| && k < |tables[j].rows|
    ensures TotalRows(tables[..j]) + k < TotalRows(tables)
    ensures |tables[j].rows[k]| == |tables[j].columns|
    ensures Aligned(tables, to)[TotalRows(tables[..j]) + k] == Reindex(tables[j].rows[k], tables[j].columns, to)
  {
    TotalRowsPrefix(tables, j);
    assert tables[j] in tables;
    var init := tables[..|tables| - 1];
    var r := TotalRows(tables[..j]) + k;
    assert forall t :: t in init ==> t in tables;
    if j < |init| {
      assert init[..j] == tables[..j] && init[j] == tables[j];
      AlignedAt(init, to, j, k);
      assert r < |Aligned(init, to)|;
      assert Aligned(tables, to)[r] == Aligned(init, to)[r];
    } else {
      assert tables[..j] == init;
      assert r == |Aligned(init, to)| + k;
    }
  }

  /** The cells of the concatenation: row k of table j is found after the
      rows of the tables before it. Under identical headers it is the
      row itself, every cell present; under a united header, the cell of
      a column is the row's cell of the same name, or absent when table j
      has no such column. */
  lemma ConcatRow(tables: seq<Table>, j: nat, k: nat)
    requires forall t :: t in tables ==> Rectangular(t)
    requires j < |tables| && k < |tables[j].rows|
    requires Concat(tables).Some?
    ensures |tables[j].rows[k]| == |tables[j].columns|
    ensures var f := Concat(tables).value;
      var r := TotalRows(tables[..j]) + k;
      r < |f.rows| && |f.rows[r]| == |f.columns| &&
      (SameColumns(tables) ==>
        f.columns == tables[j].columns &&
        forall c :: 0 <= c < |f.columns| ==> f.rows[r][c] == Some(tables[j].rows[k][c])) &&
      (!SameColumns(tables) ==>
        f.columns == UnionColumns(tables) &&
        forall c :: 0 <= c < |f.columns| ==>
          f.rows[r][c] == if f.columns[c] in tables[j].columns
                          then Some(tables[j].rows[k][IndexOf(tables[j].columns, f.columns[c])])
                          else None)
  {
    assert tables[j] in tables;
    if SameColumns(tables) {
      StackedAt(tables, j, k);
    } else {
      AlignedAt(tables, UnionColumns(tables), j, k);
    }
  }

  /** Tables whose headers all differ in at least one place and one of
      which repeats a name give the empty frame. */
  lemma ConcatRaises(tables: seq<Table>, i: nat)
    requires forall t :: t in tables ==> Rectangular(t)
    requires i < |tables| && !Distinct(tables[i].columns)
    requires tables[i].columns != tables[0].columns
    ensures Concat(tables).None? && ConcatOrEmpty(tables) == EmptyFrame
  {
  }

  /** One table is kept as it is. */
  lemma ConcatSingle(t: Table)
    requires Rectangular(t)
    ensures ConcatOrEmpty([t]) == Frame(t.columns, seq(|t.rows|, i requires 0 <= i < |t.rows| => Lift(t.rows[i])))
  {
    assert [t][..0] == [];
  }

  /** Every row of the frame has one cell per column. */
  predicate WellFormed(f: Frame) {
    Fits(|f.columns|, f.rows)
  }

  lemma ConcatOrEmptyWellFormed(tables: seq<Table>)
    requires forall t :: t in tables ==> Rectangular(t)
    ensures WellFormed(ConcatOrEmpty(tables))
  {
    if tables != [] && Concat(tables).Some? {
      ConcatShape(tables);
      var f := Concat(tables).value;
      forall i | 0 <= i < |f.rows|
        ensures |f.rows[i]| == |f.columns|
      {
        assert f.rows[i] in f.rows;
      }
    }
  }
}
