/** The legacy Table of the column module: named columns of cells kept at
    the same number of rows, with the order rows were inserted in. */
module LegacyTables {
  import opened Results
  import opened Cells

  /** The type names insertColumn accepts. */
  const SupportedDatatypes: seq<string> :=
    ["INTEGER", "SMALLINT", "BIGINT", "FLOAT", "TEXT", "CHAR", "VARCHAR", "NULL"]

  /** A row to insert: cells by column name. */
  type Row = map<string, Types>

  /** n null cells. */
  function Nulls(n: nat): (cells: seq<Types>)
    ensures |cells| == n && forall k :: 0 <= k < n ==> cells[k] == NullCell
  {
    seq(n, _ => NullCell)
  }

  /** The cell a row gives a column: its own, or null when it names none. */
  function CellOf(row: Row, name: string): Types
  {
    if name in row then row[name] else NullCell
  }

  /** The column under a name; operator[] of the map makes an empty one
      when the name is missing. */
  function ColumnAt(columns: map<string, seq<Types>>, name: string): seq<Types>
  {
    if name in columns then columns[name] else []
  }

  /** insertRow's loop: each listed name in turn has the row's cell
      appended to its column. */
  function AppendRow(columns: map<string, seq<Types>>, names: seq<string>, row: Row): map<string, seq<Types>>
    decreases |names|
  {
    if names == [] then columns
    else
      var before := AppendRow(columns, names[..|names| - 1], row);
      var name := names[|names| - 1];
      before[name := ColumnAt(before, name) + [CellOf(row, name)]]
  }

  lemma AppendRowStep(columns: map<string, seq<Types>>, names: seq<string>, k: int, row: Row)
    requires 0 <= k < |names|
    ensures AppendRow(columns, names[..k + 1], row) ==
      var before := AppendRow(columns, names[..k], row);
      before[names[k] := ColumnAt(before, names[k]) + [CellOf(row, names[k])]]
  {
    assert names[..k + 1][..k] == names[..k];
  }

  /** The row numbers 0 to n-1 followed by n. */
  lemma OrderStep(n: nat)
    ensures seq(n, i => i) + [n] == seq(n + 1, i => i)
  {
  }

  predicate NoRepeats(names: seq<string>)
  {
    forall i, j :: 0 <= i < j < |names| ==> names[i] != names[j]
  }

  function NameSet(names: seq<string>): set<string>
  {
    set n | n in names
  }

  /** With distinct names, each listed column gains exactly the row's cell
      and every other column is unchanged. */
  lemma {:induction false} AppendRowDistinct(columns: map<string, seq<Types>>, names: seq<string>, row: Row)
    requires NoRepeats(names) && forall n :: n in names ==> n in columns
    ensures AppendRow(columns, names, row).Keys == columns.Keys
    ensures forall n :: n in names ==> AppendRow(columns, names, row)[n] == columns[n] + [CellOf(row, n)]
    ensures forall n :: n in columns && n !in names ==> AppendRow(columns, names, row)[n] == columns[n]
    decreases |names|
  {
    if names != [] {
      var front := names[..|names| - 1];
      assert forall n :: n in front ==> n in names;
      AppendRowDistinct(columns, front, row);
      var last := names[|names| - 1];
      assert last !in front;
      assert forall n :: n in names ==> n in front || n == last;
    }
  }

  /** With distinct names, a row keeps every named column at one length,
      one more than before. */
  lemma RowKeepsRectangular(columns: map<string, seq<Types>>, names: seq<string>, rows: nat, row: Row)
    requires NoRepeats(names) && forall n :: n in names ==> n in columns && |columns[n]| == rows
    ensures forall n :: n in names ==> n in AppendRow(columns, names, row) && |AppendRow(columns, names, row)[n]| == rows + 1
  {
    AppendRowDistinct(columns, names, row);
  }

  /** insertRow adds no column. */
  lemma {:induction false} AppendRowKeys(columns: map<string, seq<Types>>, names: seq<string>, row: Row)
    requires forall n :: n in names ==> n in columns
    ensures AppendRow(columns, names, row).Keys == columns.Keys
    decreases |names|
  {
    if names != [] {
      var front := names[..|names| - 1];
      assert forall n :: n in front ==> n in names;
      AppendRowKeys(columns, front, row);
    }
  }

  /** A name listed twice has the row's cell appended twice. */
  lemma DuplicateNameAppendsTwice(columns: map<string, seq<Types>>, name: string, row: Row)
    requires name in columns
    ensures AppendRow(columns, [name, name], row)[name] == columns[name] + [CellOf(row, name), CellOf(row, name)]
  {
    assert [name, name][..1] == [name];
    assert [name][..0] == [];
    assert AppendRow(columns, [name], row) == columns[name := columns[name] + [CellOf(row, name)]];
  }

  /** As many distinct names as the list is long exactly when no name repeats. */
  lemma {:induction false} NameSetSize(names: seq<string>)
    ensures |NameSet(names)| <= |names|
    ensures |NameSet(names)| == |names| <==> NoRepeats(names)
    decreases |names|
  {
    if names != [] {
      var front := names[..|names| - 1];
      var last := names[|names| - 1];
      NameSetSize(front);
      assert names == front + [last];
      assert NameSet(names) == NameSet(front) + {last};
      if last in front {
        assert NameSet(names) == NameSet(front);
        var i :| 0 <= i < |front| && front[i] == last;
        assert names[i] == names[|names| - 1];
      } else {
        assert |NameSet(names)| == |NameSet(front)| + 1;
        if NoRepeats(names) {
          assert NoRepeats(front);
        }
        if NoRepeats(front) {
          assert NoRepeats(names);
        }
      }
    }
  }

  class Table {
    var columns: map<string, seq<Types>>
    var charTypeColumnLengths: map<string, int>
    var columnNames: seq<string>
    var order: seq<int>
    var numRows: nat
    var numCols: int

    /** What every operation keeps: the counters count, the names are the
        columns' keys, CHAR lengths belong to columns, and the order lists the
        rows as they were inserted. */
    predicate Wellformed()
      reads this
    {
      && numCols == |columnNames|
      && columns.Keys == NameSet(columnNames)
      && charTypeColumnLengths.Keys <= columns.Keys
      && order == seq(numRows, i => i)
    }

    /** Every named column holds one cell per row. */
    predicate Rectangular()
      reads this
    {
      forall n :: n in columnNames ==> n in columns && |columns[n]| == numRows
    }

    /** columnNameValidityCheck passes. */
    predicate ColumnNamesValid()
      reads this
    {
      (forall n :: n in columnNames ==> n in columns) && |columnNames| == |columns|
    }

    /** tableValidityCheck passes. */
    predicate TableValid()
      reads this
    {
      numCols == |columns| && forall n :: n in columnNames ==> |ColumnAt(columns, n)| == numRows
    }

    /** Table(): no columns, no rows. */
    constructor ()
      ensures columns == map[] && charTypeColumnLengths == map[] && columnNames == [] && order == []
      ensures numRows == 0 && numCols == 0
      ensures Wellformed() && TableValid()
    {
      columns := map[];
      charTypeColumnLengths := map[];
      columnNames := [];
      order := [];
      numRows := 0;
      numCols := 0;
    }

    /** columnNameExists. */
    predicate ColumnNameExists(name: string): (b: bool)
      reads this
      ensures b <==> exists i :: 0 <= i < |columnNames| && columnNames[i] == name
    {
      name in columnNames
    }

    /** A column of nulls, one per row, as insertColumn's loop pushes them. */
    method NullColumn() returns (cells: seq<Types>)
      ensures cells == Nulls(numRows)
    {
      cells := [];
      var i := 0;
      while i < numRows
        invariant 0 <= i <= numRows && cells == Nulls(i)
      {
        cells := cells + [NullCell];
        i := i + 1;
      }
    }

    /** insertColumn(name, dataType): the type name must be supported; the
        column under `name` becomes a column of nulls, one per row, and the
        name is listed (again, if it already was). */
    method InsertColumn(name: string, dataType: string) returns (fault: Option<Fault>)
      modifies this
      requires Wellformed()
      ensures fault.Some? <==> !ValidDatatype(dataType)
      ensures fault.Some? ==> fault.value == UnsupportedDatatype && unchanged(this)
      ensures fault.None? ==> columns == old(columns)[name := Nulls(numRows)] && columnNames == old(columnNames) + [name]
      ensures fault.None? ==> numCols == old(numCols) + 1 && charTypeColumnLengths == old(charTypeColumnLengths)
      ensures numRows == old(numRows) && order == old(order)
      ensures Wellformed()
      ensures name !in old(columnNames) && old(NoRepeats(columnNames) && Rectangular()) ==> NoRepeats(columnNames) && Rectangular()
    {
      var ok := IsSupported(dataType);
      if !ok {
        return Some(UnsupportedDatatype);
      }
      fault := None;
      Add(name);
    }

    /** insertColumn(name, dataType, length): the type must be CHAR or
        VARCHAR, and its length is recorded. */
    method InsertCharColumn(name: string, dataType: string, length: int) returns (fault: Option<Fault>)
      modifies this
      requires Wellformed()
      ensures fault.Some? <==> dataType != "CHAR" && dataType != "VARCHAR"
      ensures fault.Some? ==> fault.value == UnsupportedDatatype && unchanged(this)
      ensures fault.None? ==> columns == old(columns)[name := Nulls(numRows)] && columnNames == old(columnNames) + [name]
      ensures fault.None? ==> numCols == old(numCols) + 1 && charTypeColumnLengths == old(charTypeColumnLengths)[name := length]
      ensures numRows == old(numRows) && order == old(order)
      ensures Wellformed()
      ensures name !in old(columnNames) && old(NoRepeats(columnNames) && Rectangular()) ==> NoRepeats(columnNames) && Rectangular()
    {
      if dataType != "CHAR" && dataType != "VARCHAR" {
        return Some(UnsupportedDatatype);
      }
      fault := None;
      charTypeColumnLengths := charTypeColumnLengths[name := length];
      Add(name);
    }

    /** The part the two insertColumn overloads share. */
    method Add(name: string)
      modifies this
      requires numCols == |columnNames| && columns.Keys == NameSet(columnNames)
      requires order == seq(numRows, i => i)
      requires charTypeColumnLengths.Keys <= columns.Keys + {name}
      ensures columns == old(columns)[name := Nulls(numRows)] && columnNames == old(columnNames) + [name]
      ensures numCols == old(numCols) + 1 && charTypeColumnLengths == old(charTypeColumnLengths)
      ensures numRows == old(numRows) && order == old(order)
      ensures Wellformed()
      ensures name !in old(columnNames) && old(NoRepeats(columnNames) && Rectangular()) ==> NoRepeats(columnNames) && Rectangular()
    {
      var cells := NullColumn();
      columns := columns[name := cells];
      assert NameSet(columnNames + [name]) == NameSet(columnNames) + {name};
      columnNames := columnNames + [name];
      numCols := numCols + 1;
    }

    /** insertRow(row): every listed column gains the row's cell (null when
        the row names no such column), and the row's number is recorded. */
    method InsertRow(row: Row)
      modifies this
      requires Wellformed()
      ensures columns == AppendRow(old(columns), columnNames, row)
      ensures order == old(order) + [old(numRows)] && numRows == old(numRows) + 1
      ensures columnNames == old(columnNames) && numCols == old(numCols)
      ensures charTypeColumnLengths == old(charTypeColumnLengths)
      ensures Wellformed()
      ensures NoRepeats(columnNames) && old(Rectangular()) ==> Rectangular()
    {
      ghost var before := columns;
      ghost var wasRectangular := Rectangular();
      AppendCells(row);
      AppendRowKeys(before, columnNames, row);
      if NoRepeats(columnNames) && wasRectangular {
        RowKeepsRectangular(before, columnNames, numRows, row);
      }
      OrderStep(numRows);
      order := order + [numRows];
      numRows := numRows + 1;
    }

    /** The loop of insertRow: one cell pushed onto each named column. */
    method AppendCells(row: Row)
      modifies this
      ensures columns == AppendRow(old(columns), columnNames, row)
      ensures columnNames == old(columnNames) && numCols == old(numCols) && numRows == old(numRows)
      ensures order == old(order) && charTypeColumnLengths == old(charTypeColumnLengths)
    {
      var k := 0;
      while k < |columnNames|
        invariant 0 <= k <= |columnNames|
        invariant columns == AppendRow(old(columns), columnNames[..k], row)
        invariant columnNames == old(columnNames) && numCols == old(numCols) && numRows == old(numRows)
        invariant order == old(order) && charTypeColumnLengths == old(charTypeColumnLengths)
      {
        AppendRowStep(old(columns), columnNames, k, row);
        var name := columnNames[k];
        var cell := CellOf(row, name);
        columns := columns[name := ColumnAt(columns, name) + [cell]];
        k := k + 1;
      }
      assert columnNames[..k] == columnNames;
    }

    /** getCharTypeLength(name): the recorded length of a listed CHAR or
        VARCHAR column; any other name stops the program. */
    function GetCharTypeLength(name: string): (r: Result<int>)
      reads this
      ensures r.Success? <==> ColumnNameExists(name) && name in charTypeColumnLengths
      ensures r.Success? ==> r.value == charTypeColumnLengths[name]
    {
      if !ColumnNameExists(name) || name !in charTypeColumnLengths then Failure(UnknownColumn)
      else Success(charTypeColumnLengths[name])
    }
  }

  /** validDatatype: the type name is one of the supported ones. */
  predicate ValidDatatype(dataType: string)
  {
    dataType in SupportedDatatypes
  }

  /** validDatatype's search through the supported names. */
  method IsSupported(dataType: string) returns (ok: bool)
    ensures ok <==> ValidDatatype(dataType)
  {
    var i := 0;
    while i < |SupportedDatatypes|
      invariant 0 <= i <= |SupportedDatatypes|
      invariant forall j :: 0 <= j < i ==> SupportedDatatypes[j] != dataType
    {
      if SupportedDatatypes[i] == dataType {
        return true;
      }
      i := i + 1;
    }
    return false;
  }

  /** On a well-formed table the two validity checks pass exactly when no
      column name is listed twice and every named column has numRows cells. */
  lemma ValidityChecks(t: Table)
    requires t.Wellformed()
    ensures t.ColumnNamesValid() <==> NoRepeats(t.columnNames)
    ensures t.TableValid() <==> NoRepeats(t.columnNames) && t.Rectangular()
  {
    NameSetSize(t.columnNames);
    assert |t.columns| == |t.columns.Keys|;
  }

  /** Inserting a column under a new name, or a row, keeps a valid table
      valid; inserting under a name already listed makes it invalid. */
  lemma InsertKeepsValid(
      columns: map<string, seq<Types>>, names: seq<string>, numRows: nat, name: string, row: Row)
    requires columns.Keys == NameSet(names)
    requires NoRepeats(names) && forall n :: n in names ==> |columns[n]| == numRows
    ensures name !in names ==> NoRepeats(names + [name])
    ensures name !in names ==> forall n :: n in names + [name] ==> |columns[name := Nulls(numRows)][n]| == numRows
    ensures name in names ==> !NoRepeats(names + [name])
    ensures forall n :: n in names ==> n in AppendRow(columns, names, row) && |AppendRow(columns, names, row)[n]| == numRows + 1
  {
    AppendRowDistinct(columns, names, row);
    if name in names {
      var i :| 0 <= i < |names| && names[i] == name;
      assert (names + [name])[i] == (names + [name])[|names|];
    }
  }

  /** Two columns and a row naming only the first: the second gains a null. */
  lemma InsertScenario()
    ensures var columns := map["a" := Nulls(0), "b" := Nulls(0)];
      var after := AppendRow(columns, ["a", "b"], map["a" := IntCell(1)]);
      after["a"] == [IntCell(1)] && after["b"] == [NullCell]
  {
    var columns := map["a" := Nulls(0), "b" := Nulls(0)];
    assert NoRepeats(["a", "b"]);
    AppendRowDistinct(columns, ["a", "b"], map["a" := IntCell(1)]);
  }
}
