/** The schema unifier and table loader (`load_into_duckdb`): the unified column list is
    the sorted union of all file headers minus the excluded columns, and every file row is
    projected onto it with NULL for the columns its file lacks. */
module Loader {
  import opened Wrappers
  import opened Seqs
  import opened Strings
  import opened Tables

  /** A parsed tab-separated input file: its path, its header and its rows. */
  datatype SourceFile = SourceFile(path: string, header: seq<string>, rows: seq<Row>)

  /** Column `c` is in the header of some file. */
  predicate InSomeHeader(files: seq<SourceFile>, c: string) {
    exists i :: 0 <= i < |files| && c in files[i].header
  }

  function Headers(files: seq<SourceFile>): (r: seq<seq<string>>)
    ensures |r| == |files| && forall i :: 0 <= i < |files| ==> r[i] == files[i].header
  {
    seq(|files|, i requires 0 <= i < |files| => files[i].header)
  }

  /** The unified column list: every column of every header, once, ascending, except
      those in `exclude`. */
  function UnifiedColumns(files: seq<SourceFile>, exclude: seq<string>): (r: seq<string>)
    ensures StrictlySorted(r)
    ensures forall c :: c in r <==> InSomeHeader(files, c) && c !in exclude
  {
    var all := Flatten(Headers(files));
    Without(SortDistinct(all), exclude)
  }

  /** A file row re-projected onto the unified columns:
      `SELECT "c" | NULL AS "c", ..` for one row. */
  function ProjectRow(r: Row, header: seq<string>, cols: seq<string>): Row {
    map c | c in cols :: if c in header then Get(r, c) else None
  }

  function ProjectRows(rows: seq<Row>, header: seq<string>, cols: seq<string>): (t: Table)
    ensures |t| == |rows|
  {
    seq(|rows|, i requires 0 <= i < |rows| => ProjectRow(rows[i], header, cols))
  }

  /** The rows of all files, file after file, each projected onto `cols`. */
  function LoadedRows(files: seq<SourceFile>, cols: seq<string>): Table {
    if |files| == 0 then []
    else
      var n := |files| - 1;
      LoadedRows(files[..n], cols) + ProjectRows(files[n].rows, files[n].header, cols)
  }

  /** The number of data rows of all files together. */
  function TotalRows(files: seq<SourceFile>): nat {
    if |files| == 0 then 0 else TotalRows(files[..|files| - 1]) + |files[|files| - 1].rows|
  }

  /** Row conservation: the loaded table has exactly as many rows as the files together. */
  lemma {:induction false} LoadedRowsCount(files: seq<SourceFile>, cols: seq<string>)
    ensures |LoadedRows(files, cols)| == TotalRows(files)
    decreases |files|
  {
    if |files| > 0 {
      LoadedRowsCount(files[..|files| - 1], cols);
    }
  }

  /** Row j of file i is loaded at position TotalRows(files[..i]) + j, with exactly the
      unified columns: its own cell where its file has the column, NULL elsewhere. */
  lemma {:induction false} LoadedRowAt(files: seq<SourceFile>, cols: seq<string>, i: nat, j: nat)
    requires i < |files| && j < |files[i].rows|
    ensures TotalRows(files[..i]) + j < |LoadedRows(files, cols)|
    ensures var row := LoadedRows(files, cols)[TotalRows(files[..i]) + j];
            && row.Keys == (set c | c in cols)
            && forall c :: c in cols ==>
                 row[c] == (if c in files[i].header then Get(files[i].rows[j], c) else None)
    decreases |files|
  {
    var n := |files| - 1;
    LoadedRowsCount(files[..n], cols);
    LoadedRowsCount(files, cols);
    if i < n {
      assert files[..n][..i] == files[..i];
      LoadedRowAt(files[..n], cols, i, j);
      assert files[..n][i] == files[i];
    } else {
      assert files[..i] == files[..n];
    }
  }

  /** `load_into_duckdb`: probes every header, unions and sorts the columns, drops the
      excluded ones, then appends every file's rows projected onto the result. */
  method LoadIntoDuckdb(files: seq<SourceFile>, exclude: seq<string>)
    returns (columns: seq<string>, table: Table)
    ensures columns == UnifiedColumns(files, exclude)
    ensures table == LoadedRows(files, columns)
  {
    var allColumnsSet: set<string> := {};
    var fileColumns: seq<seq<string>> := [];
    var i := 0;
    while i < |files|
      invariant 0 <= i <= |files|
      invariant |fileColumns| == i && forall k :: 0 <= k < i ==> fileColumns[k] == files[k].header
      invariant forall c :: c in allColumnsSet <==> exists k :: 0 <= k < i && c in files[k].header
    {
      fileColumns := fileColumns + [files[i].header];
      allColumnsSet := allColumnsSet + (set c | c in files[i].header);
      i := i + 1;
    }
    var allColumns := SortSet(allColumnsSet);
    StrictlySortedUnique(allColumns, SortDistinct(Flatten(Headers(files))));
    columns := Without(allColumns, exclude);

    table := [];
    i := 0;
    while i < |files|
      invariant 0 <= i <= |files|
      invariant table == LoadedRows(files[..i], columns)
    {
      assert files[..i + 1][..i] == files[..i];
      table := table + ProjectRows(files[i].rows, fileColumns[i], columns);
      i := i + 1;
    }
    assert files[..i] == files;
  }
}
