/** The node and edge merges, unbatched and batched: load all files onto the unified
    schema, then write one output row per distinct key. A query the engine refuses (a
    missing grouping column, a `name` column without `provided_by`) is reported and
    leaves no output; a zero batch size raises before any batch runs. */
module Merges {
  import opened Wrappers
  import opened Seqs
  import opened Strings
  import opened Tables
  import opened Loader
  import opened Aggregate
  import opened Windows

  datatype MergeError =
    | MissingColumn(column: string)  // the engine cannot bind a column the query names
    | ZeroBatchSize                  // `range(.., .., 0)` raises

  /** The first key column the loaded table lacks, if any. */
  function MissingKeyColumn(kind: Kind, cols: seq<string>): (r: Option<string>)
    ensures r.None? <==> HasKeyColumns(kind, cols)
    ensures r.Some? ==> r.value in KeyColumns(kind) && r.value !in cols
  {
    var kc := KeyColumns(kind);
    if kc[0] !in cols then Some(kc[0])
    else if |kc| > 1 && kc[1] !in cols then Some(kc[1])
    else if |kc| > 2 && kc[2] !in cols then Some(kc[2])
    else None
  }

  /** The name rule reads `provided_by`; without that column it cannot be bound. */
  predicate NeedsProvidedBy(kind: Kind, cols: seq<string>) {
    kind == Nodes && NameColumn in cols && ProvidedByColumn !in cols
  }

  /** The columns excluded while loading: an edge's own `id` is dropped. */
  function Excluded(kind: Kind): seq<string> {
    match kind
    case Nodes => []
    case Edges => ["id"]
  }

  /** The header of the merged file: a node file keeps the unified column order; an edge
      file puts subject, predicate, object first and the other columns after them. */
  function OutputColumns(kind: Kind, cols: seq<string>): (h: seq<string>)
    requires HasKeyColumns(kind, cols)
    ensures forall c :: c in h <==> c in cols
    ensures kind == Edges ==> |h| >= 3 && h[..3] == KeyColumns(Edges) && forall i :: 3 <= i < |h| ==> h[i] !in KeyColumns(Edges)
    ensures kind == Edges && StrictlySorted(cols) ==> StrictlySorted(h[3..])
  {
    match kind
    case Nodes => cols
    case Edges =>
      var rest := Without(cols, KeyColumns(Edges));
      var h := KeyColumns(Edges) + rest;
      assert h[..3] == KeyColumns(Edges) && h[3..] == rest;
      assert forall i :: 3 <= i < |h| ==> h[i] in rest;
      h
  }

  /** The written file of a successful merge: its header, then one line per row. */
  function Written(kind: Kind, cols: seq<string>, rows: Table): seq<Line>
    requires HasKeyColumns(kind, cols)
  {
    [Header(OutputColumns(kind, cols))] + DataLines(rows)
  }

  // ---------------------------------------------------------------------------
  // Unbatched merges.

  /** `duckdb_nodes_merge` with the priority list quoted as a valid SQL list (see module
      SqlLiteral for the text as written): GROUP BY id ORDER BY id over all rows, joined
      columns without ORDER BY. */
  function NodesMerge(files: seq<SourceFile>, prio: seq<string>): Result<seq<Line>, MergeError> {
    var cols := UnifiedColumns(files, Excluded(Nodes));
    var missing := MissingKeyColumn(Nodes, cols);
    if missing.Some? then Failure(MissingColumn(missing.value))
    else if NeedsProvidedBy(Nodes, cols) then Failure(MissingColumn(ProvidedByColumn))
    else Success(Written(Nodes, cols, MergeGroups(Nodes, cols, LoadedRows(files, cols), prio, Unordered)))
  }

  /** `duckdb_edges_merge`: `id` dropped, GROUP BY and ORDER BY subject, predicate, object,
      every other column joined in ascending order. */
  function EdgesMerge(files: seq<SourceFile>): Result<seq<Line>, MergeError> {
    var cols := UnifiedColumns(files, Excluded(Edges));
    var missing := MissingKeyColumn(Edges, cols);
    if missing.Some? then Failure(MissingColumn(missing.value))
    else Success(Written(Edges, cols, MergeGroups(Edges, cols, LoadedRows(files, cols), [], Sorted)))
  }

  /** The unbatched merges' drivers: load, check the columns the query binds, aggregate. */
  method DuckdbNodesMerge(files: seq<SourceFile>, prio: seq<string>) returns (out: Result<seq<Line>, MergeError>)
    ensures out == NodesMerge(files, prio)
  {
    var cols, table := LoadIntoDuckdb(files, Excluded(Nodes));
    var missing := MissingKeyColumn(Nodes, cols);
    if missing.Some? {
      return Failure(MissingColumn(missing.value));
    }
    if NeedsProvidedBy(Nodes, cols) {
      return Failure(MissingColumn(ProvidedByColumn));
    }
    out := Success(Written(Nodes, cols, MergeGroups(Nodes, cols, table, prio, Unordered)));
  }

  method DuckdbEdgesMerge(files: seq<SourceFile>) returns (out: Result<seq<Line>, MergeError>)
    ensures out == EdgesMerge(files)
  {
    var cols, table := LoadIntoDuckdb(files, Excluded(Edges));
    var missing := MissingKeyColumn(Edges, cols);
    if missing.Some? {
      return Failure(MissingColumn(missing.value));
    }
    out := Success(Written(Edges, cols, MergeGroups(Edges, cols, table, [], Sorted)));
  }

  /** A written merge holds its header first and then exactly one data line per key of
      `ks`, carrying that key, in the order of `ks`; no other header. */
  lemma WrittenOneLinePerKey(kind: Kind, cols: seq<string>, t: Table, ks: seq<Key>, prio: seq<string>, ord: Order)
    requires HasKeyColumns(kind, cols)
    requires forall k :: k in ks ==> Occurs(kind, t, k)
    ensures var lines := Written(kind, cols, MergeOver(kind, cols, t, ks, prio, ord));
            && |lines| == |ks| + 1
            && lines[0] == Header(OutputColumns(kind, cols))
            && (forall i :: 1 <= i < |lines| ==> lines[i].Data? && KeyOf(kind, lines[i].row) == ks[i - 1])
  {
    var rows := MergeOver(kind, cols, t, ks, prio, ord);
    MergeOverKeys(kind, cols, t, ks, prio, ord);
    WrittenKeys(kind, cols, rows, ks);
  }

  lemma WrittenKeys(kind: Kind, cols: seq<string>, rows: Table, ks: seq<Key>)
    requires HasKeyColumns(kind, cols) && |rows| == |ks|
    requires forall i :: 0 <= i < |ks| ==> KeyOf(kind, rows[i]) == ks[i]
    ensures var lines := Written(kind, cols, rows);
            && |lines| == |ks| + 1
            && lines[0] == Header(OutputColumns(kind, cols))
            && (forall i :: 1 <= i < |lines| ==> lines[i].Data? && KeyOf(kind, lines[i].row) == ks[i - 1])
  {
    var lines := Written(kind, cols, rows);
    var data := DataLines(rows);
    assert lines == [Header(OutputColumns(kind, cols))] + data;
    forall i | 1 <= i < |lines| ensures lines[i].Data? && KeyOf(kind, lines[i].row) == ks[i - 1] {
      assert lines[i] == data[i - 1] == Data(rows[i - 1]);
    }
  }

  /** The unbatched node merge writes the header and one line per distinct id, ascending. */
  lemma NodesMergeOneLinePerId(files: seq<SourceFile>, prio: seq<string>)
    requires NodesMerge(files, prio).Success?
    ensures var lines := NodesMerge(files, prio).value;
            var cols := UnifiedColumns(files, Excluded(Nodes));
            var ks := DistinctKeys(Nodes, LoadedRows(files, cols));
            && |lines| == |ks| + 1
            && lines[0] == Header(cols)
            && (forall i :: 1 <= i < |lines| ==> lines[i].Data? && KeyOf(Nodes, lines[i].row) == ks[i - 1])
  {
    var cols := UnifiedColumns(files, Excluded(Nodes));
    var t := LoadedRows(files, cols);
    WrittenOneLinePerKey(Nodes, cols, t, DistinctKeys(Nodes, t), prio, Unordered);
  }

  /** The unbatched edge merge writes the header and one line per distinct
      (subject, predicate, object), ascending. */
  lemma EdgesMergeOneLinePerTriple(files: seq<SourceFile>)
    requires EdgesMerge(files).Success?
    ensures var lines := EdgesMerge(files).value;
            var cols := UnifiedColumns(files, Excluded(Edges));
            var ks := DistinctKeys(Edges, LoadedRows(files, cols));
            && |lines| == |ks| + 1
            && lines[0] == Header(OutputColumns(Edges, cols))
            && (forall i :: 1 <= i < |lines| ==> lines[i].Data? && KeyOf(Edges, lines[i].row) == ks[i - 1])
  {
    var cols := UnifiedColumns(files, Excluded(Edges));
    var t := LoadedRows(files, cols);
    WrittenOneLinePerKey(Edges, cols, t, DistinctKeys(Edges, t), [], Sorted);
  }

  // ---------------------------------------------------------------------------
  // Batched merges.

  /** The rows that survive `JOIN batch USING (key)`: their key is in the window and has
      no NULL cell, since NULL never equals anything in a join. */
  function JoinWindow(kind: Kind, t: Table, window: seq<Key>): (r: Table)
    ensures forall x :: x in r <==> x in t && KeyOf(kind, x) in window && !HasNull(KeyOf(kind, x))
  {
    if |t| == 0 then []
    else
      var k := KeyOf(kind, t[0]);
      (if k in window && !HasNull(k) then [t[0]] else []) + JoinWindow(kind, t[1..], window)
  }

  /** A key kept by the join keeps its whole group. */
  lemma {:induction false} GroupOfJoinWindow(kind: Kind, t: Table, window: seq<Key>, k: Key)
    requires k in window && !HasNull(k)
    ensures GroupOf(kind, JoinWindow(kind, t, window), k) == GroupOf(kind, t, k)
  {
    if |t| > 0 {
      GroupOfJoinWindow(kind, t[1..], window, k);
      var k0 := KeyOf(kind, t[0]);
      if k0 in window && !HasNull(k0) {
        assert JoinWindow(kind, t, window) == [t[0]] + JoinWindow(kind, t[1..], window);
        assert ([t[0]] + JoinWindow(kind, t[1..], window))[1..] == JoinWindow(kind, t[1..], window);
      } else {
        assert JoinWindow(kind, t, window) == JoinWindow(kind, t[1..], window);
        assert GroupOf(kind, t, k) == GroupOf(kind, t[1..], k);
      }
    }
  }

  lemma SliceSorted(ks: seq<Key>, lo: int, hi: int)
    requires KeysSorted(ks) && 0 <= lo <= hi <= |ks|
    ensures KeysSorted(ks[lo..hi])
  {
    assert forall i :: 0 <= i < hi - lo ==> ks[lo..hi][i] == ks[lo + i];
  }

  /** One batch query over rows lo+1..hi equals that stretch of the global sorted merge,
      without the keys that hold a NULL. */
  lemma {:induction false} WindowQuery(kind: Kind, cols: seq<string>, t: Table, lo: int, hi: int, prio: seq<string>)
    requires 0 <= lo <= hi <= |DistinctKeys(kind, t)|
    ensures var window := DistinctKeys(kind, t)[lo..hi];
            MergeGroups(kind, cols, JoinWindow(kind, t, window), prio, Sorted) ==
            MergeOver(kind, cols, t, NonNullKeys(window), prio, Sorted)
  {
    var ks := DistinctKeys(kind, t);
    var window := ks[lo..hi];
    var joined := JoinWindow(kind, t, window);
    SliceSorted(ks, lo, hi);
    var kept := NonNullKeys(window);
    NonNullKeysSorted(window);
    forall k ensures k in DistinctKeys(kind, joined) <==> k in kept {
      if k in kept {
        assert k in ks;
        var x :| x in t && KeyOf(kind, x) == k;
        assert x in joined;
      }
    }
    SortedKeysUnique(DistinctKeys(kind, joined), kept);
    forall i | 0 <= i < |kept|
      ensures GroupOf(kind, joined, kept[i]) == GroupOf(kind, t, kept[i])
    {
      assert kept[i] in kept;
      GroupOfJoinWindow(kind, t, window, kept[i]);
    }
  }

  /** The file after the batches that cover the first `n` keys. */
  function WrittenUpTo(kind: Kind, cols: seq<string>, t: Table, p: seq<string>, n: int): seq<Line>
    requires HasKeyColumns(kind, cols) && 0 <= n <= |DistinctKeys(kind, t)|
  {
    Written(kind, cols, MergeOver(kind, cols, t, NonNullKeys(DistinctKeys(kind, t)[..n]), p, Sorted))
  }

  /** Appending the rows for keys done+1..hi extends the file from the first `done` keys
      to the first `hi`; the first batch, with its header, makes the file. */
  lemma {:induction false} BatchExtendsFile(kind: Kind, cols: seq<string>, t: Table, p: seq<string>, done: int, hi: int)
    requires HasKeyColumns(kind, cols) && 0 <= done <= hi <= |DistinctKeys(kind, t)|
    ensures var ks := DistinctKeys(kind, t);
            var batch := MergeOver(kind, cols, t, NonNullKeys(ks[done..hi]), p, Sorted);
            && WrittenUpTo(kind, cols, t, p, done) + DataLines(batch) == WrittenUpTo(kind, cols, t, p, hi)
            && (done == 0 ==> [Header(OutputColumns(kind, cols))] + DataLines(batch) == WrittenUpTo(kind, cols, t, p, hi))
  {
    var ks := DistinctKeys(kind, t);
    var window := ks[done..hi];
    assert ks[..hi] == ks[..done] + window;
    NonNullKeysAppend(ks[..done], window);
    var before := MergeOver(kind, cols, t, NonNullKeys(ks[..done]), p, Sorted);
    var batch := MergeOver(kind, cols, t, NonNullKeys(window), p, Sorted);
    MergeOverAppend(kind, cols, t, NonNullKeys(ks[..done]), NonNullKeys(window), p, Sorted);
    assert MergeOver(kind, cols, t, NonNullKeys(ks[..hi]), p, Sorted) == before + batch;
    WrittenExtends(kind, cols, before, batch);
    if done == 0 {
      assert ks[..done] == [];
      assert before == [];
    }
  }

  lemma WrittenExtends(kind: Kind, cols: seq<string>, before: Table, batch: Table)
    requires HasKeyColumns(kind, cols)
    ensures Written(kind, cols, before) + DataLines(batch) == Written(kind, cols, before + batch)
    ensures before == [] ==> Written(kind, cols, before + batch) == [Header(OutputColumns(kind, cols))] + DataLines(batch)
  {
    DataLinesAppend(before, batch);
    if before == [] {
      assert before + batch == batch;
    }
  }

  /** One batch query: the rows of keys lo+1..hi joined back to the table, then grouped
      and ordered by key. */
  method BatchQuery(kind: Kind, cols: seq<string>, table: Table, p: seq<string>, lo: int, hi: int)
    returns (batch: Table)
    requires 0 <= lo <= hi <= |DistinctKeys(kind, table)|
    ensures batch == MergeOver(kind, cols, table, NonNullKeys(DistinctKeys(kind, table)[lo..hi]), p, Sorted)
  {
    var window := DistinctKeys(kind, table)[lo..hi];
    batch := MergeGroups(kind, cols, JoinWindow(kind, table, window), p, Sorted);
    WindowQuery(kind, cols, table, lo, hi, p);
  }

  /** What a batched merge writes, for any positive batch size: the header and then,
      in ascending key order, one row per distinct key without a NULL cell. Keys with a NULL
      still occupy a row number but are dropped by the join. With no key at all no batch
      runs and no file is written; a negative size runs no batch either. */
  function BatchedMerge(kind: Kind, files: seq<SourceFile>, prio: seq<string>, batchSize: int): Result<seq<Line>, MergeError> {
    var cols := UnifiedColumns(files, Excluded(kind));
    var missing := MissingKeyColumn(kind, cols);
    if missing.Some? then Failure(MissingColumn(missing.value))
    else BatchedOver(kind, cols, LoadedRows(files, cols), prio, batchSize)
  }

  /** The batched merge of an already loaded table that has the key columns. */
  function BatchedOver(kind: Kind, cols: seq<string>, t: Table, prio: seq<string>, batchSize: int): Result<seq<Line>, MergeError>
    requires HasKeyColumns(kind, cols)
  {
    if batchSize == 0 then Failure(ZeroBatchSize)
    else
      var ks := DistinctKeys(kind, t);
      if batchSize < 0 || |ks| == 0 then Success([])
      else if NeedsProvidedBy(kind, cols) then Failure(MissingColumn(ProvidedByColumn))
      else Success(Written(kind, cols, MergeOver(kind, cols, t, NonNullKeys(ks), prio, Sorted)))
  }

  /** `duckdb_nodes_merge_batch` (kind Nodes) and `duckdb_edges_merge_batch` (kind Edges):
      load, check the key columns, then run the batches. */
  method DuckdbMergeBatch(kind: Kind, files: seq<SourceFile>, prio: seq<string>, batchSize: int)
    returns (out: Result<seq<Line>, MergeError>)
    ensures out == BatchedMerge(kind, files, if kind == Nodes then prio else [], batchSize)
  {
    var p := if kind == Nodes then prio else [];
    var cols, table := LoadIntoDuckdb(files, Excluded(kind));
    var missing := MissingKeyColumn(kind, cols);
    if missing.Some? {
      return Failure(MissingColumn(missing.value));
    }
    out := RunBatches(kind, cols, table, p, batchSize);
  }

  /** Number the distinct keys, then for each window of `range(1, total + 1, size)` run the
      grouped query on the joined rows; the first batch creates the file with its header,
      every later one appends its rows. Batch invariance: the file is the same for every
      positive batch size. */
  method RunBatches(kind: Kind, cols: seq<string>, table: Table, p: seq<string>, batchSize: int)
    returns (out: Result<seq<Line>, MergeError>)
    requires HasKeyColumns(kind, cols)
    ensures out == BatchedOver(kind, cols, table, p, batchSize)
  {
    var keys := DistinctKeys(kind, table);
    var total := |keys|;
    if batchSize == 0 {
      return Failure(ZeroBatchSize);
    }
    var starts := BatchStarts(total, batchSize);
    if batchSize > 0 {
      WindowWalk(total, batchSize);
    } else {
      NegativeBatchSizeHasNoWindows(total, batchSize);
    }
    var lines: seq<Line> := [];
    var done := 0;
    var w := 0;
    while w < |starts|
      invariant 0 <= w <= |starts| && 0 <= done <= total
      invariant |starts| > 0 ==> batchSize > 0
      invariant w < |starts| ==> starts[w] == done + 1
      invariant w == |starts| && w > 0 ==> done == total
      invariant w == 0 ==> lines == [] && done == 0
      invariant w > 0 ==> !NeedsProvidedBy(kind, cols) && lines == WrittenUpTo(kind, cols, table, p, done)
    {
      var batchStart := starts[w];
      var batchEnd := WindowEnd(batchStart, total, batchSize);
      if NeedsProvidedBy(kind, cols) {
        return Failure(MissingColumn(ProvidedByColumn));
      }
      var batch := BatchQuery(kind, cols, table, p, batchStart - 1, batchEnd);
      BatchExtendsFile(kind, cols, table, p, done, batchEnd);
      if batchStart == 1 {
        lines := [Header(OutputColumns(kind, cols))] + DataLines(batch);
      } else {
        lines := lines + DataLines(batch);
      }
      if w + 1 < |starts| {
        WindowsContiguous(total, batchSize, w);
        assert starts[w + 1] == batchEnd + 1;
      }
      done := batchEnd;
      w := w + 1;
    }
    if |starts| > 0 {
      AllKeysWritten(kind, cols, table, p, batchSize);
    }
    out := Success(lines);
  }

  /** Once the windows have covered every key, the file is the whole batched output. */
  lemma AllKeysWritten(kind: Kind, cols: seq<string>, t: Table, p: seq<string>, batchSize: int)
    requires HasKeyColumns(kind, cols) && batchSize > 0 && |DistinctKeys(kind, t)| > 0 && !NeedsProvidedBy(kind, cols)
    ensures BatchedOver(kind, cols, t, p, batchSize) == Success(WrittenUpTo(kind, cols, t, p, |DistinctKeys(kind, t)|))
  {
    var ks := DistinctKeys(kind, t);
    assert ks[..|ks|] == ks;
  }

  /** Batch invariance against the unbatched edge merge: when some key exists and none
      holds a NULL, the batched file equals the unbatched one. */
  lemma BatchedEdgesMatchUnbatched(files: seq<SourceFile>, batchSize: int)
    requires batchSize > 0
    requires var cols := UnifiedColumns(files, Excluded(Edges));
             var ks := DistinctKeys(Edges, LoadedRows(files, cols));
             |ks| > 0 && forall k :: k in ks ==> !HasNull(k)
    ensures BatchedMerge(Edges, files, [], batchSize) == EdgesMerge(files)
  {
    var cols := UnifiedColumns(files, Excluded(Edges));
    NonNullKeysIdentity(DistinctKeys(Edges, LoadedRows(files, cols)));
  }

  /** The batched and the unbatched node merge agree on ids, names and every pass-through
      cell, and on which joined cells are NULL and which `|`-parts they hold; they differ
      at most in the order of those parts, when neither file is empty and no id is NULL. */
  lemma {:induction false} BatchedNodesAgreeWithUnbatched(files: seq<SourceFile>, prio: seq<string>, batchSize: int)
    requires batchSize > 0 && NodesMerge(files, prio).Success?
    requires var cols := UnifiedColumns(files, Excluded(Nodes));
             var ks := DistinctKeys(Nodes, LoadedRows(files, cols));
             |ks| > 0 && forall k :: k in ks ==> !HasNull(k)
    ensures BatchedMerge(Nodes, files, prio, batchSize).Success?
    ensures LinesAgree(BatchedMerge(Nodes, files, prio, batchSize).value, NodesMerge(files, prio).value)
  {
    var cols := UnifiedColumns(files, Excluded(Nodes));
    var t := LoadedRows(files, cols);
    var ks := DistinctKeys(Nodes, t);
    NonNullKeysIdentity(ks);
    var rs := MergeOver(Nodes, cols, t, ks, prio, Sorted);
    var ru := MergeOver(Nodes, cols, t, ks, prio, Unordered);
    assert BatchedMerge(Nodes, files, prio, batchSize) == Success(Written(Nodes, cols, rs));
    assert NodesMerge(files, prio) == Success(Written(Nodes, cols, ru));
    RowsAgree(cols, t, ks, prio, rs, ru);
    WrittenAgree(cols, rs, ru);
  }

  /** The sorted and the unordered node aggregation agree cell by cell. */
  lemma RowsAgree(cols: seq<string>, t: Table, ks: seq<Key>, prio: seq<string>, rs: Table, ru: Table)
    requires rs == MergeOver(Nodes, cols, t, ks, prio, Sorted)
    requires ru == MergeOver(Nodes, cols, t, ks, prio, Unordered)
    ensures |rs| == |ru|
    ensures forall i :: 0 <= i < |rs| ==> rs[i].Keys == ru[i].Keys
    ensures forall i, c :: 0 <= i < |rs| && c in rs[i] ==> CellsAgree(rs[i], ru[i], c)
  {
    forall i, c | 0 <= i < |rs| && c in rs[i] ensures CellsAgree(rs[i], ru[i], c) {
      UnorderedAgreesWithSorted(Nodes, cols, GroupOf(Nodes, t, ks[i]), prio, c);
    }
  }

  /** Cell `c` of two node rows agrees as far as the order of joined parts allows: equal
      unless joined, NULL together, and with the same set of `|`-parts. */
  ghost predicate CellsAgree(b: Row, u: Row, c: string)
    requires c in b
  {
    && c in u
    && (PolicyOf(Nodes, c) != DistinctJoin ==> b[c] == u[c])
    && (b[c].None? <==> u[c].None?)
    && (b[c].Some? && u[c].Some? ==>
          forall y :: y in Split(b[c].value, Separator) <==> y in Split(u[c].value, Separator))
  }

  /** Two node files agree: the same header, then data lines with the same columns,
      pairwise agreeing on every cell. */
  ghost predicate LinesAgree(b: seq<Line>, u: seq<Line>) {
    && |b| == |u| && |b| > 0 && b[0] == u[0]
    && forall i :: 1 <= i < |b| ==>
         && b[i].Data? && u[i].Data?
         && b[i].row.Keys == u[i].row.Keys
         && forall c :: c in b[i].row ==> CellsAgree(b[i].row, u[i].row, c)
  }

  lemma WrittenAgree(cols: seq<string>, rs: Table, ru: Table)
    requires HasKeyColumns(Nodes, cols) && |rs| == |ru|
    requires forall i :: 0 <= i < |rs| ==> rs[i].Keys == ru[i].Keys
    requires forall i, c :: 0 <= i < |rs| && c in rs[i] ==> CellsAgree(rs[i], ru[i], c)
    ensures LinesAgree(Written(Nodes, cols, rs), Written(Nodes, cols, ru))
  {
    var b, u := Written(Nodes, cols, rs), Written(Nodes, cols, ru);
    forall i | 1 <= i < |b|
      ensures b[i].Data? && u[i].Data? && b[i].row.Keys == u[i].row.Keys
      ensures forall c :: c in b[i].row ==> CellsAgree(b[i].row, u[i].row, c)
    {
      assert b[i] == Data(rs[i - 1]) && u[i] == Data(ru[i - 1]);
    }
  }
}
