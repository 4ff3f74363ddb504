# kg-microbe-merge: the DuckDB merge core in Dafny

This project models the merge core of kg-microbe-merge. That core combines several KGX
tab-separated node or edge files into one deduplicated knowledge graph. It has these parts:

- **Schema unifier and loader (`load_into_duckdb`).** It unions and sorts all file headers,
  drops the excluded columns, and appends every file's rows onto that schema, with NULL in
  the columns a file lacks.
- **Node merge (`duckdb_nodes_merge`, `duckdb_nodes_merge_batch`).** It writes one row per
  distinct `id`, in ascending order.
  - `name` is priority-resolved: the greatest name among rows whose `provided_by` is a
    priority source, else the greatest name overall.
  - Every other column becomes its distinct non-NULL values joined with `|`.
- **Edge merge (`duckdb_edges_merge`, `duckdb_edges_merge_batch`).** It drops the edge `id`
  and writes one row per distinct (subject, predicate, object), in ascending order. Every
  other column is joined with `|` in ascending order.
- **Batch scheduler.** The distinct keys are numbered 1..N in key order. Windows
  `[s, s + B - 1]` for `s` in `range(1, N + 1, B)` are processed in turn. The first window
  creates the file with its header; later windows append without one.
- **Two-source base-priority merge (`merge_kg_tables`, `get_table_duplicates`,
  `add_column`).** It tags each row with its source table and stacks the subset table
  beneath the base table. It ranks rows per key with base rows first. Rank 1 rows form the
  merged table; the rest form the duplicate table.
- **Priority-source discovery (`duckdb_merge` in `merge.py`).** For each node file whose path
  mentions `ontologies` and ends in `.tsv`, it takes the first non-empty `provided_by`.
- **Dangling-edge check (`edge_vs_node_check.py`).** It finds the distinct edge endpoints
  that are no node id and lists them. It also guesses a category for each from its prefix.

Representation:

- Values are `Option<string>`, where `None` is SQL NULL.
- A row is a map from column name to value, and a table is a sequence of rows.
- A written file is a sequence of `Header`/`Data` lines.
- String order is code-point lexicographic. Key order compares component by component,
  with NULLs last.
- File reading, the SQL text the drivers build, and the engine are not modelled. What
  remains is the meaning of each query, stated as functions, with the drivers' loops as
  methods proved against them.

Modules:

- `Wrappers` holds `Option` and `Result`.
- `Seqs`, `Strings` and `Tables` hold the sequence, string and key helpers.
- `Loader` models the schema unifier and loader.
- `Aggregate` is the group engine shared by both merges.
- `Windows` is the batch scheduler.
- `Merges` holds the four merge drivers.
- `TwoSource` is the two-source merge.
- `Priority` is priority-source discovery.
- `Dangling` is the dangling-edge check.
- `SqlLiteral` holds the quoting of the priority list.

## Model

| member | source | states |
|---|---|---|
| Loader.UnifiedColumns | kg_microbe_merge/utils/duckdb_utils.py:224-238 | the unified schema is ascending, has no repeats, and holds exactly the columns of some header that are not excluded |
| Loader.LoadIntoDuckdb | kg_microbe_merge/utils/duckdb_utils.py:215-262 | the header probe, sort and exclusion loop returns the unified columns; the insert loop returns every file's rows, file after file, projected onto them |
| Loader.LoadedRowsCount | kg_microbe_merge/utils/duckdb_utils.py:249-262 | the loaded table has exactly as many rows as all files together |
| Loader.LoadedRowAt | kg_microbe_merge/utils/duckdb_utils.py:249-262 | row j of file i sits at offset (rows of earlier files) + j; it has exactly the unified columns, its own cell where its file has the column, and NULL elsewhere |
| Strings.SortSet | kg_microbe_merge/utils/duckdb_utils.py:235 | `sorted(set)` returns the set's elements ascending without repeats |
| Aggregate.DistinctKeys | kg_microbe_merge/utils/duckdb_utils.py:391-395 | the distinct keys are ascending (NULLs last) and are exactly the keys of the table's rows |
| Aggregate.PriorityName | kg_microbe_merge/utils/duckdb_utils.py:301-303 | if a prioritised row has a name, the result is such a name and no smaller than any of them; otherwise it is the greatest name of the group, and NULL exactly when no row has a name |
| Aggregate.JoinDistinct | kg_microbe_merge/utils/duckdb_utils.py:378-379 | NULL exactly when there is no non-NULL value; otherwise the pipe-separated parts are distinct, are exactly the values, and are ascending for an ordered aggregate |
| Aggregate.MergeGroupsOneRowPerKey | kg_microbe_merge/utils/duckdb_utils.py:316-321 | GROUP BY key ORDER BY key yields one row per distinct key that carries that key; keys are strictly ascending and every input key appears |
| Aggregate.KeyCellsCopied | kg_microbe_merge/utils/duckdb_utils.py:300 | an output key cell equals that cell of every row of its group |
| Aggregate.NodeNameRule | kg_microbe_merge/utils/duckdb_utils.py:301-303 | the name rule for output row i, stated over the input rows with that id, both for the prioritised case and the fallback case |
| Aggregate.DistinctJoinRule | kg_microbe_merge/utils/duckdb_utils.py:304 | a joined cell is NULL exactly when the whole group is NULL there; otherwise its parts are exactly the group's distinct non-NULL values, each once, ascending when ordered |
| Aggregate.UnorderedAgreesWithSorted | kg_microbe_merge/utils/duckdb_utils.py:304 | the aggregate without ORDER BY agrees with the ordered one on key and name cells, on NULL-ness, and on the set of pipe-separated parts, even for values that hold a pipe |
| Aggregate.MergeGroupsIgnoresRowOrder | kg_microbe_merge/utils/duckdb_utils.py:474-481 | the ordered merge depends only on which rows the table holds, not on their order or repetition (deterministic output) |
| Merges.MissingKeyColumn | kg_microbe_merge/utils/duckdb_utils.py:474-480 | no column is reported missing exactly when all key columns the GROUP BY binds are loaded (`id` for nodes, the edge triple here); a reported column is a key column the table lacks |
| Merges.OutputColumns | kg_microbe_merge/utils/duckdb_utils.py:474-477 | the header has exactly the loaded columns; an edge header starts with subject, predicate, object, and the rest keep the sorted order |
| Merges.DuckdbNodesMerge | kg_microbe_merge/utils/duckdb_utils.py:268-328 | the unbatched node driver returns exactly the corrected node merge, including the missing-column failures |
| Merges.DuckdbEdgesMerge | kg_microbe_merge/utils/duckdb_utils.py:437-488 | the unbatched edge driver, with `id` excluded, returns exactly the edge merge |
| Merges.NodesMergeOneLinePerId | kg_microbe_merge/utils/duckdb_utils.py:316-328 | a successful node merge writes the header and then one line per distinct id, in ascending order |
| Merges.EdgesMergeOneLinePerTriple | kg_microbe_merge/utils/duckdb_utils.py:474-488 | a successful edge merge writes the header of subject, predicate, object and the other columns, then one line per distinct (subject, predicate, object), in ascending order |
| Merges.JoinWindow | kg_microbe_merge/utils/duckdb_utils.py:404-409 | the join keeps exactly the rows whose key is in the window and has no NULL |
| Merges.GroupOfJoinWindow | kg_microbe_merge/utils/duckdb_utils.py:409 | a key the join keeps keeps its whole group |
| Merges.WindowQuery | kg_microbe_merge/utils/duckdb_utils.py:403-411 | one batch query over rows lo+1..hi equals that stretch of the global ordered merge, less the keys holding a NULL |
| Merges.BatchExtendsFile | kg_microbe_merge/utils/duckdb_utils.py:415-423 | appending a batch's rows extends the file for the first `done` keys to the file for the first `hi`; the first batch with its header creates it |
| Merges.BatchQuery | kg_microbe_merge/utils/duckdb_utils.py:556-569 | the batch query returns the merged rows of its window's non-NULL keys, in key order |
| Merges.DuckdbMergeBatch | kg_microbe_merge/utils/duckdb_utils.py:340-425 | the batched node and edge drivers return exactly the batched merge's result, including the error paths |
| Merges.RunBatches | kg_microbe_merge/utils/duckdb_utils.py:540-582 | the batch loop computes: a zero size fails; a negative size or no keys writes nothing; a name without provided_by fails at the first batch; otherwise the header and one row per non-NULL key, for every batch size |
| Merges.BatchedEdgesMatchUnbatched | kg_microbe_merge/utils/duckdb_utils.py:552-582 | batch invariance: with at least one key and no NULL key, the batched edge file equals the unbatched one for every positive batch size |
| Merges.BatchedNodesAgreeWithUnbatched | kg_microbe_merge/utils/duckdb_utils.py:401-423 | the batched node file has the same length and header as the unbatched one, the same columns on every line and the same cells, except the order of parts in joined cells: joined cells are NULL together and split into the same set of pipe-separated parts |
| Windows.PyRangeShape | kg_microbe_merge/utils/duckdb_utils.py:401 | `range(start, stop, step)`: element i is start + i·step, every element is before stop, and the next would not be |
| Windows.BatchStartsShape | kg_microbe_merge/utils/duckdb_utils.py:401-415 | no window if N < 1; window w starts at 1 + w·B within 1..N; only the first starts at row 1 (the one with a header); the last ends at N |
| Windows.NegativeBatchSizeHasNoWindows | kg_microbe_merge/utils/duckdb_utils.py:401 | a negative batch size yields no window |
| Windows.EachRankInExactlyOneWindow | kg_microbe_merge/utils/duckdb_utils.py:401-405 | every row number 1..N lies in exactly one window, number (rank − 1) / B |
| Windows.WindowsContiguous | kg_microbe_merge/utils/duckdb_utils.py:401-405 | each window starts right after the previous one ends |
| TwoSource.AddColumn | kg_microbe_merge/utils/duckdb_utils.py:35-44 | the tagged table keeps every row, with the new column set to the tag and every other cell unchanged |
| TwoSource.Combined | kg_microbe_merge/utils/duckdb_utils.py:102-113 | base rows come first, tagged with the base name, cells unchanged; subset rows follow, tagged with the subset name and projected onto the shared columns |
| TwoSource.CanonicalArrangement | kg_microbe_merge/utils/duckdb_utils.py:176-180 | one admissible engine order exists: it is an injective ordering and puts base rows before subset rows of the same key |
| TwoSource.RowNumberOne | kg_microbe_merge/utils/duckdb_utils.py:177-180 | a row has ROW_NUMBER 1 exactly when no row of its partition precedes it in the engine order |
| TwoSource.RankedRow | kg_microbe_merge/utils/duckdb_utils.py:174-181 | each ranked row is its combined row plus an `rn` cell holding its ROW_NUMBER as decimal text; every other cell, and so the key, is unchanged |
| Strings.DecimalRoundTrip | kg_microbe_merge/utils/duckdb_utils.py:177-180 | the decimal text of the row number reads back as that number, so `rn` identifies the rank |
| TwoSource.SelectionRankColumn | kg_microbe_merge/utils/duckdb_utils.py:166-185 | every row the `merged_kg` query keeps carries `rn` = `1`, and every row the `duplicate` query keeps carries a numeral for a rank above 1 |
| TwoSource.PartitionUnderOneRanking | kg_microbe_merge/utils/duckdb_utils.py:140-141 | if both queries rank the rows the same way, their tables together are the ranked combined table as a multiset, and their sizes add up to the combined size |
| TwoSource.RankOneIsBest | kg_microbe_merge/utils/duckdb_utils.py:177-180 | for a tier-respecting order and no best-tier tie, a row has rank 1 exactly when every other row of its key is in a later tier |
| TwoSource.MergedAndDuplicatePartitionCombined | kg_microbe_merge/utils/duckdb_utils.py:140-141 | the two queries rank independently; for any two tier-respecting orders and no key with two rows in its best tier, the merged and duplicate tables without `rn` are together the combined table as a multiset, and their sizes add up |
| TwoSource.DistinctInputsHaveNoTie | kg_microbe_merge/utils/duckdb_utils.py:102-113 | when neither input table repeats a key, the tables have distinct names and the key columns are shared, no key of the combined table has two rows in its best tier |
| TwoSource.TiesCanSplitDifferently | kg_microbe_merge/utils/duckdb_utils.py:140-141 | two different rows of one key in one tier, ranked in opposite orders by the two queries, leave one row in both tables and the other in neither |
| TwoSource.MergedOneRowPerKey | kg_microbe_merge/utils/duckdb_utils.py:166-185 | the merged table has distinct keys, and every key of the combined table appears in it |
| TwoSource.MergedKeepsBaseRow | kg_microbe_merge/utils/duckdb_utils.py:179 | if the base table has a row with a key, the merged row for that key is a base row with `rn` = `1`, for every engine order that respects the tier |
| Priority.PathNameIsLastComponent | kg_microbe_merge/merge.py:61 | the file name is the text after the last `/`: a slash-free suffix of the path, preceded by a `/` unless it is the whole path |
| Priority.PathSuffix | kg_microbe_merge/merge.py:61 | `Path.suffix` is empty or starts with a dot and holds no further dot or slash |
| Priority.PathSuffixIsLastExtension | kg_microbe_merge/merge.py:61 | the suffix is empty exactly when the file name is empty, ends with a dot, or has no dot after its first character; otherwise it is the tail of the name from its last dot |
| Priority.PathSuffixTsv | kg_microbe_merge/merge.py:61 | a path is scanned exactly when its file name ends in `.tsv` after at least one more character |
| Priority.OntologyFiles | kg_microbe_merge/merge.py:59 | the kept files are exactly those whose path contains `ontologies` |
| Priority.FirstProvidedBy | kg_microbe_merge/merge.py:64-68 | no value exactly when no row has a non-empty provided_by; otherwise the first such row's value |
| Priority.ScanProvidedBy | kg_microbe_merge/merge.py:64-68 | the row loop with `break` returns the first non-empty provided_by |
| Priority.DiscoverPrioritySources | kg_microbe_merge/merge.py:58-68 | the discovery loop returns exactly the priority list |
| Priority.PrioritySourcesAppend | kg_microbe_merge/merge.py:60-68 | the list follows file order: the list for a concatenation of file lists is the concatenation of their lists |
| Priority.PrioritySourcesBound | kg_microbe_merge/merge.py:61-68 | at most one value per scanned `.tsv` ontology file, and so at most one per ontology file |
| Priority.PrioritySourcesSound | kg_microbe_merge/merge.py:58-68 | every listed value is the first non-empty provided_by of an ontology `.tsv` node file |
| Priority.PrioritySourcesComplete | kg_microbe_merge/merge.py:58-68 | every ontology `.tsv` node file with a non-empty provided_by contributes its first one |
| Priority.DuckdbMerge | kg_microbe_merge/merge.py:58-74 | the node merge runs over all node files with the discovered list; the edge merge runs over the edge files only |
| Dangling.Endpoints | kg_microbe_merge/utils/edge_vs_node_check.py:20-24 | exactly the values that are the subject or object of some edge, NULL included |
| Dangling.MissingIds | kg_microbe_merge/utils/edge_vs_node_check.py:19-29 | no repeats; a value is listed exactly when it is an endpoint and either NULL or no node's id |
| Dangling.NoMissingIdsIffClosed | kg_microbe_merge/utils/edge_vs_node_check.py:19-33 | nothing is missing exactly when every subject and object is a non-NULL node id |
| Dangling.MoreNodesFewerMissing | kg_microbe_merge/utils/edge_vs_node_check.py:25-28 | adding nodes never adds a missing id |
| Dangling.CategoryIn | kg_microbe_merge/utils/edge_vs_node_check.py:53-57 | the category of the first matching prefix in table order, else `Unknown` |
| Dangling.CategoryOfAnyMatchingPrefix | kg_microbe_merge/utils/edge_vs_node_check.py:42-57 | over the shipped table, any prefix the id starts with gives the result, since no prefix overlaps another |
| Dangling.ShowValueRoundTrip | kg_microbe_merge/utils/edge_vs_node_check.py:37-38 | a printed missing id reads back as itself exactly when it is not the text `None`; NULL prints as `None` too |
| Dangling.ShowValueCollision | kg_microbe_merge/utils/edge_vs_node_check.py:37-38 | two values print the same line exactly when they are equal, or are NULL and the id `None` |
| Dangling.WriteMissingNodes | kg_microbe_merge/utils/edge_vs_node_check.py:35-38 | the `id` header, then one printed line per missing id, in order |
| Dangling.CategoryLineFields | kg_microbe_merge/utils/edge_vs_node_check.py:60-64 | a category line splits on tabs into the id, its category and an empty name |
| Dangling.WriteCategories | kg_microbe_merge/utils/edge_vs_node_check.py:60-64 | one category line per missing id, in order; the run completes exactly when no id is NULL, otherwise the file stops just before the first NULL |
| SqlLiteral.UnescapeEscape | kg_microbe_merge/utils/duckdb_utils.py:361 | doubling quotes and reading them back is the identity |
| SqlLiteral.EscapedLiteralRoundTrip | kg_microbe_merge/utils/duckdb_utils.py:361 | a literal made of a quote, an escaped value and a quote spans the whole text and denotes the value |
| SqlLiteral.UnbatchedLiteralClosesEarly | kg_microbe_merge/utils/duckdb_utils.py:287-302 | as written, the name-rule literal closes at the quote that opens the first priority source, before the text it was meant to hold ends |
| SqlLiteral.BatchedLiteralRoundTrip | kg_microbe_merge/utils/duckdb_utils.py:361-376 | with doubled quotes, the literal spans the whole template and holds exactly the intended `IN (...)` text, for any list of sources without a quote |

## Left out

- **I/O.** Reading files (`read_csv_auto`, `csv.DictReader`), writing files, the `.db`
  files and their removal, and every `print` are left out. Files are given as parsed
  `SourceFile` values, and a written file as its sequence of lines.
- **Errors the drivers catch.** Each driver catches and prints `duckdb.Error` instead of
  raising. The model reports it as a `Failure` and writes no file. Read errors are not
  modelled.
- **Typing.** `read_csv_auto` type inference is left out. The loader creates every column
  as VARCHAR, and the model takes each cell's text to be the text as written in its file.
- **Identifier case.** The SQL engine compares identifiers without regard to case, even
  quoted ones. Headers such as `ID` and `id` are two entries of the column set, but they
  collide in the CREATE TABLE (duckdb_utils.py:241-246), and the loader's handler catches
  that error. The model compares column names exactly and keeps them as two columns.
- **SQL text.** The generated SQL text and the `information_schema` queries are not
  modelled. The only exception is the quoting of the priority list, which is module
  `SqlLiteral`. The model states what each query computes.
- **Double-quoted STRING_AGG separator.** The unbatched node expression writes the
  separator text inside double quotes (duckdb_utils.py:304). The SQL engine reads
  double-quoted text as an identifier, so the expression query as written names a column
  `, '|') AS ` that does not exist. The engine binds that reference against the
  `columns` table before it reads any row, so the expression query fails for every input,
  even a node table with only `id` and `name` and an empty priority list. As written, the
  unbatched node merge never writes a file. The model reads the text as the string
  `, '|') AS `, as it is evidently meant.
- **Output row order.** The engine returns the two-source merged and duplicate tables in an
  order of its own. The model lists them in combined-table order. The missing-id query of
  the dangling-edge check has no ORDER BY either (edge_vs_node_check.py:19-29), so the
  order of both of its output files is the engine's. The model lists the missing ids in
  order of first occurrence among the edges' subjects and objects.
- **Rank ties.** ROW_NUMBER ties are model inputs. An arrangement `pos` stands for the
  engine's choice. The `merged_kg` and `duplicate` queries each recompute ROW_NUMBER, so
  each has its own arrangement. `TwoSource.MergedKeepsBaseRow` holds for every arrangement
  that puts base rows first within a key.
- **The `rn` column.** `SELECT *` keeps the row number in both split tables. Every cell of
  the model is text, so `rn` holds the number's decimal text instead of a BIGINT. A table
  that already has a column named `rn` is not modelled; its `rn` would be overwritten.
- **The `add_column` tag** is modelled as the literal table name. The source writes
  `SET col = value` unquoted (duckdb_utils.py:42), so the engine reads the value as an
  identifier.
- **Unordered joins.** In the unbatched node merge, STRING_AGG without ORDER BY leaves the
  order of the parts to the engine. The model uses first-occurrence order and states only
  the set of parts.
- **Empty priority lists.** An empty priority list yields `IN ()`. The SQL grammar does
  not accept an empty IN list, so as written both node merges fail to parse whenever the
  node table has a `name` column and no source is given. `duckdb_merge` reaches this case
  when no ontology file has a `provided_by`. The model takes `IN ()` to match no row.
- SqlLiteral.BatchedLiteralRoundTrip: requires source names without a quote, because
  line 361 doubles only the quotes around each source.
- Aggregate.JoinDistinct: parts are stated exactly only for values without `|`; a
  value holding the separator splits into more parts.
- Aggregate.DistinctJoinRule: states the parts exactly only for values without `|`, for
  the same reason.
- TwoSource.MergedAndDuplicatePartitionCombined: requires that no key has two rows in its
  best tier. With such a tie the two queries may break it differently;
  `TwoSource.TiesCanSplitDifferently` shows one row lost and another kept twice.
  `TwoSource.PartitionUnderOneRanking` covers ties when both queries break them the same
  way.
- Priority.PathSuffix: pathlib normalisation is left out; a path ending in `/` has no
  suffix here. The `ontologies` test uses the path text as given.
- **`duckdb_merge`** calls the unbatched drivers, so its node merge inherits the quoting
  fault below. `Priority.DuckdbMerge` states the corrected merge.
- **Other modules.** `merge_kg.py`, `run.py`, `duckdb_prepare_tables`, `write_file`,
  `drop_table`, `get_table_count`, the index creation, and the schema module
  (`merge_datamodel.py`) are not part of this model.

## Findings

| source | as written | input that shows it | evidently intended | confidence | as-written member | corrected member |
|---|---|---|---|---|---|---|
| kg_microbe_merge/utils/duckdb_utils.py:287 | the unbatched node merge builds the priority list as `'src'` and splices it into a single-quoted SQL literal (line 302), so the first quote of the list closes that literal | priority list `["chebi.json"]`: the literal ends after `IN (` and `chebi.json') THEN ` is read as SQL tokens, so the expression query cannot parse | quotes doubled, as `duckdb_nodes_merge_batch` does at line 361, so the literal holds the whole `IN ('chebi.json')` text | medium; not executed | SqlLiteral.UnbatchedLiteralClosesEarly | SqlLiteral.BatchedLiteralRoundTrip (Merges.NodesMerge uses the intended priority semantics) |
