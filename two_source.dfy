/** The two-source base-priority merge (`merge_kg_tables` with `get_table_duplicates`):
    both tables are tagged with their name in `source_table`, the subset rows are appended
    to the base rows, and every key's rows are numbered with base rows first; rank 1 goes
    to the merged table, every higher rank to the duplicate table. Among rows of the same
    tier the numbering is the engine's choice, given here as an arrangement `pos`. */
module TwoSource {
  import opened Wrappers
  import opened Strings
  import opened Tables
  import opened Aggregate

  const SourceTableColumn: string := "source_table"
  const RankColumn: string := "rn"

  /** `add_column`: every row gets `column` set to `value`. */
  function AddColumn(t: Table, column: string, value: string): (r: Table)
    ensures |r| == |t|
    ensures forall i :: 0 <= i < |t| ==>
              && Get(r[i], column) == Some(value)
              && (forall c :: c != column ==> Get(r[i], c) == Get(t[i], c))
              && r[i].Keys == t[i].Keys + {column}
  {
    seq(|t|, i requires 0 <= i < |t| => t[i][column := Some(value)])
  }

  /** `INSERT INTO base (cols) SELECT cols FROM ..`: a row restricted to `cols`. */
  function Project(r: Row, cols: seq<string>): Row {
    map c | c in cols :: Get(r, c)
  }

  /** `combined_kg_<type>`: the tagged base rows, then the tagged subset rows over the
      shared columns and `source_table`. */
  function Combined(columns: seq<string>, base: Table, subset: Table, baseName: string, subsetName: string): (c: Table)
    ensures |c| == |base| + |subset|
    ensures forall i :: 0 <= i < |base| ==> Get(c[i], SourceTableColumn) == Some(baseName)
    ensures forall i :: |base| <= i < |c| ==> Get(c[i], SourceTableColumn) == Some(subsetName)
    ensures forall i :: 0 <= i < |base| ==> forall col :: col != SourceTableColumn ==> Get(c[i], col) == Get(base[i], col)
    ensures forall i :: |base| <= i < |c| ==>
              forall col :: col in columns && col != SourceTableColumn ==> Get(c[i], col) == Get(subset[i - |base|], col)
  {
    var tagged := AddColumn(subset, SourceTableColumn, subsetName);
    var cols := columns + [SourceTableColumn];
    AddColumn(base, SourceTableColumn, baseName) + seq(|tagged|, i requires 0 <= i < |tagged| => Project(tagged[i], cols))
  }

  /** `CASE WHEN source_table = '<base>' THEN 1 ELSE 2 END`. */
  function Tier(r: Row, baseName: string): int {
    if Get(r, SourceTableColumn) == Some(baseName) then 1 else 2
  }

  /** The engine's arrangement of the rows: a distinct position per row. */
  predicate IsArrangement(pos: seq<int>, n: int) {
    |pos| == n && forall i, j :: 0 <= i < j < n ==> pos[i] != pos[j]
  }

  /** The partition key of every combined row, in row order. */
  function PartitionKeys(kind: Kind, c: Table): (ks: seq<Key>)
    ensures |ks| == |c| && forall i :: 0 <= i < |c| ==> ks[i] == KeyOf(kind, c[i])
  {
    seq(|c|, i requires 0 <= i < |c| => KeyOf(kind, c[i]))
  }

  /** The arrangement honours `ORDER BY tier` within every key. */
  predicate RespectsTier(kind: Kind, c: Table, pos: seq<int>, baseName: string)
    requires |pos| == |c|
  {
    forall i, j :: 0 <= i < |c| && 0 <= j < |c| && KeyOf(kind, c[i]) == KeyOf(kind, c[j]) &&
                   Tier(c[i], baseName) < Tier(c[j], baseName) ==>
      pos[i] < pos[j]
  }

  /** `ROW_NUMBER() OVER (PARTITION BY key ORDER BY tier)` of row i: one more than the
      number of rows with its key arranged before it. */
  function RowNumber<K(==)>(keys: seq<K>, pos: seq<int>, i: int): nat
    requires |pos| == |keys| && 0 <= i < |keys|
  {
    1 + |set j | 0 <= j < |keys| && keys[j] == keys[i] && pos[j] < pos[i]|
  }

  /** Row i comes first among the rows with its key. */
  predicate IsFirst<K(==)>(keys: seq<K>, pos: seq<int>, i: int)
    requires |pos| == |keys| && 0 <= i < |keys|
  {
    forall j :: 0 <= j < |keys| && keys[j] == keys[i] ==> pos[i] <= pos[j]
  }

  /** Rank 1 is exactly being first within the key. */
  lemma RowNumberOne<K>(keys: seq<K>, pos: seq<int>, i: int)
    requires |pos| == |keys| && 0 <= i < |keys|
    ensures RowNumber(keys, pos, i) == 1 <==> IsFirst(keys, pos, i)
  {
    var before := set j | 0 <= j < |keys| && keys[j] == keys[i] && pos[j] < pos[i];
    if IsFirst(keys, pos, i) {
      assert before == {};
    } else {
      var j :| 0 <= j < |keys| && keys[j] == keys[i] && pos[j] < pos[i];
      assert j in before;
    }
  }

  /** Whether each row has rank 1. */
  function RankOne<K(==)>(keys: seq<K>, pos: seq<int>): (flags: seq<bool>)
    requires |pos| == |keys|
    ensures |flags| == |keys|
  {
    seq(|keys|, i requires 0 <= i < |keys| => RowNumber(keys, pos, i) == 1)
  }

  /** The positions below n whose flag is `want`, ascending. */
  function Select(flags: seq<bool>, n: nat, want: bool): (idx: seq<nat>)
    requires n <= |flags|
    ensures forall k :: 0 <= k < |idx| ==> idx[k] < n && flags[idx[k]] == want
  {
    if n == 0 then []
    else
      var rest := Select(flags, n - 1, want);
      if flags[n - 1] == want then rest + [n - 1] else rest
  }

  /** Select misses no position whose flag is `want`. */
  lemma {:induction false} SelectHasAll(flags: seq<bool>, n: nat, want: bool)
    requires n <= |flags|
    ensures forall i :: 0 <= i < n && flags[i] == want ==> i in Select(flags, n, want)
  {
    if n > 0 {
      SelectHasAll(flags, n - 1, want);
      var rest := Select(flags, n - 1, want);
      assert forall i :: i in rest ==> i in Select(flags, n, want);
    }
  }

  predicate Ascending(idx: seq<nat>) {
    forall k, l :: 0 <= k < l < |idx| ==> idx[k] < idx[l]
  }

  /** Select lists its positions in ascending order. */
  lemma {:induction false} SelectAscending(flags: seq<bool>, n: nat, want: bool)
    requires n <= |flags|
    ensures Ascending(Select(flags, n, want))
  {
    if n > 0 {
      SelectAscending(flags, n - 1, want);
      var rest := Select(flags, n - 1, want);
      if flags[n - 1] == want {
        var idx := rest + [n - 1];
        assert Select(flags, n, want) == idx;
        forall k, l | 0 <= k < l < |idx| ensures idx[k] < idx[l] {
          assert idx[k] == rest[k] < n - 1;
          if l < |rest| {
            assert idx[l] == rest[l];
          } else {
            assert idx[l] == n - 1;
          }
        }
      } else {
        assert Select(flags, n, want) == rest;
      }
    }
  }

  function Rows<T>(c: seq<T>, idx: seq<nat>): (r: seq<T>)
    requires forall k :: 0 <= k < |idx| ==> idx[k] < |c|
    ensures |r| == |idx|
  {
    seq(|idx|, k requires 0 <= k < |idx| => c[idx[k]])
  }

  /** `ranked_<type>`: `SELECT *, ROW_NUMBER() .. AS rn`, every combined row with its row
      number in `rn`, as text. */
  function Ranked(kind: Kind, c: Table, pos: seq<int>): (r: Table)
    requires IsArrangement(pos, |c|)
    ensures |r| == |c|
  {
    var keys := PartitionKeys(kind, c);
    seq(|c|, i requires 0 <= i < |c| => c[i][RankColumn := Some(Decimal(RowNumber(keys, pos, i)))])
  }

  /** A ranked row is its combined row plus `rn`, holding its row number; every other
      cell, and so its key, is unchanged. */
  lemma RankedRow(kind: Kind, c: Table, pos: seq<int>, i: nat)
    requires IsArrangement(pos, |c|) && i < |c|
    ensures var r := Ranked(kind, c, pos)[i];
            && r == c[i][RankColumn := Some(Decimal(RowNumber(PartitionKeys(kind, c), pos, i)))]
            && Get(r, RankColumn) == Some(Decimal(RowNumber(PartitionKeys(kind, c), pos, i)))
            && (forall col :: col != RankColumn ==> Get(r, col) == Get(c[i], col))
            && r.Keys == c[i].Keys + {RankColumn}
            && KeyOf(kind, r) == KeyOf(kind, c[i])
  {
    var r := Ranked(kind, c, pos)[i];
    assert RankColumn !in KeyColumns(kind);
    KeyOfAgrees(kind, r, c[i]);
  }

  /** The two tables `get_table_duplicates` is called for: `merged_kg` keeps `rn = 1`,
      `duplicate` keeps `rn > 1`. */
  datatype Selection = MergedKg | Duplicate

  /** `get_table_duplicates` on `combined_kg_<type>`: one query, ranking the rows under
      its own arrangement `pos` and keeping those the selection asks for, `rn` kept. */
  function GetTableDuplicates(kind: Kind, c: Table, pos: seq<int>, which: Selection): (r: Table)
    requires IsArrangement(pos, |c|)
  {
    Rows(Ranked(kind, c, pos), Select(RankOne(PartitionKeys(kind, c), pos), |c|, which == MergedKg))
  }

  /** An `rn` cell holding a numeral for a number above 1. */
  predicate RankAboveOne(v: Value) {
    v.Some? && (forall k :: 0 <= k < |v.value| ==> IsDigit(v.value[k])) && ParseDecimal(v.value) > 1
  }

  /** The merged table holds rows whose `rn` is 1, the duplicate table rows whose `rn` is a
      larger number. */
  lemma SelectionRankColumn(kind: Kind, c: Table, pos: seq<int>, which: Selection)
    requires IsArrangement(pos, |c|)
    ensures var t := GetTableDuplicates(kind, c, pos, which);
            && (which == MergedKg ==> forall k :: 0 <= k < |t| ==> Get(t[k], RankColumn) == Some("1"))
            && (which == Duplicate ==> forall k :: 0 <= k < |t| ==> RankAboveOne(Get(t[k], RankColumn)))
  {
    var keys := PartitionKeys(kind, c);
    var flags := RankOne(keys, pos);
    var ranked := Ranked(kind, c, pos);
    var idx := Select(flags, |c|, which == MergedKg);
    var t := Rows(ranked, idx);
    assert GetTableDuplicates(kind, c, pos, which) == t;
    forall k | 0 <= k < |t|
      ensures which == MergedKg ==> Get(t[k], RankColumn) == Some("1")
      ensures which == Duplicate ==> RankAboveOne(Get(t[k], RankColumn))
    {
      var i := idx[k];
      assert t[k] == ranked[i] && flags[i] == (which == MergedKg);
      RankedRow(kind, c, pos, i);
      DecimalOne(RowNumber(keys, pos, i));
      DecimalRoundTrip(RowNumber(keys, pos, i));
    }
  }

  /** `merge_kg_tables`: `merged_kg_<type>` and `duplicate_<type>`, built by two separate
      queries, each ranking the combined rows under its own arrangement. */
  function MergeKgTables(kind: Kind, columns: seq<string>, base: Table, subset: Table,
                         baseName: string, subsetName: string, posMerged: seq<int>, posDuplicate: seq<int>): (r: (Table, Table))
    requires IsArrangement(posMerged, |base| + |subset|) && IsArrangement(posDuplicate, |base| + |subset|)
  {
    var c := Combined(columns, base, subset, baseName, subsetName);
    (GetTableDuplicates(kind, c, posMerged, MergedKg), GetTableDuplicates(kind, c, posDuplicate, Duplicate))
  }

  /** The tier-respecting arrangement that keeps every table's own row order: arranging
      base rows before subset rows is always possible. */
  function CanonicalArrangement(kind: Kind, c: Table, baseName: string): (pos: seq<int>)
    ensures IsArrangement(pos, |c|) && RespectsTier(kind, c, pos, baseName)
  {
    seq(|c|, i requires 0 <= i < |c| => Tier(c[i], baseName) * (|c| + 1) + i)
  }

  lemma RowsSnoc<T>(c: seq<T>, idx: seq<nat>, i: nat)
    requires (forall k :: 0 <= k < |idx| ==> idx[k] < |c|) && i < |c|
    ensures Rows(c, idx + [i]) == Rows(c, idx) + [c[i]]
  {
    assert forall k :: 0 <= k < |idx| ==> (idx + [i])[k] == idx[k];
  }

  /** One more row goes to exactly one side of the split. */
  lemma SelectStep<T>(c: seq<T>, flags: seq<bool>, n: nat)
    requires |flags| == |c| && 0 < n <= |c|
    ensures multiset(Rows(c, Select(flags, n, true))) + multiset(Rows(c, Select(flags, n, false))) ==
            multiset(Rows(c, Select(flags, n - 1, true))) + multiset(Rows(c, Select(flags, n - 1, false))) + multiset{c[n - 1]}
  {
    var y0, n0 := multiset(Rows(c, Select(flags, n - 1, true))), multiset(Rows(c, Select(flags, n - 1, false)));
    var x := multiset{c[n - 1]};
    if flags[n - 1] {
      SelectGrows(c, flags, n, true);
      SelectKeeps(flags, n, false);
      AddToFirst(y0, n0, x);
    } else {
      SelectKeeps(flags, n, true);
      SelectGrows(c, flags, n, false);
      AddToSecond(y0, n0, x);
    }
  }

  lemma SelectGrows<T>(c: seq<T>, flags: seq<bool>, n: nat, want: bool)
    requires |flags| == |c| && 0 < n <= |c| && flags[n - 1] == want
    ensures multiset(Rows(c, Select(flags, n, want))) == multiset(Rows(c, Select(flags, n - 1, want))) + multiset{c[n - 1]}
  {
    var prev := Select(flags, n - 1, want);
    assert Select(flags, n, want) == prev + [n - 1];
    RowsSnocMultiset(c, prev, n - 1);
  }

  lemma SelectKeeps(flags: seq<bool>, n: nat, want: bool)
    requires 0 < n <= |flags| && flags[n - 1] != want
    ensures Select(flags, n, want) == Select(flags, n - 1, want)
  {
  }

  lemma AddToFirst<T>(a: multiset<T>, b: multiset<T>, x: multiset<T>)
    ensures (a + x) + b == a + b + x
  {
  }

  lemma AddToSecond<T>(a: multiset<T>, b: multiset<T>, x: multiset<T>)
    ensures a + (b + x) == a + b + x
  {
  }

  lemma RowsSnocMultiset<T>(c: seq<T>, idx: seq<nat>, i: nat)
    requires (forall k :: 0 <= k < |idx| ==> idx[k] < |c|) && i < |c|
    ensures multiset(Rows(c, idx + [i])) == multiset(Rows(c, idx)) + multiset{c[i]}
  {
    RowsSnoc(c, idx, i);
  }

  lemma PrefixMultisetStep<T>(c: seq<T>, n: nat)
    requires 0 < n <= |c|
    ensures multiset(c[..n]) == multiset(c[..n - 1]) + multiset{c[n - 1]}
  {
    assert c[..n] == c[..n - 1] + [c[n - 1]];
  }

  /** Split conservation: every row goes to exactly one of the two selections, so together
      they hold the rows (with their multiplicities). */
  lemma {:induction false} SelectPartition<T>(c: seq<T>, flags: seq<bool>, n: nat)
    requires |flags| == |c| && n <= |c|
    ensures multiset(Rows(c, Select(flags, n, true))) + multiset(Rows(c, Select(flags, n, false)))
            == multiset(c[..n])
  {
    if n > 0 {
      SelectPartition(c, flags, n - 1);
      SelectStep(c, flags, n);
      PrefixMultisetStep(c, n);
    }
  }

  /** When both queries break ties the same way, the merged and the duplicate table
      together hold every ranked combined row exactly as often as the ranked table does. */
  lemma PartitionUnderOneRanking(kind: Kind, c: Table, pos: seq<int>)
    requires IsArrangement(pos, |c|)
    ensures var merged, duplicate := GetTableDuplicates(kind, c, pos, MergedKg), GetTableDuplicates(kind, c, pos, Duplicate);
            && multiset(merged) + multiset(duplicate) == multiset(Ranked(kind, c, pos))
            && |merged| + |duplicate| == |c|
  {
    var ranked := Ranked(kind, c, pos);
    var flags := RankOne(PartitionKeys(kind, c), pos);
    SelectPartition(ranked, flags, |c|);
    assert ranked[..|c|] == ranked;
    var merged, duplicate := Rows(ranked, Select(flags, |c|, true)), Rows(ranked, Select(flags, |c|, false));
    assert GetTableDuplicates(kind, c, pos, MergedKg) == merged;
    assert GetTableDuplicates(kind, c, pos, Duplicate) == duplicate;
    assert |multiset(merged) + multiset(duplicate)| == |multiset(ranked)|;
  }

  /** The rows without their `rn` cell. */
  function Unranked(t: Table): (r: Table)
    ensures |r| == |t| && forall i :: 0 <= i < |t| ==> RankColumn !in r[i]
  {
    seq(|t|, i requires 0 <= i < |t| => t[i] - {RankColumn})
  }

  lemma UnrankedRows(kind: Kind, c: Table, pos: seq<int>, idx: seq<nat>)
    requires IsArrangement(pos, |c|) && forall k :: 0 <= k < |idx| ==> idx[k] < |c|
    ensures Unranked(Rows(Ranked(kind, c, pos), idx)) == Rows(Unranked(c), idx)
  {
    var ranked := Ranked(kind, c, pos);
    forall k | 0 <= k < |idx| ensures Unranked(Rows(ranked, idx))[k] == Rows(Unranked(c), idx)[k] {
      var i := idx[k];
      RankedRow(kind, c, pos, i);
      var x, y := ranked[i] - {RankColumn}, c[i] - {RankColumn};
      assert x.Keys == y.Keys;
      assert forall col :: col in x ==> x[col] == y[col];
    }
  }

  /** Row i is the only row of its key in the key's best tier. */
  predicate BestOfKey(kind: Kind, c: Table, baseName: string, i: int)
    requires 0 <= i < |c|
  {
    forall j :: 0 <= j < |c| && j != i && KeyOf(kind, c[j]) == KeyOf(kind, c[i]) ==>
      Tier(c[i], baseName) < Tier(c[j], baseName)
  }

  /** No key has two rows in its best tier: two rows of a key in the same tier are
      outranked by a third row of that key. */
  predicate NoBestTierTie(kind: Kind, c: Table, baseName: string) {
    forall i, j :: 0 <= i < |c| && 0 <= j < |c| && i != j && KeyOf(kind, c[i]) == KeyOf(kind, c[j]) &&
                   Tier(c[i], baseName) == Tier(c[j], baseName) ==>
      exists l :: 0 <= l < |c| && KeyOf(kind, c[l]) == KeyOf(kind, c[i]) && Tier(c[l], baseName) < Tier(c[i], baseName)
  }

  /** Without ties in the best tier, every tier-respecting query gives rank 1 to the same
      row: the best row of its key. */
  lemma RankOneIsBest(kind: Kind, c: Table, pos: seq<int>, baseName: string, i: nat)
    requires IsArrangement(pos, |c|) && RespectsTier(kind, c, pos, baseName) && NoBestTierTie(kind, c, baseName)
    requires i < |c|
    ensures RowNumber(PartitionKeys(kind, c), pos, i) == 1 <==> BestOfKey(kind, c, baseName, i)
  {
    var keys := PartitionKeys(kind, c);
    RowNumberOne(keys, pos, i);
  }

  /** Two separate tier-respecting queries pick the same rank-1 rows when no key has two
      rows in its best tier, so no row is lost or kept twice: without their `rn`, the two
      tables together are the combined table. */
  lemma MergedAndDuplicatePartitionCombined(kind: Kind, c: Table, posMerged: seq<int>, posDuplicate: seq<int>, baseName: string)
    requires IsArrangement(posMerged, |c|) && IsArrangement(posDuplicate, |c|)
    requires RespectsTier(kind, c, posMerged, baseName) && RespectsTier(kind, c, posDuplicate, baseName)
    requires NoBestTierTie(kind, c, baseName)
    ensures var merged := GetTableDuplicates(kind, c, posMerged, MergedKg);
            var duplicate := GetTableDuplicates(kind, c, posDuplicate, Duplicate);
            && multiset(Unranked(merged)) + multiset(Unranked(duplicate)) == multiset(Unranked(c))
            && |merged| + |duplicate| == |c|
  {
    var keys := PartitionKeys(kind, c);
    var fm, fd := RankOne(keys, posMerged), RankOne(keys, posDuplicate);
    forall i | 0 <= i < |c| ensures fm[i] == fd[i] {
      RankOneIsBest(kind, c, posMerged, baseName, i);
      RankOneIsBest(kind, c, posDuplicate, baseName, i);
    }
    assert fm == fd;
    var mi, di := Select(fm, |c|, true), Select(fm, |c|, false);
    UnrankedRows(kind, c, posMerged, mi);
    UnrankedRows(kind, c, posDuplicate, di);
    var u := Unranked(c);
    SelectPartition(u, fm, |c|);
    assert u[..|c|] == u;
    assert |multiset(Rows(u, mi)) + multiset(Rows(u, di))| == |multiset(u)|;
  }

  /** When neither input table repeats a key and the key columns are shared, no key has
      two rows in its best tier, so the two queries always partition the combined rows. */
  lemma DistinctInputsHaveNoTie(kind: Kind, columns: seq<string>, base: Table, subset: Table,
                                baseName: string, subsetName: string)
    requires baseName != subsetName
    requires forall col :: col in KeyColumns(kind) ==> col in columns
    requires forall i, j :: 0 <= i < j < |base| ==> KeyOf(kind, base[i]) != KeyOf(kind, base[j])
    requires forall i, j :: 0 <= i < j < |subset| ==> KeyOf(kind, subset[i]) != KeyOf(kind, subset[j])
    ensures NoBestTierTie(kind, Combined(columns, base, subset, baseName, subsetName), baseName)
  {
    var c := Combined(columns, base, subset, baseName, subsetName);
    forall i, j | 0 <= i < j < |c| && Tier(c[i], baseName) == Tier(c[j], baseName)
      ensures KeyOf(kind, c[i]) != KeyOf(kind, c[j])
    {
      if j < |base| {
        CombinedBaseKey(kind, columns, base, subset, baseName, subsetName, i);
        CombinedBaseKey(kind, columns, base, subset, baseName, subsetName, j);
      } else {
        assert Tier(c[j], baseName) == 2;
        CombinedSubsetKey(kind, columns, base, subset, baseName, subsetName, i);
        CombinedSubsetKey(kind, columns, base, subset, baseName, subsetName, j);
      }
    }
  }

  /** A subset row keeps its key in the combined table when the key columns are shared. */
  lemma CombinedSubsetKey(kind: Kind, columns: seq<string>, base: Table, subset: Table,
                          baseName: string, subsetName: string, i: nat)
    requires forall col :: col in KeyColumns(kind) ==> col in columns
    requires |base| <= i < |base| + |subset|
    ensures KeyOf(kind, Combined(columns, base, subset, baseName, subsetName)[i]) == KeyOf(kind, subset[i - |base|])
  {
    var c := Combined(columns, base, subset, baseName, subsetName);
    assert SourceTableColumn !in KeyColumns(kind);
    KeyOfAgrees(kind, c[i], subset[i - |base|]);
  }

  /** With two rows of one key in the same tier, the two queries may break the tie
      differently: the merged query keeps the first row, the duplicate query ranks the
      second row first and keeps the first one again, so the second row is in neither
      table. */
  lemma TiesCanSplitDifferently(kind: Kind, x: Row, y: Row, baseName: string)
    requires KeyOf(kind, x) == KeyOf(kind, y) && Tier(x, baseName) == Tier(y, baseName)
    requires x - {RankColumn} != y - {RankColumn}
    ensures IsArrangement([0, 1], 2) && IsArrangement([1, 0], 2)
    ensures RespectsTier(kind, [x, y], [0, 1], baseName) && RespectsTier(kind, [x, y], [1, 0], baseName)
    ensures var c, posMerged, posDuplicate := [x, y], [0, 1], [1, 0];
            multiset(Unranked(GetTableDuplicates(kind, c, posMerged, MergedKg))) +
               multiset(Unranked(GetTableDuplicates(kind, c, posDuplicate, Duplicate))) != multiset(Unranked(c))
  {
    var c := [x, y];
    TieArrangements();
    TieTables(kind, c);
    TieRespectsTier(kind, c, [0, 1], baseName);
    TieRespectsTier(kind, c, [1, 0], baseName);
    var u := Unranked(c);
    assert u == [u[0], u[1]];
    TwiceOneIsNotBoth(u[0], u[1]);
  }

  /** Two rows of one key, ranked in order by the merged query and the other way round
      by the duplicate query: both tables hold the first row. */
  lemma TieTables(kind: Kind, c: Table)
    requires |c| == 2 && KeyOf(kind, c[0]) == KeyOf(kind, c[1])
    ensures Unranked(GetTableDuplicates(kind, c, [0, 1], MergedKg)) == [Unranked(c)[0]]
    ensures Unranked(GetTableDuplicates(kind, c, [1, 0], Duplicate)) == [Unranked(c)[0]]
  {
    var pm, pd := [0, 1], [1, 0];
    var keys := PartitionKeys(kind, c);
    TieFlags(keys, pm, pd);
    SelectTwo(RankOne(keys, pm), true);
    SelectTwo(RankOne(keys, pd), false);
    UnrankedRows(kind, c, pm, [0]);
    UnrankedRows(kind, c, pd, [0]);
    assert Rows(Unranked(c), [0]) == [Unranked(c)[0]];
  }

  lemma TieArrangements()
    ensures IsArrangement([0, 1], 2) && IsArrangement([1, 0], 2)
  {
  }

  lemma TieRespectsTier(kind: Kind, c: Table, pos: seq<int>, baseName: string)
    requires |c| == 2 && |pos| == 2 && Tier(c[0], baseName) == Tier(c[1], baseName)
    ensures RespectsTier(kind, c, pos, baseName)
  {
  }

  /** Two rows of one key: arranged in order, the first is ranked 1; arranged the other
      way round, the second is. */
  lemma TieFlags<K>(keys: seq<K>, pm: seq<int>, pd: seq<int>)
    requires |keys| == 2 && keys[0] == keys[1] && pm == [0, 1] && pd == [1, 0]
    ensures RankOne(keys, pm) == [true, false] && RankOne(keys, pd) == [false, true]
  {
    RowNumberOne(keys, pm, 0);
    RowNumberOne(keys, pm, 1);
    RowNumberOne(keys, pd, 0);
    RowNumberOne(keys, pd, 1);
  }

  lemma SelectTwo(f: seq<bool>, want: bool)
    requires f == [want, !want]
    ensures Select(f, 2, want) == [0]
  {
    assert Select(f, 1, want) == [0];
  }

  lemma TwiceOneIsNotBoth<T>(a: T, b: T)
    requires a != b
    ensures multiset([a]) + multiset([a]) != multiset([a, b])
  {
    assert (multiset([a]) + multiset([a]))[b] == 0;
    assert multiset([a, b])[b] == 1;
  }

  /** Row f is first among the rows below n that share row i's key. */
  predicate FirstBelow<K(==)>(keys: seq<K>, pos: seq<int>, i: int, f: int, n: int)
    requires |pos| == |keys| && 0 <= i < |keys| && n <= |keys|
  {
    0 <= f < n && keys[f] == keys[i] && forall j :: 0 <= j < n && keys[j] == keys[i] ==> pos[f] <= pos[j]
  }

  /** Among the rows below n, some row with row i's key is arranged before the others. */
  lemma {:induction false} FirstAmong<K>(keys: seq<K>, pos: seq<int>, i: int, n: int)
    requires |pos| == |keys| && 0 <= i < n <= |keys|
    ensures exists f :: FirstBelow(keys, pos, i, f, n)
    decreases n
  {
    var last := n - 1;
    var anchor := i;
    if i == last {
      if exists j :: 0 <= j < last && keys[j] == keys[i] {
        anchor :| 0 <= anchor < last && keys[anchor] == keys[i];
      } else {
        assert FirstBelow(keys, pos, i, i, n);
        return;
      }
    }
    FirstAmong(keys, pos, anchor, last);
    var f :| FirstBelow(keys, pos, anchor, f, last);
    if pos[last] < pos[f] && keys[last] == keys[i] {
      assert FirstBelow(keys, pos, i, last, n);
    } else {
      assert FirstBelow(keys, pos, i, f, n);
    }
  }

  /** Merged-key uniqueness and completeness: the merged table holds exactly one row per key
      of the combined table, whatever the arrangement. */
  lemma {:induction false} MergedOneRowPerKey(kind: Kind, c: Table, pos: seq<int>)
    requires IsArrangement(pos, |c|)
    ensures var merged := GetTableDuplicates(kind, c, pos, MergedKg);
            && (forall k, l :: 0 <= k < l < |merged| ==> KeyOf(kind, merged[k]) != KeyOf(kind, merged[l]))
            && (forall x :: x in c ==> exists k :: 0 <= k < |merged| && KeyOf(kind, merged[k]) == KeyOf(kind, x))
  {
    var keys := PartitionKeys(kind, c);
    var flags := RankOne(keys, pos);
    var idx := Select(flags, |c|, true);
    SelectHasAll(flags, |c|, true);
    SelectAscending(flags, |c|, true);
    var ranked := Ranked(kind, c, pos);
    var merged := Rows(ranked, idx);
    assert GetTableDuplicates(kind, c, pos, MergedKg) == merged;
    forall k, l | 0 <= k < l < |merged| ensures KeyOf(kind, merged[k]) != KeyOf(kind, merged[l]) {
      var a, b := idx[k], idx[l];
      RankedRow(kind, c, pos, a);
      RankedRow(kind, c, pos, b);
      RowNumberOne(keys, pos, a);
      RowNumberOne(keys, pos, b);
      if keys[a] == keys[b] {
        assert false;
      }
    }
    forall x | x in c ensures exists k :: 0 <= k < |merged| && KeyOf(kind, merged[k]) == KeyOf(kind, x) {
      var i :| 0 <= i < |c| && c[i] == x;
      FirstAmong(keys, pos, i, |c|);
      var f :| FirstBelow(keys, pos, i, f, |c|);
      assert IsFirst(keys, pos, f);
      RowNumberOne(keys, pos, f);
      assert flags[f];
      var k :| 0 <= k < |idx| && idx[k] == f;
      RankedRow(kind, c, pos, f);
      assert merged[k] == ranked[f];
    }
  }

  /** Base priority: for a key that has a base row, the merged row is one of the base
      rows with that key, with `rn` 1, whichever tie the engine picks among them. */
  lemma {:induction false} MergedKeepsBaseRow(kind: Kind, columns: seq<string>, base: Table, subset: Table,
                                       baseName: string, subsetName: string, pos: seq<int>, k: nat)
    requires IsArrangement(pos, |base| + |subset|)
    requires baseName != subsetName
    requires RespectsTier(kind, Combined(columns, base, subset, baseName, subsetName), pos, baseName)
    requires k < |GetTableDuplicates(kind, Combined(columns, base, subset, baseName, subsetName), pos, MergedKg)|
    requires var merged := GetTableDuplicates(kind, Combined(columns, base, subset, baseName, subsetName), pos, MergedKg);
             exists b :: 0 <= b < |base| && KeyOf(kind, base[b]) == KeyOf(kind, merged[k])
    ensures var merged := GetTableDuplicates(kind, Combined(columns, base, subset, baseName, subsetName), pos, MergedKg);
            var c := Combined(columns, base, subset, baseName, subsetName);
            exists b :: 0 <= b < |base| && merged[k] == c[b][RankColumn := Some("1")]
  {
    var c := Combined(columns, base, subset, baseName, subsetName);
    var keys := PartitionKeys(kind, c);
    var idx := Select(RankOne(keys, pos), |c|, true);
    var ranked := Ranked(kind, c, pos);
    assert GetTableDuplicates(kind, Combined(columns, base, subset, baseName, subsetName), pos, MergedKg) == Rows(ranked, idx);
    var i := idx[k];
    RankedRow(kind, c, pos, i);
    RowNumberOne(keys, pos, i);
    DecimalOne(RowNumber(keys, pos, i));
    assert Rows(ranked, idx)[k] == c[i][RankColumn := Some("1")];
    var b :| 0 <= b < |base| && KeyOf(kind, base[b]) == KeyOf(kind, c[i]);
    CombinedBaseKey(kind, columns, base, subset, baseName, subsetName, b);
    assert Tier(c[b], baseName) == 1;
    var tier := Tier(c[i], baseName);
    assert i >= |base| ==> tier == 2;
    if i >= |base| {
      assert false;
    }
  }

  /** A base row keeps its key in the combined table. */
  lemma CombinedBaseKey(kind: Kind, columns: seq<string>, base: Table, subset: Table,
                        baseName: string, subsetName: string, b: nat)
    requires b < |base|
    ensures KeyOf(kind, Combined(columns, base, subset, baseName, subsetName)[b]) == KeyOf(kind, base[b])
  {
    var c := Combined(columns, base, subset, baseName, subsetName);
    assert SourceTableColumn !in KeyColumns(kind);
    KeyOfAgrees(kind, c[b], base[b]);
  }
}
