/** The priority-aware aggregator shared by the node and edge merges: rows are grouped by
    their key (`id` for nodes, subject/predicate/object for edges), one output row is made
    per distinct key in ascending key order, and every column follows its policy:
    key columns pass through, a node's `name` is priority-resolved, and every other column
    becomes its distinct non-NULL values joined with `|`. */
module Aggregate {
  import opened Wrappers
  import opened Seqs
  import opened Strings
  import opened Tables

  /** Which merge: nodes (`duckdb_nodes_merge*`) or edges (`duckdb_edges_merge*`). */
  datatype Kind = Nodes | Edges

  /** How one output column is computed from its group. */
  datatype Policy =
    | PassThrough   // a grouping column, copied
    | PriorityMax   // COALESCE(MAX(name of a prioritised row), MAX(name))
    | DistinctJoin  // STRING_AGG(DISTINCT col, '|')

  /** The order of the parts of a joined value: `ORDER BY col` (the batched node merge and
      both edge merges) or none (the unbatched node merge). */
  datatype Order = Sorted | Unordered

  const Separator: char := '|'
  const NameColumn: string := "name"
  const ProvidedByColumn: string := "provided_by"

  function KeyColumns(kind: Kind): seq<string> {
    match kind
    case Nodes => ["id"]
    case Edges => ["subject", "predicate", "object"]
  }

  /** The column policy table of both merges. */
  function PolicyOf(kind: Kind, c: string): Policy {
    match kind
    case Nodes => if c == "id" then PassThrough else if c == NameColumn then PriorityMax else DistinctJoin
    case Edges => if c in KeyColumns(Edges) then PassThrough else DistinctJoin
  }

  /** The grouping key of a row. */
  function KeyOf(kind: Kind, x: Row): (k: Key)
    ensures |k| == |KeyColumns(kind)|
  {
    var kc := KeyColumns(kind);
    seq(|kc|, m requires 0 <= m < |kc| => Get(x, kc[m]))
  }

  /** Rows that agree on the key columns have the same key. */
  lemma KeyOfAgrees(kind: Kind, x: Row, y: Row)
    requires forall c :: c in KeyColumns(kind) ==> Get(x, c) == Get(y, c)
    ensures KeyOf(kind, x) == KeyOf(kind, y)
  {
  }

  /** The key of every row, in row order. */
  function KeysOf(kind: Kind, t: Table): (r: seq<Key>)
    ensures forall k :: k in r <==> exists x :: x in t && KeyOf(kind, x) == k
  {
    if |t| == 0 then [] else [KeyOf(kind, t[0])] + KeysOf(kind, t[1..])
  }

  /** The distinct keys in ascending order; the `temp_ids` / `temp_edges` numbering is
      position + 1 in this list. */
  function DistinctKeys(kind: Kind, t: Table): (r: seq<Key>)
    ensures KeysSorted(r)
    ensures forall k :: k in r <==> exists x :: x in t && KeyOf(kind, x) == k
  {
    SortDistinctKeys(KeysOf(kind, t))
  }

  /** The rows of `t` whose key is `k`, in row order. */
  function GroupOf(kind: Kind, t: Table, k: Key): (g: Table)
    ensures forall x :: x in g <==> x in t && KeyOf(kind, x) == k
    ensures |g| <= |t|
  {
    if |t| == 0 then []
    else (if KeyOf(kind, t[0]) == k then [t[0]] else []) + GroupOf(kind, t[1..], k)
  }

  /** The non-NULL cells of column `c`, in row order. */
  function NonNullValues(g: Table, c: string): (r: seq<string>)
    ensures forall v :: v in r <==> exists x :: x in g && Get(x, c) == Some(v)
  {
    if |g| == 0 then []
    else (if Get(g[0], c).Some? then [Get(g[0], c).value] else []) + NonNullValues(g[1..], c)
  }

  /** `provided_by IN (priority list)`: a NULL provided_by is never prioritised. */
  predicate Prioritized(x: Row, prio: seq<string>) {
    Get(x, ProvidedByColumn).Some? && Get(x, ProvidedByColumn).value in prio
  }

  /** The non-NULL names of the prioritised rows, in row order. */
  function PrioritizedNames(g: Table, prio: seq<string>): (r: seq<string>)
    ensures forall v :: v in r <==>
              exists x :: x in g && Prioritized(x, prio) && Get(x, NameColumn) == Some(v)
  {
    if |g| == 0 then []
    else
      (if Prioritized(g[0], prio) && Get(g[0], NameColumn).Some? then [Get(g[0], NameColumn).value] else [])
      + PrioritizedNames(g[1..], prio)
  }

  /** Some row of the group is prioritised and has a name. */
  predicate HasPrioritizedName(g: Table, prio: seq<string>) {
    exists x :: x in g && Prioritized(x, prio) && Get(x, NameColumn).Some?
  }

  /** The priority rule for a node's name:
      `COALESCE(MAX(CASE WHEN provided_by IN (..) THEN name END), MAX(name))`. */
  function PriorityName(g: Table, prio: seq<string>): (r: Value)
    ensures HasPrioritizedName(g, prio) ==>
              && r.Some?
              && (exists x :: x in g && Prioritized(x, prio) && Get(x, NameColumn) == r)
              && (forall x :: x in g && Prioritized(x, prio) && Get(x, NameColumn).Some? ==>
                    LexLe(Get(x, NameColumn).value, r.value))
    ensures !HasPrioritizedName(g, prio) ==>
              && (r.None? <==> forall x :: x in g ==> Get(x, NameColumn).None?)
              && (r.Some? ==> exists x :: x in g && Get(x, NameColumn) == r)
              && (r.Some? ==> forall x :: x in g && Get(x, NameColumn).Some? ==>
                                LexLe(Get(x, NameColumn).value, r.value))
  {
    var best := MaxOf(PrioritizedNames(g, prio));
    if best.Some? then
      best
    else
      var names := NonNullValues(g, NameColumn);
      assert forall x :: x in g && Get(x, NameColumn).Some? ==> Get(x, NameColumn).value in names;
      MaxOf(names)
  }

  /** No value contains the separator, so the joined text can be split back. */
  predicate NoSeparator(vals: seq<string>) {
    forall v :: v in vals ==> Separator !in v
  }

  /** `STRING_AGG(DISTINCT col, '|' [ORDER BY col])` over the non-NULL values: NULL when
      there are none, else each distinct value once. The unbatched node merge leaves the
      order to the engine; this model takes first-occurrence order there. */
  function JoinDistinct(vals: seq<string>, ord: Order): (r: Value)
    ensures r.None? <==> |vals| == 0
    ensures r.Some? && NoSeparator(vals) ==>
              && Distinct(Split(r.value, Separator))
              && (forall y :: y in Split(r.value, Separator) <==> y in vals)
    ensures r.Some? && NoSeparator(vals) && ord == Sorted ==>
              StrictlySorted(Split(r.value, Separator))
  {
    if |vals| == 0 then None
    else
      var parts := if ord == Sorted then SortDistinct(vals) else Dedup(vals);
      assert |parts| >= 1 by { assert vals[0] in parts; }
      assert NoSeparator(vals) ==> Split(Join(parts, Separator), Separator) == parts by {
        if NoSeparator(vals) { SplitJoin(parts, Separator); }
      }
      assert Distinct(parts) by {
        if ord == Sorted { StrictlySortedIsDistinct(parts); }
      }
      Some(Join(parts, Separator))
  }

  /** One output cell of a group, by the column's policy. */
  function AggregateCell(kind: Kind, c: string, g: Table, prio: seq<string>, ord: Order): Value {
    match PolicyOf(kind, c)
    case PassThrough => if |g| > 0 then Get(g[0], c) else None
    case PriorityMax => PriorityName(g, prio)
    case DistinctJoin => JoinDistinct(NonNullValues(g, c), ord)
  }

  /** The output row of one group, over the columns `cols`. */
  function MergedRow(kind: Kind, cols: seq<string>, g: Table, prio: seq<string>, ord: Order): (r: Row)
    ensures r.Keys == (set c | c in cols)
  {
    map c | c in cols :: AggregateCell(kind, c, g, prio, ord)
  }

  /** The output rows for the keys `ks`, in that order. */
  function MergeOver(kind: Kind, cols: seq<string>, t: Table, ks: seq<Key>, prio: seq<string>, ord: Order): (r: Table)
    ensures |r| == |ks|
  {
    seq(|ks|, i requires 0 <= i < |ks| => MergedRow(kind, cols, GroupOf(kind, t, ks[i]), prio, ord))
  }

  lemma MergeOverAppend(kind: Kind, cols: seq<string>, t: Table, ks1: seq<Key>, ks2: seq<Key>, prio: seq<string>, ord: Order)
    ensures MergeOver(kind, cols, t, ks1 + ks2, prio, ord) ==
            MergeOver(kind, cols, t, ks1, prio, ord) + MergeOver(kind, cols, t, ks2, prio, ord)
  {
    var ks := ks1 + ks2;
    var all := MergeOver(kind, cols, t, ks, prio, ord);
    var a, b := MergeOver(kind, cols, t, ks1, prio, ord), MergeOver(kind, cols, t, ks2, prio, ord);
    forall i | 0 <= i < |ks| ensures all[i] == (a + b)[i] {
      if i < |ks1| {
        assert ks[i] == ks1[i];
        assert all[i] == a[i];
      } else {
        assert ks[i] == ks2[i - |ks1|];
        assert all[i] == b[i - |ks1|];
      }
    }
    assert |all| == |a + b|;
  }

  /** `SELECT .. FROM t GROUP BY key ORDER BY key`. */
  function MergeGroups(kind: Kind, cols: seq<string>, t: Table, prio: seq<string>, ord: Order): Table {
    MergeOver(kind, cols, t, DistinctKeys(kind, t), prio, ord)
  }

  /** Row x of t belongs to the group of key k. */
  predicate InGroup(kind: Kind, t: Table, k: Key, x: Row) {
    x in t && KeyOf(kind, x) == k
  }

  predicate HasKeyColumns(kind: Kind, cols: seq<string>) {
    forall c :: c in KeyColumns(kind) ==> c in cols
  }

  /** A pass-through cell holds the group's common value of that key column. */
  lemma PassThroughCell(kind: Kind, c: string, t: Table, k: Key, prio: seq<string>, ord: Order, x: Row)
    requires c in KeyColumns(kind) && InGroup(kind, t, k, x)
    ensures AggregateCell(kind, c, GroupOf(kind, t, k), prio, ord) == Get(x, c)
  {
    var g := GroupOf(kind, t, k);
    assert x in g;
    assert g[0] in g;
    var kc := KeyColumns(kind);
    var m :| 0 <= m < |kc| && kc[m] == c;
    assert KeyOf(kind, g[0])[m] == Get(g[0], c);
    assert KeyOf(kind, x)[m] == Get(x, c);
  }

  /** Some row of `t` has key `k`. */
  predicate Occurs(kind: Kind, t: Table, k: Key) {
    exists x :: x in t && KeyOf(kind, x) == k
  }

  /** The output row of an occurring key carries that key in its key cells. */
  lemma MergedRowKey(kind: Kind, cols: seq<string>, t: Table, k: Key, prio: seq<string>, ord: Order)
    requires HasKeyColumns(kind, cols) && Occurs(kind, t, k)
    ensures KeyOf(kind, MergedRow(kind, cols, GroupOf(kind, t, k), prio, ord)) == k
  {
    var x :| x in t && KeyOf(kind, x) == k;
    var r := MergedRow(kind, cols, GroupOf(kind, t, k), prio, ord);
    var kc := KeyColumns(kind);
    forall m | 0 <= m < |kc| ensures KeyOf(kind, r)[m] == k[m] {
      PassThroughCell(kind, kc[m], t, k, prio, ord, x);
      assert KeyOf(kind, x)[m] == Get(x, kc[m]);
    }
  }

  /** The output rows for keys that all occur carry those keys, in the same order. */
  lemma MergeOverKeys(kind: Kind, cols: seq<string>, t: Table, ks: seq<Key>, prio: seq<string>, ord: Order)
    requires HasKeyColumns(kind, cols)
    requires forall k :: k in ks ==> Occurs(kind, t, k)
    ensures forall i :: 0 <= i < |ks| ==> KeyOf(kind, MergeOver(kind, cols, t, ks, prio, ord)[i]) == ks[i]
  {
    forall i | 0 <= i < |ks|
      ensures KeyOf(kind, MergeOver(kind, cols, t, ks, prio, ord)[i]) == ks[i]
    {
      assert ks[i] in ks;
      MergedRowKey(kind, cols, t, ks[i], prio, ord);
    }
  }

  /** Key uniqueness and order: the merge emits exactly one row per distinct key, in
      ascending key order, and each row's key cells are the group's key unchanged. */
  lemma {:induction false} MergeGroupsOneRowPerKey(kind: Kind, cols: seq<string>, t: Table, prio: seq<string>, ord: Order)
    requires HasKeyColumns(kind, cols)
    ensures var out := MergeGroups(kind, cols, t, prio, ord);
            var ks := DistinctKeys(kind, t);
            && |out| == |ks|
            && (forall i :: 0 <= i < |out| ==> KeyOf(kind, out[i]) == ks[i])
            && (forall i, j :: 0 <= i < j < |out| ==> KeyLt(KeyOf(kind, out[i]), KeyOf(kind, out[j])))
            && (forall k :: Occurs(kind, t, k) <==> exists i :: 0 <= i < |out| && KeyOf(kind, out[i]) == k)
  {
    var ks := DistinctKeys(kind, t);
    var out := MergeOver(kind, cols, t, ks, prio, ord);
    assert forall k :: k in ks ==> Occurs(kind, t, k);
    MergeOverKeys(kind, cols, t, ks, prio, ord);
    forall k | Occurs(kind, t, k)
      ensures exists i :: 0 <= i < |out| && KeyOf(kind, out[i]) == k
    {
      var x :| x in t && KeyOf(kind, x) == k;
      assert k in ks;
      var i :| 0 <= i < |ks| && ks[i] == k;
      assert KeyOf(kind, out[i]) == k;
    }
  }

  /** The cells of the group behind output row i are the cells of exactly those rows of
      `t` that carry its key. */
  lemma GroupMembers(kind: Kind, t: Table, k: Key, x: Row)
    ensures x in GroupOf(kind, t, k) <==> InGroup(kind, t, k, x)
  {
  }

  /** Node `id` and edge key columns: copied unchanged from every row of the group. */
  lemma {:induction false} KeyCellsCopied(kind: Kind, cols: seq<string>, t: Table, prio: seq<string>, ord: Order, i: nat, c: string)
    requires i < |DistinctKeys(kind, t)| && c in cols && c in KeyColumns(kind)
    ensures var out := MergeGroups(kind, cols, t, prio, ord)[i];
            forall x :: InGroup(kind, t, DistinctKeys(kind, t)[i], x) ==> out[c] == Get(x, c)
  {
    var ks := DistinctKeys(kind, t);
    forall x | InGroup(kind, t, ks[i], x)
      ensures MergeGroups(kind, cols, t, prio, ord)[i][c] == Get(x, c)
    {
      PassThroughCell(kind, c, t, ks[i], prio, ord, x);
    }
  }

  /** The node name rule, stated over the rows of `t` with the output row's id:
      with a prioritised non-NULL name in the group, the output is the greatest such name
      (so never a name found only on non-prioritised rows); otherwise the greatest name of
      the group, and NULL when the group has no name at all. */
  lemma {:induction false} NodeNameRule(cols: seq<string>, t: Table, prio: seq<string>, ord: Order, i: nat)
    requires i < |DistinctKeys(Nodes, t)| && NameColumn in cols
    ensures var k := DistinctKeys(Nodes, t)[i];
            var n := MergeGroups(Nodes, cols, t, prio, ord)[i][NameColumn];
            var prioritized := exists x :: InGroup(Nodes, t, k, x) && Prioritized(x, prio) && Get(x, NameColumn).Some?;
            && (prioritized ==>
                  && n.Some?
                  && (exists x :: InGroup(Nodes, t, k, x) && Prioritized(x, prio) && Get(x, NameColumn) == n)
                  && (forall x :: InGroup(Nodes, t, k, x) && Prioritized(x, prio) && Get(x, NameColumn).Some? ==>
                        LexLe(Get(x, NameColumn).value, n.value)))
            && (!prioritized ==>
                  && (n.None? <==> forall x :: InGroup(Nodes, t, k, x) ==> Get(x, NameColumn).None?)
                  && (n.Some? ==>
                        && (exists x :: InGroup(Nodes, t, k, x) && Get(x, NameColumn) == n)
                        && (forall x :: InGroup(Nodes, t, k, x) && Get(x, NameColumn).Some? ==>
                              LexLe(Get(x, NameColumn).value, n.value))))
  {
    var k := DistinctKeys(Nodes, t)[i];
    var g := GroupOf(Nodes, t, k);
    assert MergeGroups(Nodes, cols, t, prio, ord)[i][NameColumn] == PriorityName(g, prio);
    assert HasPrioritizedName(g, prio) <==>
           exists x :: InGroup(Nodes, t, k, x) && Prioritized(x, prio) && Get(x, NameColumn).Some?;
  }

  /** Every other column: NULL exactly when the whole group is NULL there; otherwise its
      `|`-separated parts are exactly the distinct non-NULL values of that column in the
      group, each once, and ascending for a sorted merge. */
  lemma {:induction false} DistinctJoinRule(kind: Kind, cols: seq<string>, t: Table, prio: seq<string>, ord: Order, i: nat, c: string)
    requires i < |DistinctKeys(kind, t)| && c in cols && PolicyOf(kind, c) == DistinctJoin
    ensures var k := DistinctKeys(kind, t)[i];
            var v := MergeGroups(kind, cols, t, prio, ord)[i][c];
            var vals := NonNullValues(GroupOf(kind, t, k), c);
            && (v.None? <==> forall x :: InGroup(kind, t, k, x) ==> Get(x, c).None?)
            && (v.Some? && NoSeparator(vals) ==>
                  && Distinct(Split(v.value, Separator))
                  && (forall y :: y in Split(v.value, Separator) <==>
                                  exists x :: InGroup(kind, t, k, x) && Get(x, c) == Some(y))
                  && (ord == Sorted ==> StrictlySorted(Split(v.value, Separator))))
  {
    var k := DistinctKeys(kind, t)[i];
    var g := GroupOf(kind, t, k);
    var vals := NonNullValues(g, c);
    assert MergeGroups(kind, cols, t, prio, ord)[i][c] == JoinDistinct(vals, ord);
    EmptyIffNoElements(vals);
  }

  /** The unbatched node merge (no ORDER BY in STRING_AGG) and the sorted merge agree on
      every pass-through and name cell, and on the set of `|`-parts of every joined cell,
      even when a value itself holds a `|`. */
  lemma UnorderedAgreesWithSorted(kind: Kind, cols: seq<string>, g: Table, prio: seq<string>, c: string)
    requires c in cols
    ensures var u := MergedRow(kind, cols, g, prio, Unordered)[c];
            var s := MergedRow(kind, cols, g, prio, Sorted)[c];
            && (PolicyOf(kind, c) != DistinctJoin ==> u == s)
            && (u.None? <==> s.None?)
            && (u.Some? ==> forall y :: y in Split(u.value, Separator) <==> y in Split(s.value, Separator))
  {
    var vals := NonNullValues(g, c);
    if PolicyOf(kind, c) == DistinctJoin && |vals| > 0 {
      var du, ds := Dedup(vals), SortDistinct(vals);
      assert vals[0] in du && vals[0] in ds;
      JoinSamePieces(du, ds, Separator);
    }
  }

  /** Two lists with the same elements have the same greatest element. */
  lemma MaxOfDependsOnElementsOnly(xs: seq<string>, ys: seq<string>)
    requires forall y :: y in xs <==> y in ys
    ensures MaxOf(xs) == MaxOf(ys)
  {
    EmptyIffNoElements(xs);
    EmptyIffNoElements(ys);
    var a, b := MaxOf(xs), MaxOf(ys);
    if a.Some? && b.Some? && a.value != b.value {
      assert LexLe(a.value, b.value) && LexLe(b.value, a.value);
      LexLtAsymmetric(a.value, b.value);
      assert false;
    }
  }

  /** Determinism of the sorted merge: it depends only on which rows the table holds,
      not on their order or repetition, so the same input gives the same output. */
  lemma MergeGroupsIgnoresRowOrder(kind: Kind, cols: seq<string>, t1: Table, t2: Table, prio: seq<string>)
    requires forall x :: x in t1 <==> x in t2
    ensures MergeGroups(kind, cols, t1, prio, Sorted) == MergeGroups(kind, cols, t2, prio, Sorted)
  {
    var ks := DistinctKeys(kind, t1);
    SortedKeysUnique(ks, DistinctKeys(kind, t2));
    var r1, r2 := MergeGroups(kind, cols, t1, prio, Sorted), MergeGroups(kind, cols, t2, prio, Sorted);
    forall i | 0 <= i < |ks| ensures r1[i] == r2[i] {
      assert ks[i] in ks;
      var x :| x in t1 && KeyOf(kind, x) == ks[i];
      SameRowsSameRow(kind, cols, t1, t2, ks[i], prio, x);
    }
  }

  /** One output row of the sorted merge depends only on which rows the table holds. */
  lemma SameRowsSameRow(kind: Kind, cols: seq<string>, t1: Table, t2: Table, k: Key, prio: seq<string>, x: Row)
    requires forall y :: y in t1 <==> y in t2
    requires x in t1 && KeyOf(kind, x) == k
    ensures MergedRow(kind, cols, GroupOf(kind, t1, k), prio, Sorted) == MergedRow(kind, cols, GroupOf(kind, t2, k), prio, Sorted)
  {
    forall c | c in cols
      ensures AggregateCell(kind, c, GroupOf(kind, t1, k), prio, Sorted) ==
              AggregateCell(kind, c, GroupOf(kind, t2, k), prio, Sorted)
    {
      SameRowsSameCell(kind, c, t1, t2, k, prio, x);
    }
  }

  /** One cell of the sorted merge depends only on which rows the table holds. */
  lemma SameRowsSameCell(kind: Kind, c: string, t1: Table, t2: Table, k: Key, prio: seq<string>, x: Row)
    requires forall y :: y in t1 <==> y in t2
    requires x in t1 && KeyOf(kind, x) == k
    ensures AggregateCell(kind, c, GroupOf(kind, t1, k), prio, Sorted) == AggregateCell(kind, c, GroupOf(kind, t2, k), prio, Sorted)
  {
    match PolicyOf(kind, c)
    case PassThrough =>
      PassThroughCell(kind, c, t1, k, prio, Sorted, x);
      PassThroughCell(kind, c, t2, k, prio, Sorted, x);
    case PriorityMax =>
      GroupsSameRows(kind, t1, t2, k);
      PriorityNameSameRows(GroupOf(kind, t1, k), GroupOf(kind, t2, k), prio);
    case DistinctJoin =>
      GroupsSameRows(kind, t1, t2, k);
      SortedJoinSameRows(GroupOf(kind, t1, k), GroupOf(kind, t2, k), c);
  }

  lemma GroupsSameRows(kind: Kind, t1: Table, t2: Table, k: Key)
    requires forall y :: y in t1 <==> y in t2
    ensures forall y :: y in GroupOf(kind, t1, k) <==> y in GroupOf(kind, t2, k)
  {
  }

  lemma PriorityNameSameRows(g1: Table, g2: Table, prio: seq<string>)
    requires forall y :: y in g1 <==> y in g2
    ensures PriorityName(g1, prio) == PriorityName(g2, prio)
  {
    MaxOfDependsOnElementsOnly(PrioritizedNames(g1, prio), PrioritizedNames(g2, prio));
    MaxOfDependsOnElementsOnly(NonNullValues(g1, NameColumn), NonNullValues(g2, NameColumn));
  }

  lemma SortedJoinSameRows(g1: Table, g2: Table, c: string)
    requires forall y :: y in g1 <==> y in g2
    ensures JoinDistinct(NonNullValues(g1, c), Sorted) == JoinDistinct(NonNullValues(g2, c), Sorted)
  {
    var v1, v2 := NonNullValues(g1, c), NonNullValues(g2, c);
    EmptyIffNoElements(v1);
    EmptyIffNoElements(v2);
    SortDistinctDependsOnElementsOnly(v1, v2);
  }
}
