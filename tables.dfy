/** Rows, tables, grouping keys and the lines of an output file.
    Every column is text; a missing cell is SQL NULL. */
module Tables {
  import opened Wrappers
  import opened Seqs
  import opened Strings

  /** A cell: a text value, or NULL. */
  type Value = Option<string>

  /** A row maps column names to cells. */
  type Row = map<string, Value>

  /** A table is its rows in order. */
  type Table = seq<Row>

  /** A grouping key: the cells of the key columns, in key-column order. */
  type Key = seq<Value>

  /** The cell of column `c`; NULL when the row has no such column. */
  function Get(r: Row, c: string): Value {
    if c in r then r[c] else None
  }

  /** One line of a tab-separated output file: the header or a data row. */
  datatype Line = Header(columns: seq<string>) | Data(row: Row)

  function DataLines(t: Table): (r: seq<Line>)
    ensures |r| == |t|
    ensures forall i :: 0 <= i < |t| ==> r[i] == Data(t[i])
  {
    seq(|t|, i requires 0 <= i < |t| => Data(t[i]))
  }

  lemma DataLinesAppend(t1: Table, t2: Table)
    ensures DataLines(t1 + t2) == DataLines(t1) + DataLines(t2)
  {
  }

  // ---------------------------------------------------------------------------
  // Order of cells and keys: ascending text order with NULLS LAST, the default
  // of ORDER BY and of ROW_NUMBER() OVER (ORDER BY ..).

  predicate ValueLt(a: Value, b: Value) {
    a.Some? && (b.None? || LexLt(a.value, b.value))
  }

  lemma ValueLtIrreflexive(a: Value)
    ensures !ValueLt(a, a)
  {
    if a.Some? { LexLtIrreflexive(a.value); }
  }

  lemma ValueLtAsymmetric(a: Value, b: Value)
    requires ValueLt(a, b)
    ensures !ValueLt(b, a)
  {
    if b.Some? { LexLtAsymmetric(a.value, b.value); }
  }

  lemma ValueLtTransitive(a: Value, b: Value, c: Value)
    requires ValueLt(a, b) && ValueLt(b, c)
    ensures ValueLt(a, c)
  {
    if c.Some? { LexLtTransitive(a.value, b.value, c.value); }
  }

  lemma ValueLtTotal(a: Value, b: Value)
    requires a != b
    ensures ValueLt(a, b) || ValueLt(b, a)
  {
    if a.Some? && b.Some? { LexLtTotal(a.value, b.value); }
  }

  /** Keys compared column by column (ORDER BY subject, predicate, object). */
  predicate KeyLt(a: Key, b: Key)
    decreases |a|
  {
    if |a| == 0 then |b| > 0
    else if |b| == 0 then false
    else if a[0] == b[0] then KeyLt(a[1..], b[1..])
    else ValueLt(a[0], b[0])
  }

  lemma {:induction false} KeyLtIrreflexive(a: Key)
    ensures !KeyLt(a, a)
    decreases |a|
  {
    if |a| > 0 { KeyLtIrreflexive(a[1..]); }
  }

  lemma {:induction false} KeyLtAsymmetric(a: Key, b: Key)
    requires KeyLt(a, b)
    ensures !KeyLt(b, a)
    decreases |a|
  {
    if |a| > 0 {
      if a[0] == b[0] { KeyLtAsymmetric(a[1..], b[1..]); } else { ValueLtAsymmetric(a[0], b[0]); }
    }
  }

  lemma {:induction false} KeyLtTransitive(a: Key, b: Key, c: Key)
    requires KeyLt(a, b) && KeyLt(b, c)
    ensures KeyLt(a, c)
    decreases |a|
  {
    if |a| > 0 {
      if a[0] == b[0] && b[0] == c[0] {
        KeyLtTransitive(a[1..], b[1..], c[1..]);
      } else if a[0] != b[0] && b[0] != c[0] {
        ValueLtTransitive(a[0], b[0], c[0]);
        ValueLtIrreflexive(a[0]);
      }
    }
  }

  lemma {:induction false} KeyLtTotal(a: Key, b: Key)
    requires a != b
    ensures KeyLt(a, b) || KeyLt(b, a)
    decreases |a|
  {
    if |a| > 0 && |b| > 0 {
      if a[0] == b[0] {
        assert a == [a[0]] + a[1..] && b == [b[0]] + b[1..];
        KeyLtTotal(a[1..], b[1..]);
      } else {
        ValueLtTotal(a[0], b[0]);
      }
    }
  }

  /** Ascending without repetition. */
  predicate KeysSorted(ks: seq<Key>) {
    forall i, j :: 0 <= i < j < |ks| ==> KeyLt(ks[i], ks[j])
  }

  function InsertKey(k: Key, ks: seq<Key>): (r: seq<Key>)
    requires KeysSorted(ks)
    ensures KeysSorted(r)
    ensures forall y :: y in r <==> y == k || y in ks
    decreases |ks|
  {
    if |ks| == 0 then [k]
    else if k == ks[0] then ks
    else if KeyLt(k, ks[0]) then
      assert forall j :: 0 < j < |ks| ==> KeyLt(k, ks[j]) by {
        forall j | 0 < j < |ks| ensures KeyLt(k, ks[j]) {
          KeyLtTransitive(k, ks[0], ks[j]);
        }
      }
      [k] + ks
    else
      KeyLtTotal(k, ks[0]);
      var rest := InsertKey(k, ks[1..]);
      assert forall y :: y in rest ==> KeyLt(ks[0], y) by {
        forall y | y in rest ensures KeyLt(ks[0], y) {
          if y != k {
            var j :| 0 <= j < |ks[1..]| && ks[1..][j] == y;
            assert ks[j + 1] == y;
          }
        }
      }
      assert forall j :: 0 <= j < |rest| ==> rest[j] in rest;
      [ks[0]] + rest
  }

  /** The distinct keys in ascending order: SELECT DISTINCT .. ORDER BY. */
  function SortDistinctKeys(ks: seq<Key>): (r: seq<Key>)
    ensures KeysSorted(r)
    ensures forall y :: y in r <==> y in ks
  {
    if |ks| == 0 then [] else InsertKey(ks[0], SortDistinctKeys(ks[1..]))
  }

  lemma SortedKeysHeadIsLeast(ks: seq<Key>, y: Key)
    requires KeysSorted(ks) && y in ks && y != ks[0]
    ensures KeyLt(ks[0], y)
  {
    var j :| 0 <= j < |ks| && ks[j] == y;
  }

  /** Two ascending duplicate-free key lists with the same keys are equal. */
  lemma {:induction false} SortedKeysUnique(a: seq<Key>, b: seq<Key>)
    requires KeysSorted(a) && KeysSorted(b)
    requires forall y :: y in a <==> y in b
    ensures a == b
    decreases |a|
  {
    EmptyIffNoElements(a);
    EmptyIffNoElements(b);
    if |a| > 0 {
      if a[0] != b[0] {
        SortedKeysHeadIsLeast(b, a[0]);
        SortedKeysHeadIsLeast(a, b[0]);
        KeyLtAsymmetric(a[0], b[0]);
        assert false;
      }
      forall y ensures y in a[1..] <==> y in b[1..] {
        if y in a[1..] {
          var i :| 0 <= i < |a[1..]| && a[1..][i] == y;
          assert KeyLt(a[0], a[i + 1]);
          KeyLtIrreflexive(a[0]);
          assert y in b;
        }
        if y in b[1..] {
          var i :| 0 <= i < |b[1..]| && b[1..][i] == y;
          assert KeyLt(b[0], b[i + 1]);
          KeyLtIrreflexive(b[0]);
          assert y in a;
        }
      }
      SortedKeysUnique(a[1..], b[1..]);
      assert a == [a[0]] + a[1..] && b == [b[0]] + b[1..];
    }
  }

  /** A key with a NULL cell; such a key never matches in an equality join. */
  predicate HasNull(k: Key) {
    None in k
  }

  /** The keys without a NULL cell, in the same order. */
  function NonNullKeys(ks: seq<Key>): (r: seq<Key>)
    ensures forall y :: y in r <==> y in ks && !HasNull(y)
    ensures |r| <= |ks|
  {
    if |ks| == 0 then []
    else
      var rest := NonNullKeys(ks[1..]);
      assert forall y :: y in ks <==> y == ks[0] || y in ks[1..] by {
        assert ks == [ks[0]] + ks[1..];
      }
      if HasNull(ks[0]) then rest else [ks[0]] + rest
  }

  /** Dropping the keys with a NULL keeps an ascending list ascending. */
  lemma {:induction false} NonNullKeysSorted(ks: seq<Key>)
    requires KeysSorted(ks)
    ensures KeysSorted(NonNullKeys(ks))
    decreases |ks|
  {
    if |ks| > 0 {
      var rest := NonNullKeys(ks[1..]);
      assert KeysSorted(ks[1..]);
      NonNullKeysSorted(ks[1..]);
      forall y | y in rest ensures KeyLt(ks[0], y) {
        var j :| 0 <= j < |ks[1..]| && ks[1..][j] == y;
        assert ks[j + 1] == y;
      }
      assert forall j :: 0 <= j < |rest| ==> rest[j] in rest;
    }
  }

  lemma {:induction false} NonNullKeysAppend(a: seq<Key>, b: seq<Key>)
    ensures NonNullKeys(a + b) == NonNullKeys(a) + NonNullKeys(b)
    decreases |a|
  {
    if |a| > 0 {
      var ab := a + b;
      assert ab[0] == a[0] && ab[1..] == a[1..] + b;
      NonNullKeysAppend(a[1..], b);
      var ra, rb := NonNullKeys(a[1..]), NonNullKeys(b);
      if !HasNull(a[0]) {
        assert [a[0]] + (ra + rb) == ([a[0]] + ra) + rb;
      }
    } else {
      assert a + b == b;
    }
  }

  lemma {:induction false} NonNullKeysIdentity(ks: seq<Key>)
    requires forall k :: k in ks ==> !HasNull(k)
    ensures NonNullKeys(ks) == ks
    decreases |ks|
  {
    if |ks| > 0 {
      NonNullKeysIdentity(ks[1..]);
      assert ks == [ks[0]] + ks[1..];
    }
  }
}
