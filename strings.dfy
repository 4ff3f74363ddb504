/** Text values: the lexicographic order VARCHAR comparison uses, sorted duplicate-free
    lists, the greatest element, `|`-joining with its inverse, and the decimal text of a
    number. */
module Strings {
  import opened Wrappers
  import opened Seqs

  /** Strict lexicographic order, character by character by code point; a proper prefix
      comes first. This is the order of MAX, ORDER BY and sorted() on text. */
  predicate LexLt(a: string, b: string)
    decreases |a|
  {
    if |a| == 0 then |b| > 0
    else if |b| == 0 then false
    else if a[0] == b[0] then LexLt(a[1..], b[1..])
    else a[0] < b[0]
  }

  predicate LexLe(a: string, b: string) {
    a == b || LexLt(a, b)
  }

  lemma {:induction false} LexLtIrreflexive(a: string)
    ensures !LexLt(a, a)
    decreases |a|
  {
    if |a| > 0 {
      LexLtIrreflexive(a[1..]);
    }
  }

  lemma {:induction false} LexLtAsymmetric(a: string, b: string)
    requires LexLt(a, b)
    ensures !LexLt(b, a)
    decreases |a|
  {
    if |a| > 0 && a[0] == b[0] {
      LexLtAsymmetric(a[1..], b[1..]);
    }
  }

  lemma {:induction false} LexLtTransitive(a: string, b: string, c: string)
    requires LexLt(a, b) && LexLt(b, c)
    ensures LexLt(a, c)
    decreases |a|
  {
    if |a| > 0 && a[0] == b[0] && b[0] == c[0] {
      LexLtTransitive(a[1..], b[1..], c[1..]);
    }
  }

  lemma {:induction false} LexLtTotal(a: string, b: string)
    requires a != b
    ensures LexLt(a, b) || LexLt(b, a)
    decreases |a|
  {
    if |a| > 0 && |b| > 0 && a[0] == b[0] {
      assert a == [a[0]] + a[1..] && b == [b[0]] + b[1..];
      LexLtTotal(a[1..], b[1..]);
    }
  }

  /** Ascending without repetition. */
  predicate StrictlySorted(s: seq<string>) {
    forall i, j :: 0 <= i < j < |s| ==> LexLt(s[i], s[j])
  }

  lemma StrictlySortedIsDistinct(s: seq<string>)
    requires StrictlySorted(s)
    ensures Distinct(s)
  {
    forall i, j | 0 <= i < j < |s| ensures s[i] != s[j] {
      if s[i] == s[j] {
        LexLtIrreflexive(s[i]);
        assert false;
      }
    }
  }

  /** Adds `x` to a sorted duplicate-free list, keeping it so. */
  function Insert(x: string, s: seq<string>): (r: seq<string>)
    requires StrictlySorted(s)
    ensures StrictlySorted(r)
    ensures forall y :: y in r <==> y == x || y in s
    decreases |s|
  {
    if |s| == 0 then [x]
    else if x == s[0] then s
    else if LexLt(x, s[0]) then
      assert forall k :: 0 <= k < |s| ==> LexLt(x, s[k]) by {
        forall k | 0 < k < |s| ensures LexLt(x, s[k]) {
          LexLtTransitive(x, s[0], s[k]);
        }
      }
      [x] + s
    else
      LexLtTotal(x, s[0]);
      var rest := Insert(x, s[1..]);
      assert forall y :: y in rest ==> LexLt(s[0], y) by {
        forall y | y in rest ensures LexLt(s[0], y) {
          if y != x {
            var k :| 0 <= k < |s[1..]| && s[1..][k] == y;
            assert s[k + 1] == y;
          }
        }
      }
      assert forall k :: 0 <= k < |rest| ==> rest[k] in rest;
      [s[0]] + rest
  }

  /** The distinct elements of `xs` in ascending order; the `ORDER BY` of a
      `STRING_AGG(DISTINCT ..)`, and Python's `sorted(set(..))`. */
  function SortDistinct(xs: seq<string>): (r: seq<string>)
    ensures StrictlySorted(r)
    ensures forall y :: y in r <==> y in xs
  {
    if |xs| == 0 then [] else Insert(xs[0], SortDistinct(xs[1..]))
  }

  lemma SortedHeadIsLeast(s: seq<string>, y: string)
    requires StrictlySorted(s) && y in s && y != s[0]
    ensures LexLt(s[0], y)
  {
    var k :| 0 <= k < |s| && s[k] == y;
  }

  /** Two sorted duplicate-free lists with the same elements are equal. */
  lemma {:induction false} StrictlySortedUnique(a: seq<string>, b: seq<string>)
    requires StrictlySorted(a) && StrictlySorted(b)
    requires forall y :: y in a <==> y in b
    ensures a == b
    decreases |a|
  {
    EmptyIffNoElements(a);
    EmptyIffNoElements(b);
    if |a| > 0 {
      assert |b| > 0 by { assert a[0] in b; }
      if a[0] != b[0] {
        SortedHeadIsLeast(b, a[0]);
        SortedHeadIsLeast(a, b[0]);
        LexLtAsymmetric(a[0], b[0]);
        assert false;
      }
      forall y ensures y in a[1..] <==> y in b[1..] {
        if y in a[1..] {
          var i :| 0 <= i < |a[1..]| && a[1..][i] == y;
          assert LexLt(a[0], a[i + 1]);
          LexLtIrreflexive(a[0]);
          assert y in b;
        }
        if y in b[1..] {
          var i :| 0 <= i < |b[1..]| && b[1..][i] == y;
          assert LexLt(b[0], b[i + 1]);
          LexLtIrreflexive(b[0]);
          assert y in a;
        }
      }
      StrictlySortedUnique(a[1..], b[1..]);
      assert a == [a[0]] + a[1..] && b == [b[0]] + b[1..];
    }
  }

  /** Sorting depends only on the elements, not on their order or repetition. */
  lemma SortDistinctDependsOnElementsOnly(xs: seq<string>, ys: seq<string>)
    requires forall y :: y in xs <==> y in ys
    ensures SortDistinct(xs) == SortDistinct(ys)
  {
    StrictlySortedUnique(SortDistinct(xs), SortDistinct(ys));
  }

  /** Python's `sorted(s)` for a set of strings. */
  method SortSet(s: set<string>) returns (r: seq<string>)
    ensures StrictlySorted(r)
    ensures forall y :: y in r <==> y in s
  {
    r := [];
    var rest := s;
    while rest != {}
      invariant StrictlySorted(r)
      invariant forall y :: y in s <==> y in r || y in rest
      decreases rest
    {
      var x :| x in rest;
      r := Insert(x, r);
      rest := rest - {x};
    }
  }

  /** The elements of `xs` that are not in `exclude`, in the same order. */
  function Without(xs: seq<string>, exclude: seq<string>): (r: seq<string>)
    ensures forall y :: y in r <==> y in xs && y !in exclude
    ensures StrictlySorted(xs) ==> StrictlySorted(r)
  {
    if |xs| == 0 then []
    else
      var rest := Without(xs[1..], exclude);
      assert StrictlySorted(xs) ==> forall y :: y in rest ==> LexLt(xs[0], y) by {
        if StrictlySorted(xs) {
          forall y | y in rest ensures LexLt(xs[0], y) {
            var k :| 0 <= k < |xs[1..]| && xs[1..][k] == y;
            assert xs[k + 1] == y;
          }
        }
      }
      assert forall k :: 0 <= k < |rest| ==> rest[k] in rest;
      if xs[0] in exclude then rest else [xs[0]] + rest
  }

  /** The greatest element, or None for an empty list; SQL `MAX` over the non-NULL values. */
  function MaxOf(xs: seq<string>): (r: Option<string>)
    ensures r.None? <==> |xs| == 0
    ensures r.Some? ==> r.value in xs && forall y :: y in xs ==> LexLe(y, r.value)
  {
    if |xs| == 0 then None
    else
      var m := MaxOf(xs[1..]);
      if m.None? then Some(xs[0])
      else if LexLt(m.value, xs[0]) then
        assert forall y :: y in xs[1..] ==> LexLt(y, xs[0]) by {
          forall y | y in xs[1..] ensures LexLt(y, xs[0]) {
            if y != m.value {
              LexLtTransitive(y, m.value, xs[0]);
            }
          }
        }
        Some(xs[0])
      else
        assert LexLe(xs[0], m.value) by {
          if xs[0] != m.value { LexLtTotal(xs[0], m.value); }
        }
        m
  }

  /** The parts joined with `sep` between them: `sep.join(parts)`. */
  function Join(parts: seq<string>, sep: char): string {
    if |parts| == 0 then ""
    else if |parts| == 1 then parts[0]
    else parts[0] + [sep] + Join(parts[1..], sep)
  }

  /** The pieces of `s` between occurrences of `sep`: `s.split(sep)`; at least one piece. */
  function Split(s: string, sep: char): (r: seq<string>)
    ensures |r| >= 1
  {
    if |s| == 0 then [""]
    else if s[0] == sep then [""] + Split(s[1..], sep)
    else
      var rest := Split(s[1..], sep);
      [[s[0]] + rest[0]] + rest[1..]
  }

  lemma {:induction false} SplitWithoutSeparator(p: string, sep: char)
    requires sep !in p
    ensures Split(p, sep) == [p]
  {
    if |p| > 0 {
      SplitWithoutSeparator(p[1..], sep);
      assert [p[0]] + p[1..] == p;
    }
  }

  lemma {:induction false} SplitAfterPart(p: string, sep: char, rest: string)
    requires sep !in p
    ensures Split(p + [sep] + rest, sep) == [p] + Split(rest, sep)
  {
    if |p| == 0 {
      assert p + [sep] + rest == [sep] + rest;
      assert ([sep] + rest)[1..] == rest;
    } else {
      var s := p + [sep] + rest;
      assert s[0] == p[0] && s[1..] == p[1..] + [sep] + rest;
      SplitAfterPart(p[1..], sep, rest);
      assert [p[0]] + p[1..] == p;
    }
  }

  /** Splitting undoes joining, as long as no part contains the separator. */
  lemma {:induction false} SplitJoin(parts: seq<string>, sep: char)
    requires |parts| >= 1
    requires forall p :: p in parts ==> sep !in p
    ensures Split(Join(parts, sep), sep) == parts
  {
    if |parts| == 1 {
      SplitWithoutSeparator(parts[0], sep);
    } else {
      SplitAfterPart(parts[0], sep, Join(parts[1..], sep));
      SplitJoin(parts[1..], sep);
      assert parts == [parts[0]] + parts[1..];
    }
  }

  /** Splitting at one separator splits each side on its own. */
  lemma {:induction false} SplitAround(a: string, sep: char, b: string)
    ensures Split(a + [sep] + b, sep) == Split(a, sep) + Split(b, sep)
  {
    var s := a + [sep] + b;
    if |a| == 0 {
      assert s == [sep] + b && s[1..] == b;
    } else {
      assert s[0] == a[0] && s[1..] == a[1..] + [sep] + b;
      SplitAround(a[1..], sep, b);
      var tail := Split(a[1..], sep);
      if a[0] != sep {
        assert (tail + Split(b, sep))[0] == tail[0];
        assert (tail + Split(b, sep))[1..] == tail[1..] + Split(b, sep);
      }
    }
  }

  /** The pieces of joined parts are the pieces of the parts, whatever they contain. */
  lemma {:induction false} SplitJoinPieces(parts: seq<string>, sep: char)
    requires |parts| >= 1
    ensures forall y :: y in Split(Join(parts, sep), sep) <==> exists p :: p in parts && y in Split(p, sep)
  {
    if |parts| > 1 {
      SplitAround(parts[0], sep, Join(parts[1..], sep));
      SplitJoinPieces(parts[1..], sep);
      assert forall p :: p in parts <==> p == parts[0] || p in parts[1..];
    }
  }

  /** Joining two lists with the same elements gives the same pieces. */
  lemma JoinSamePieces(xs: seq<string>, ys: seq<string>, sep: char)
    requires |xs| >= 1 && |ys| >= 1
    requires forall p :: p in xs <==> p in ys
    ensures forall y :: y in Split(Join(xs, sep), sep) <==> y in Split(Join(ys, sep), sep)
  {
    SplitJoinPieces(xs, sep);
    SplitJoinPieces(ys, sep);
  }

  function DigitChar(d: nat): char
    requires d < 10
  {
    ('0' as int + d) as char
  }

  predicate IsDigit(ch: char) {
    '0' <= ch <= '9'
  }

  /** The decimal text of a number, as a cast to VARCHAR writes it: no leading zero. */
  function Decimal(n: nat): (s: string)
    ensures |s| >= 1 && forall k :: 0 <= k < |s| ==> IsDigit(s[k])
  {
    if n < 10 then [DigitChar(n)] else Decimal(n / 10) + [DigitChar(n % 10)]
  }

  /** The number a digit string denotes. */
  function ParseDecimal(s: string): nat
    requires forall k :: 0 <= k < |s| ==> IsDigit(s[k])
  {
    if |s| == 0 then 0
    else
      var last := s[|s| - 1];
      assert IsDigit(last);
      ParseDecimal(s[..|s| - 1]) * 10 + (last as int - '0' as int)
  }

  lemma {:induction false} DecimalRoundTrip(n: nat)
    ensures ParseDecimal(Decimal(n)) == n
  {
    if n >= 10 {
      DecimalRoundTrip(n / 10);
      var s := Decimal(n);
      assert s[..|s| - 1] == Decimal(n / 10);
    }
  }

  /** Only 1 is written `1`. */
  lemma DecimalOne(n: nat)
    ensures Decimal(n) == "1" <==> n == 1
  {
    DecimalRoundTrip(n);
    if Decimal(n) == "1" {
      assert ParseDecimal("1") == 1 by { assert "1"[..0] == ""; }
    }
  }

  /** Python's `s.startswith(prefix)`. */
  predicate StartsWith(s: string, prefix: string) {
    |prefix| <= |s| && s[..|prefix|] == prefix
  }

  /** Python's `sub in s` on strings. */
  function Contains(s: string, sub: string): (r: bool)
    ensures r <==> exists i :: 0 <= i <= |s| && StartsWith(s[i..], sub)
    decreases |s|
  {
    if StartsWith(s, sub) then
      assert s[0..] == s;
      true
    else if |s| == 0 then false
    else
      var r := Contains(s[1..], sub);
      assert r ==> exists i :: 0 <= i <= |s| && StartsWith(s[i..], sub) by {
        if r {
          var i :| 0 <= i <= |s[1..]| && StartsWith(s[1..][i..], sub);
          assert s[1..][i..] == s[i + 1..];
        }
      }
      assert (exists i :: 0 <= i <= |s| && StartsWith(s[i..], sub)) ==> r by {
        if exists i :: 0 <= i <= |s| && StartsWith(s[i..], sub) {
          var i :| 0 <= i <= |s| && StartsWith(s[i..], sub);
          assert s[0..] == s;
          assert i > 0;
          assert s[1..][i - 1..] == s[i..];
        }
      }
      r
  }
}
