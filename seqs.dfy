/** Generic helpers on sequences: duplicate-freedom and first-occurrence de-duplication. */
module Seqs {

  /** No element occurs twice. */
  predicate Distinct<T(==)>(s: seq<T>) {
    forall i, j :: 0 <= i < j < |s| ==> s[i] != s[j]
  }

  lemma EmptyIffNoElements<T>(s: seq<T>)
    ensures |s| == 0 <==> forall y :: y !in s
  {
    if |s| > 0 {
      assert s[0] in s;
    }
  }

  /** The elements of `xs`, each once, in the order of their first occurrence. */
  function Dedup<T(==,!new)>(xs: seq<T>): (r: seq<T>)
    ensures Distinct(r)
    ensures forall y :: y in r <==> y in xs
    ensures |r| <= |xs|
  {
    if |xs| == 0 then []
    else
      var t := Dedup(xs[..|xs| - 1]);
      assert forall y :: y in xs <==> y in xs[..|xs| - 1] || y == xs[|xs| - 1] by {
        assert xs == xs[..|xs| - 1] + [xs[|xs| - 1]];
      }
      if xs[|xs| - 1] in t then t else t + [xs[|xs| - 1]]
  }

  /** Concatenation of a sequence of sequences. */
  function Flatten<T(!new)>(xss: seq<seq<T>>): (r: seq<T>)
    ensures forall y :: y in r <==> exists k :: 0 <= k < |xss| && y in xss[k]
  {
    if |xss| == 0 then []
    else
      var n := |xss| - 1;
      var r := Flatten(xss[..n]) + xss[n];
      assert forall k :: 0 <= k < n ==> xss[..n][k] == xss[k];
      r
  }

  /** Flattening distributes over concatenation, so the order of the parts is kept. */
  lemma {:induction false} FlattenAppend<T(!new)>(a: seq<seq<T>>, b: seq<seq<T>>)
    ensures Flatten(a + b) == Flatten(a) + Flatten(b)
    decreases |b|
  {
    if |b| == 0 {
      assert a + b == a;
    } else {
      var n := |b| - 1;
      assert (a + b)[..|a + b| - 1] == a + b[..n];
      FlattenAppend(a, b[..n]);
    }
  }
}
