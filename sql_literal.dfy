/** How the node merges splice the priority list into the SQL text of the `name`
    aggregate. The list is written inside a single-quoted SQL string literal (the
    expression builder's template), so a quote inside it must be doubled; the unbatched
    merge does not, the batched one does. */
module SqlLiteral {
  import opened Wrappers

  const Quote: char := '\''

  /** The template text around the priority list, before and after it. */
  const NamePrefix: string := "COALESCE(MAX(CASE WHEN provided_by IN ("
  const NameSuffix: string := ") THEN "

  /** The template text around the list holds no quote. */
  lemma TemplateQuoteFree()
    ensures Quote !in NamePrefix && Quote !in NameSuffix
  {
  }

  /** The SQL scanner inside a string literal whose body starts at `i`: the index of the
      closing quote; a doubled quote is an escaped quote and does not close it. */
  function ScanLiteral(s: string, i: nat): (r: Option<nat>)
    ensures r.Some? ==> i <= r.value < |s| && s[r.value] == Quote
    decreases |s| - i
  {
    if i >= |s| then None
    else if s[i] == Quote then
      if i + 1 < |s| && s[i + 1] == Quote then ScanLiteral(s, i + 2) else Some(i)
    else ScanLiteral(s, i + 1)
  }

  /** A literal body as SQL writes it: every quote doubled. */
  function Escape(x: string): (e: string)
    ensures |e| >= |x|
  {
    if |x| == 0 then ""
    else (if x[0] == Quote then [Quote, Quote] else [x[0]]) + Escape(x[1..])
  }

  /** The value a literal body denotes: each doubled quote read as one quote. */
  function Unescape(body: string): string {
    if |body| == 0 then ""
    else if |body| >= 2 && body[0] == Quote && body[1] == Quote then [Quote] + Unescape(body[2..])
    else [body[0]] + Unescape(body[1..])
  }

  lemma {:induction false} UnescapeEscape(x: string)
    ensures Unescape(Escape(x)) == x
  {
    if |x| > 0 {
      UnescapeEscape(x[1..]);
      var e := Escape(x);
      if x[0] == Quote {
        assert e[2..] == Escape(x[1..]);
      } else {
        assert e[1..] == Escape(x[1..]);
      }
    }
  }

  lemma {:induction false} EscapeAppend(a: string, b: string)
    ensures Escape(a + b) == Escape(a) + Escape(b)
  {
    if |a| > 0 {
      assert (a + b)[1..] == a[1..] + b;
      EscapeAppend(a[1..], b);
    } else {
      assert a + b == b;
    }
  }

  lemma {:induction false} EscapeWithoutQuote(x: string)
    requires Quote !in x
    ensures Escape(x) == x
  {
    if |x| > 0 {
      EscapeWithoutQuote(x[1..]);
    }
  }

  /** Scanning passes over text without a quote. */
  lemma {:induction false} ScanSkipsPlainText(s: string, i: nat, j: nat)
    requires i <= j <= |s| && Quote !in s[i..j]
    ensures ScanLiteral(s, i) == ScanLiteral(s, j)
    decreases j - i
  {
    if i < j {
      assert s[i] == s[i..j][0];
      assert s[i + 1..j] == s[i..j][1..];
      ScanSkipsPlainText(s, i + 1, j);
    }
  }

  /** An escaped body followed by a lone quote: the scanner stops at that quote. */
  lemma {:induction false} ScanEscapedBody(s: string, i: nat, x: string)
    requires i + |Escape(x)| < |s| && s[i..i + |Escape(x)|] == Escape(x)
    requires s[i + |Escape(x)|] == Quote
    requires i + |Escape(x)| + 1 == |s| || s[i + |Escape(x)| + 1] != Quote
    ensures ScanLiteral(s, i) == Some(i + |Escape(x)|)
    decreases |x|
  {
    var e := Escape(x);
    if |x| > 0 {
      var e' := Escape(x[1..]);
      if x[0] == Quote {
        assert e == [Quote, Quote] + e';
        assert s[i] == e[0] && s[i + 1] == e[1];
        assert s[i + 2..i + 2 + |e'|] == e[2..] == e';
        ScanEscapedBody(s, i + 2, x[1..]);
      } else {
        assert e == [x[0]] + e';
        assert s[i] == e[0];
        assert s[i + 1..i + 1 + |e'|] == e[1..] == e';
        ScanEscapedBody(s, i + 1, x[1..]);
      }
    }
  }

  /** A literal written as quote, escaped value, quote: it spans the whole text and
      denotes the value. */
  lemma EscapedLiteralRoundTrip(x: string)
    ensures var lit := [Quote] + Escape(x) + [Quote];
            ScanLiteral(lit, 1) == Some(|lit| - 1) && Unescape(lit[1..|lit| - 1]) == x
  {
    var lit := [Quote] + Escape(x) + [Quote];
    assert lit[1..1 + |Escape(x)|] == Escape(x);
    ScanEscapedBody(lit, 1, x);
    assert lit[1..|lit| - 1] == Escape(x);
    UnescapeEscape(x);
  }

  /** `f"'{source}'"`: a source as an SQL string literal. */
  function Quoted(source: string): string {
    [Quote] + source + [Quote]
  }

  /** `f"''{source}''"`: the same literal written inside an enclosing literal. */
  function DoubleQuoted(source: string): string {
    [Quote, Quote] + source + [Quote, Quote]
  }

  /** `", ".join(...)` of the quoted sources: the `IN (...)` list the name rule needs. */
  function InList(prio: seq<string>): string {
    if |prio| == 0 then ""
    else if |prio| == 1 then Quoted(prio[0])
    else Quoted(prio[0]) + ", " + InList(prio[1..])
  }

  /** The list line 361 builds, each quote doubled. */
  function BatchedInList(prio: seq<string>): string {
    if |prio| == 0 then ""
    else if |prio| == 1 then DoubleQuoted(prio[0])
    else DoubleQuoted(prio[0]) + ", " + BatchedInList(prio[1..])
  }

  /** The text the name-rule template is meant to denote. */
  function IntendedNameText(prio: seq<string>): string {
    NamePrefix + InList(prio) + NameSuffix
  }

  /** The template literal of the unbatched merge, as written: the list spliced in raw. */
  function UnbatchedNameLiteral(prio: seq<string>): (lit: string)
    ensures |lit| == |IntendedNameText(prio)| + 2
  {
    [Quote] + NamePrefix + InList(prio) + NameSuffix + [Quote]
  }

  /** The template literal of the batched merge. */
  function BatchedNameLiteral(prio: seq<string>): string {
    [Quote] + NamePrefix + BatchedInList(prio) + NameSuffix + [Quote]
  }

  /** As written, the unbatched literal closes at the quote that opens the first source:
      the rest of the intended text, from the source name on, is read as SQL tokens, so
      the expression builder cannot parse the query for any priority list whose first
      source does not start with a quote (`["chebi.json"]`, say). */
  lemma UnbatchedLiteralClosesEarly(prio: seq<string>)
    requires |prio| > 0 && |prio[0]| > 0 && prio[0][0] != Quote
    ensures var lit := UnbatchedNameLiteral(prio);
            ScanLiteral(lit, 1) == Some(1 + |NamePrefix|) && 1 + |NamePrefix| < |lit| - 1
  {
    TemplateQuoteFree();
    var first := Quoted(prio[0]);
    var rest := InList(prio) + NameSuffix + [Quote];
    assert InList(prio)[..|first|] == first;
    assert rest[0] == Quote && rest[1] == prio[0][0];
    assert UnbatchedNameLiteral(prio) == [Quote] + NamePrefix + rest;
    ClosesAfterPlainText(NamePrefix, rest);
  }

  /** After quote-free text, a lone quote closes the literal. */
  lemma ClosesAfterPlainText(pre: string, rest: string)
    requires Quote !in pre && |rest| >= 2 && rest[0] == Quote && rest[1] != Quote
    ensures ScanLiteral([Quote] + pre + rest, 1) == Some(1 + |pre|)
  {
    var lit := [Quote] + pre + rest;
    assert lit[1..1 + |pre|] == pre;
    assert lit[1 + |pre|] == Quote && lit[2 + |pre|] == rest[1];
    ScanSkipsPlainText(lit, 1, 1 + |pre|);
  }

  lemma {:induction false} BatchedInListEscapes(prio: seq<string>)
    requires forall k :: 0 <= k < |prio| ==> Quote !in prio[k]
    ensures BatchedInList(prio) == Escape(InList(prio))
    decreases |prio|
  {
    if |prio| > 0 {
      var s := prio[0];
      EscapeWithoutQuote(s);
      EscapeAppend([Quote], s);
      EscapeAppend([Quote] + s, [Quote]);
      assert Escape([Quote]) == [Quote, Quote];
      assert Escape(Quoted(s)) == DoubleQuoted(s);
      if |prio| > 1 {
        BatchedInListEscapes(prio[1..]);
        EscapeAppend(Quoted(s), ", ");
        EscapeWithoutQuote(", ");
        EscapeAppend(Quoted(s) + ", ", InList(prio[1..]));
      }
    }
  }

  /** Escaping quote-free text around a value escapes only the value. */
  lemma EscapeSplice(pre: string, x: string, suf: string)
    requires Quote !in pre && Quote !in suf
    ensures Escape(pre + x + suf) == pre + Escape(x) + suf
  {
    EscapeWithoutQuote(pre);
    EscapeWithoutQuote(suf);
    EscapeAppend(pre, x);
    EscapeAppend(pre + x, suf);
  }

  lemma Regroup(q: string, a: string, b: string, c: string)
    ensures q + a + b + c + q == q + (a + b + c) + q
  {
  }

  /** Splicing an escaped value between quote-free text keeps the literal whole. */
  lemma SplicedRoundTrip(pre: string, x: string, suf: string, escaped: string)
    requires Quote !in pre && Quote !in suf && escaped == Escape(x)
    ensures var lit := [Quote] + pre + escaped + suf + [Quote];
            ScanLiteral(lit, 1) == Some(|lit| - 1) && Unescape(lit[1..|lit| - 1]) == pre + x + suf
  {
    EscapeSplice(pre, x, suf);
    Regroup([Quote], pre, escaped, suf);
    EscapedLiteralRoundTrip(pre + x + suf);
  }

  /** Corrected: with each quote doubled, the batched literal spans the whole template and
      denotes exactly the intended text, for every priority list of quote-free sources. */
  lemma BatchedLiteralRoundTrip(prio: seq<string>)
    requires forall k :: 0 <= k < |prio| ==> Quote !in prio[k]
    ensures var lit := BatchedNameLiteral(prio);
            ScanLiteral(lit, 1) == Some(|lit| - 1) && Unescape(lit[1..|lit| - 1]) == IntendedNameText(prio)
  {
    TemplateQuoteFree();
    BatchedInListEscapes(prio);
    SplicedRoundTrip(NamePrefix, InList(prio), NameSuffix, BatchedInList(prio));
  }
}
