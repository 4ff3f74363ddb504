/** The dangling-edge check over a merged graph: the distinct edge endpoints that are no
    node id, the `missing_nodes.tsv` listing, and a category guessed from each id's
    prefix for `missing_nodes_with_category.tsv`. */
module Dangling {
  import opened Wrappers
  import opened Seqs
  import opened Strings
  import opened Tables

  /** The two columns the check loads from the edge file. */
  datatype EdgeEnds = EdgeEnds(subjectId: Value, objectId: Value)

  /** `v` is the subject or the object of some edge; NULL endpoints count. */
  predicate IsEndpoint(edges: seq<EdgeEnds>, v: Value) {
    exists e :: e in edges && (e.subjectId == v || e.objectId == v)
  }

  /** The left join on `id` finds a node: equality never holds for NULL. */
  predicate Matched(nodes: seq<Value>, v: Value) {
    v.Some? && v in nodes
  }

  /** All subjects, then all objects. */
  function Endpoints(edges: seq<EdgeEnds>): (r: seq<Value>)
    ensures forall v :: v in r <==> IsEndpoint(edges, v)
  {
    var subjects := seq(|edges|, i requires 0 <= i < |edges| => edges[i].subjectId);
    var objects := seq(|edges|, i requires 0 <= i < |edges| => edges[i].objectId);
    assert forall v :: IsEndpoint(edges, v) ==> v in subjects + objects by {
      forall v | IsEndpoint(edges, v) ensures v in subjects + objects {
        var e :| e in edges && (e.subjectId == v || e.objectId == v);
        var i :| 0 <= i < |edges| && edges[i] == e;
        assert subjects[i] == e.subjectId && objects[i] == e.objectId;
      }
    }
    subjects + objects
  }

  /** The values of `vs` no node matches, in order. */
  function Unmatched(vs: seq<Value>, nodes: seq<Value>): (r: seq<Value>)
    ensures forall v :: v in r <==> v in vs && !Matched(nodes, v)
  {
    if |vs| == 0 then []
    else
      var n := |vs| - 1;
      assert vs == vs[..n] + [vs[n]];
      Unmatched(vs[..n], nodes) + (if Matched(nodes, vs[n]) then [] else [vs[n]])
  }

  /** The result of the missing-id query: the distinct endpoints (the `UNION` of the
      distinct subjects and objects) that no node id matches. The engine returns them in an
      order of its own; the model lists them by first occurrence. */
  function MissingIds(edges: seq<EdgeEnds>, nodes: seq<Value>): (r: seq<Value>)
    ensures Distinct(r)
    ensures forall v :: v in r <==> IsEndpoint(edges, v) && !Matched(nodes, v)
  {
    Dedup(Unmatched(Endpoints(edges), nodes))
  }

  /** The check reports nothing exactly when every subject and object is a non-null node
      id. */
  lemma NoMissingIdsIffClosed(edges: seq<EdgeEnds>, nodes: seq<Value>)
    ensures MissingIds(edges, nodes) == [] <==>
            forall e :: e in edges ==> Matched(nodes, e.subjectId) && Matched(nodes, e.objectId)
  {
    var r := MissingIds(edges, nodes);
    EmptyIffNoElements(r);
    if r != [] {
      var v := r[0];
      assert IsEndpoint(edges, v) && !Matched(nodes, v);
    }
  }

  /** More nodes can only shrink the set of missing ids. */
  lemma MoreNodesFewerMissing(edges: seq<EdgeEnds>, nodes: seq<Value>, extra: seq<Value>)
    ensures forall v :: v in MissingIds(edges, nodes + extra) ==> v in MissingIds(edges, nodes)
  {
    forall v | v in MissingIds(edges, nodes + extra) ensures v in MissingIds(edges, nodes) {
      assert Matched(nodes, v) ==> Matched(nodes + extra, v);
    }
  }

  /** The prefix table, in the dictionary's insertion order. */
  const CategoryMapping: seq<(string, string)> := [
    ("EC:", "biolink:Enzyme"),
    ("assay:", "biolink:PhenotypicQuality"),
    ("trophic_type:", "biolink:BiologicalProcess"),
    ("cell_shape:", "biolink:PhenotypicQuality"),
    ("UniprotKB:", "biolink:Enzyme"),
    ("medium:", "biolink:ChemicalEntity"),
    ("carbon_substrates:", "biolink:ChemicalEntity")
  ]

  const UnknownCategory: string := "Unknown"

  /** `determine_category` over a prefix table: the category of the first prefix the id
      starts with, else `Unknown`. */
  function CategoryIn(id: string, mapping: seq<(string, string)>): (r: string)
    ensures (forall k :: 0 <= k < |mapping| ==> !StartsWith(id, mapping[k].0)) ==> r == UnknownCategory
    ensures forall k :: (0 <= k < |mapping| && StartsWith(id, mapping[k].0) &&
                         forall k' :: 0 <= k' < k ==> !StartsWith(id, mapping[k'].0)) ==> r == mapping[k].1
    ensures r == UnknownCategory || exists k :: 0 <= k < |mapping| && r == mapping[k].1
  {
    if |mapping| == 0 then UnknownCategory
    else if StartsWith(id, mapping[0].0) then mapping[0].1
    else
      var r := CategoryIn(id, mapping[1..]);
      assert forall k :: 0 < k < |mapping| ==> mapping[k] == mapping[1..][k - 1];
      r
  }

  /** `determine_category`. */
  function DetermineCategory(id: string): string {
    CategoryIn(id, CategoryMapping)
  }

  /** A prefix that ends with its only ':'. */
  predicate ColonTerminated(p: string) {
    |p| > 0 && p[|p| - 1] == ':' && ':' !in p[..|p| - 1]
  }

  lemma MappingPrefixesColonTerminated()
    ensures forall k :: 0 <= k < |CategoryMapping| ==> ColonTerminated(CategoryMapping[k].0)
  {
    forall k | 0 <= k < |CategoryMapping| ensures ColonTerminated(CategoryMapping[k].0) {
      var p := CategoryMapping[k].0;
      assert p[..|p| - 1] == ["EC", "assay", "trophic_type", "cell_shape", "UniprotKB", "medium", "carbon_substrates"][k];
    }
  }

  /** The table's prefixes all have different lengths, so no two are equal. */
  lemma MappingPrefixesDistinct()
    ensures forall k, k' :: 0 <= k' < k < |CategoryMapping| ==> CategoryMapping[k'].0 != CategoryMapping[k].0
  {
    var lengths := [3, 6, 13, 11, 10, 7, 18];
    forall k | 0 <= k < |CategoryMapping| ensures |CategoryMapping[k].0| == lengths[k] {
    }
    assert forall k, k' :: 0 <= k' < k < |lengths| ==> lengths[k'] != lengths[k];
  }

  lemma ColonPrefixNotShorter(id: string, p: string, q: string)
    requires ColonTerminated(p) && ColonTerminated(q)
    requires StartsWith(id, p) && StartsWith(id, q)
    ensures |p| >= |q|
  {
    if |p| < |q| {
      assert false;
    }
  }

  /** Two colon-terminated prefixes of the same id are the same prefix. */
  lemma ColonPrefixesEqual(id: string, p: string, q: string)
    requires ColonTerminated(p) && ColonTerminated(q)
    requires StartsWith(id, p) && StartsWith(id, q)
    ensures p == q
  {
    ColonPrefixNotShorter(id, p, q);
    ColonPrefixNotShorter(id, q, p);
    assert p == id[..|p|] == q;
  }

  /** No prefix of the table is a prefix of another, so the first-match order never
      matters: any prefix the id starts with gives its category. */
  lemma {:induction false} CategoryOfAnyMatchingPrefix(id: string, k: nat)
    requires k < |CategoryMapping| && StartsWith(id, CategoryMapping[k].0)
    ensures DetermineCategory(id) == CategoryMapping[k].1
  {
    MappingPrefixesColonTerminated();
    MappingPrefixesDistinct();
    forall k' | 0 <= k' < k ensures !StartsWith(id, CategoryMapping[k'].0) {
      if StartsWith(id, CategoryMapping[k'].0) {
        ColonPrefixesEqual(id, CategoryMapping[k'].0, CategoryMapping[k].0);
        assert false;
      }
    }
  }

  /** How Python formats a fetched id: NULL prints as `None`. */
  function ShowValue(v: Value): string {
    match v
    case None => "None"
    case Some(s) => s
  }

  /** Reads one printed line of `missing_nodes.tsv` back as an id, taking `None` as NULL. */
  function ReadShown(line: string): Value {
    if line == "None" then None else Some(line)
  }

  /** A printed id reads back as itself, except the id `None`, which reads back as NULL. */
  lemma ShowValueRoundTrip(v: Value)
    ensures ReadShown(ShowValue(v)) == v <==> v != Some("None")
  {
  }

  /** Two values print alike exactly when they are equal or are NULL and the id `None`. */
  lemma ShowValueCollision(a: Value, b: Value)
    ensures ShowValue(a) == ShowValue(b) <==> a == b || (a in {None, Some("None")} && b in {None, Some("None")})
  {
  }

  /** `missing_nodes.tsv`: the header `id`, then one line per missing id, in order. */
  method WriteMissingNodes(missing: seq<Value>) returns (lines: seq<string>)
    ensures |lines| == |missing| + 1 && lines[0] == "id"
    ensures forall i :: 0 <= i < |missing| ==> lines[i + 1] == ShowValue(missing[i])
  {
    lines := ["id"];
    var i := 0;
    while i < |missing|
      invariant 0 <= i <= |missing|
      invariant |lines| == i + 1 && lines[0] == "id"
      invariant forall j :: 0 <= j < i ==> lines[j + 1] == ShowValue(missing[j])
    {
      lines := lines + [ShowValue(missing[i])];
      i := i + 1;
    }
  }

  /** One line of `missing_nodes_with_category.tsv`: id, category and an empty name. */
  function CategoryLine(id: string): string {
    id + "\t" + DetermineCategory(id) + "\t"
  }

  lemma MappingCategoriesHaveNoTab()
    ensures forall k :: 0 <= k < |CategoryMapping| ==> '\t' !in CategoryMapping[k].1
  {
    var labels := ["biolink:Enzyme", "biolink:PhenotypicQuality", "biolink:BiologicalProcess", "biolink:ChemicalEntity"];
    assert forall j :: 0 <= j < |labels| ==> '\t' !in labels[j];
    forall k | 0 <= k < |CategoryMapping| ensures '\t' !in CategoryMapping[k].1 {
      assert CategoryMapping[k].1 == labels[[0, 1, 2, 1, 0, 3, 3][k]];
    }
  }

  /** No category holds a tab. */
  lemma CategoryHasNoTab(id: string)
    ensures '\t' !in DetermineCategory(id)
  {
    MappingCategoriesHaveNoTab();
  }

  lemma ThreeFields(a: string, b: string)
    requires '\t' !in a && '\t' !in b
    ensures Split(a + "\t" + b + "\t", '\t') == [a, b, ""]
  {
    SplitWithoutSeparator("", '\t');
    SplitAfterPart(b, '\t', "");
    assert b + "\t" == b + ['\t'] + "";
    assert a + "\t" + b + "\t" == a + ['\t'] + (b + "\t");
    SplitAfterPart(a, '\t', b + "\t");
  }

  /** The category line has three tab-separated fields when the id holds no tab. */
  lemma CategoryLineFields(id: string)
    requires '\t' !in id
    ensures Split(CategoryLine(id), '\t') == [id, DetermineCategory(id), ""]
  {
    CategoryHasNoTab(id);
    ThreeFields(id, DetermineCategory(id));
  }

  /** `missing_nodes_with_category.tsv`: one category line per missing id, in order.
      `startswith` on a NULL id raises, so the file stops before the first NULL and the
      run does not complete. */
  method WriteCategories(missing: seq<Value>) returns (lines: seq<string>, completed: bool)
    ensures completed <==> None !in missing
    ensures |lines| <= |missing|
    ensures forall i :: 0 <= i < |lines| ==> missing[i].Some? && lines[i] == CategoryLine(missing[i].value)
    ensures completed ==> |lines| == |missing|
    ensures !completed ==> missing[|lines|] == None
  {
    lines := [];
    var i := 0;
    while i < |missing|
      invariant 0 <= i <= |missing| && |lines| == i
      invariant forall j :: 0 <= j < i ==> missing[j].Some? && lines[j] == CategoryLine(missing[j].value)
    {
      if missing[i].None? {
        return lines, false;
      }
      lines := lines + [CategoryLine(missing[i].value)];
      i := i + 1;
    }
    assert forall j :: 0 <= j < |missing| ==> missing[j] != None;
    completed := true;
  }
}
