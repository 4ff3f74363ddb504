/** `duckdb_merge`: the priority list is the first non-empty `provided_by` of every
    ontology node file, in file order; the node merge then runs over all node files with
    that list, and the edge merge over the edge files. */
module Priority {
  import opened Wrappers
  import opened Seqs
  import opened Strings
  import opened Tables
  import opened Loader
  import opened Merges

  const OntologiesMarker: string := "ontologies"
  const TsvSuffix: string := ".tsv"
  const ProvidedBy: string := "provided_by"

  /** The last path component: the text after the last '/'. */
  function PathName(path: string): (name: string)
    ensures '/' !in name
  {
    if |path| == 0 || path[|path| - 1] == '/' then ""
    else PathName(path[..|path| - 1]) + [path[|path| - 1]]
  }

  /** The name is the whole text after the last '/': a suffix of the path preceded by a
      '/' unless it is the whole path. */
  lemma {:induction false} PathNameIsLastComponent(path: string)
    ensures var name := PathName(path);
            && |name| <= |path| && path[|path| - |name|..] == name
            && (|name| < |path| ==> path[|path| - |name| - 1] == '/')
    decreases |path|
  {
    if |path| > 0 && path[|path| - 1] != '/' {
      var init := path[..|path| - 1];
      var rest := PathName(init);
      PathNameIsLastComponent(init);
      assert PathName(path) == rest + [path[|path| - 1]];
      assert path[|path| - |rest| - 1..] == init[|init| - |rest|..] + [path[|path| - 1]];
    }
  }

  /** The index of the last '.' in `s`, if any. */
  function LastDot(s: string): (r: Option<nat>)
    ensures r.Some? ==> r.value < |s| && s[r.value] == '.' && forall j :: r.value < j < |s| ==> s[j] != '.'
    ensures r.None? ==> '.' !in s
  {
    if |s| == 0 then None
    else if s[|s| - 1] == '.' then Some(|s| - 1)
    else
      var r := LastDot(s[..|s| - 1]);
      assert '.' in s ==> '.' in s[..|s| - 1] by {
        if '.' in s {
          var j :| 0 <= j < |s| && s[j] == '.';
          assert s[..|s| - 1][j] == '.';
        }
      }
      r
  }

  /** `Path(p).suffix`: from the last '.' of the final component, unless that dot is the
      component's first or last character. */
  function PathSuffix(path: string): (suffix: string)
    ensures suffix == "" || (suffix[0] == '.' && '/' !in suffix && '.' !in suffix[1..])
  {
    var name := PathName(path);
    var d := LastDot(name);
    if d.Some? && 0 < d.value < |name| - 1 then
      var s := name[d.value..];
      assert forall j :: 0 <= j < |s| - 1 ==> s[1..][j] == name[d.value + 1 + j];
      s
    else ""
  }

  /** The suffix is empty exactly when the name has no dot after its first character or
      ends with a dot; otherwise it is the tail of the name from its last dot, shorter than
      the name and longer than the dot alone. */
  lemma PathSuffixIsLastExtension(path: string)
    ensures var name := PathName(path);
            var suffix := PathSuffix(path);
            && (suffix == "" <==> |name| == 0 || name[|name| - 1] == '.' || '.' !in name[1..])
            && (suffix != "" ==> 2 <= |suffix| < |name| && name[|name| - |suffix|..] == suffix)
  {
    var name := PathName(path);
    var d := LastDot(name);
    if d.Some? && 0 < d.value < |name| - 1 {
      assert name[1..][d.value - 1] == '.';
    }
  }

  /** A path is scanned exactly when its last component ends in `.tsv` after at least one
      more character. */
  lemma {:induction false} PathSuffixTsv(path: string)
    ensures var name := PathName(path);
            PathSuffix(path) == TsvSuffix <==> |name| > 4 && name[|name| - 4..] == TsvSuffix
  {
    var name := PathName(path);
    var suffix := PathSuffix(path);
    PathSuffixIsLastExtension(path);
    if |name| > 4 && name[|name| - 4..] == TsvSuffix {
      assert name[1..][|name| - 5] == '.';
      assert name[|name| - 1] == 'v';
      var m := |suffix|;
      if m > 4 {
        assert false;
      } else if m < 4 {
        assert false;
      }
      assert suffix == name[|name| - 4..];
    }
  }

  /** The node files whose path mentions `ontologies`, in order. */
  function OntologyFiles(files: seq<SourceFile>): (r: seq<SourceFile>)
    ensures forall f :: f in r <==> f in files && Contains(f.path, OntologiesMarker)
    ensures |r| <= |files|
  {
    if |files| == 0 then []
    else
      var n := |files| - 1;
      var rest := OntologyFiles(files[..n]);
      assert files == files[..n] + [files[n]];
      if Contains(files[n].path, OntologiesMarker) then rest + [files[n]] else rest
  }

  /** A `provided_by` cell Python treats as true: present and non-empty. */
  predicate Truthy(v: Value) {
    v.Some? && v.value != ""
  }

  /** The first truthy `provided_by` of a file's rows. */
  function FirstProvidedBy(rows: seq<Row>): (r: Option<string>)
    ensures r.None? <==> forall j :: 0 <= j < |rows| ==> !Truthy(Get(rows[j], ProvidedBy))
    ensures r.Some? ==> exists j :: 0 <= j < |rows| && Get(rows[j], ProvidedBy) == Some(r.value) && r.value != "" &&
                                    forall j' :: 0 <= j' < j ==> !Truthy(Get(rows[j'], ProvidedBy))
  {
    if |rows| == 0 then None
    else if Truthy(Get(rows[0], ProvidedBy)) then Some(Get(rows[0], ProvidedBy).value)
    else
      var r := FirstProvidedBy(rows[1..]);
      assert r.Some? ==> exists j :: 0 <= j < |rows| && Get(rows[j], ProvidedBy) == Some(r.value) && r.value != "" &&
                                     forall j' :: 0 <= j' < j ==> !Truthy(Get(rows[j'], ProvidedBy)) by {
        if r.Some? {
          var j :| 0 <= j < |rows[1..]| && Get(rows[1..][j], ProvidedBy) == Some(r.value) && r.value != "" &&
                   forall j' :: 0 <= j' < j ==> !Truthy(Get(rows[1..][j'], ProvidedBy));
          assert forall j' :: 0 < j' < j + 1 ==> rows[j'] == rows[1..][j' - 1];
        }
      }
      assert r.None? ==> forall j :: 0 <= j < |rows| ==> !Truthy(Get(rows[j], ProvidedBy)) by {
        if r.None? {
          assert forall j :: 0 < j < |rows| ==> rows[j] == rows[1..][j - 1];
        }
      }
      r
  }

  /** A scanned file: a `.tsv` path. */
  predicate Scanned(f: SourceFile) {
    PathSuffix(f.path) == TsvSuffix
  }

  /** The contribution of one ontology file to the priority list. */
  function Contribution(f: SourceFile): seq<string> {
    if Scanned(f) && FirstProvidedBy(f.rows).Some? then [FirstProvidedBy(f.rows).value] else []
  }

  /** The contributions of the given files, one part per file, in order. */
  function Contributions(files: seq<SourceFile>): (parts: seq<seq<string>>)
    ensures |parts| == |files|
    ensures forall i :: 0 <= i < |files| ==> parts[i] == Contribution(files[i])
  {
    seq(|files|, i requires 0 <= i < |files| => Contribution(files[i]))
  }

  /** The priority list of `duckdb_merge`. */
  function PrioritySources(files: seq<SourceFile>): seq<string> {
    Flatten(Contributions(OntologyFiles(files)))
  }

  lemma {:induction false} OntologyFilesAppend(a: seq<SourceFile>, b: seq<SourceFile>)
    ensures OntologyFiles(a + b) == OntologyFiles(a) + OntologyFiles(b)
    decreases |b|
  {
    if |b| == 0 {
      assert a + b == a;
    } else {
      var n := |b| - 1;
      assert (a + b)[..|a + b| - 1] == a + b[..n];
      assert b[..n] + [b[n]] == b;
      OntologyFilesAppend(a, b[..n]);
    }
  }

  lemma ContributionsAppend(x: seq<SourceFile>, y: seq<SourceFile>)
    ensures Contributions(x + y) == Contributions(x) + Contributions(y)
  {
  }

  /** Priority order follows file order: the list of a concatenation of node file lists is
      the concatenation of their lists. */
  lemma PrioritySourcesAppend(a: seq<SourceFile>, b: seq<SourceFile>)
    ensures PrioritySources(a + b) == PrioritySources(a) + PrioritySources(b)
  {
    OntologyFilesAppend(a, b);
    var x, y := OntologyFiles(a), OntologyFiles(b);
    ContributionsAppend(x, y);
    FlattenAppend(Contributions(x), Contributions(y));
  }

  /** The number of scanned (`.tsv`) files among `files`. */
  function ScannedCount(files: seq<SourceFile>): (n: nat)
    ensures n <= |files|
  {
    if |files| == 0 then 0
    else ScannedCount(files[..|files| - 1]) + (if Scanned(files[|files| - 1]) then 1 else 0)
  }

  /** Only a scanned file contributes, and it contributes at most one value. */
  lemma {:induction false} ContributionsBound(o: seq<SourceFile>)
    ensures |Flatten(Contributions(o))| <= ScannedCount(o)
    decreases |o|
  {
    if |o| > 0 {
      var n := |o| - 1;
      assert o == o[..n] + [o[n]];
      ContributionsAppend(o[..n], [o[n]]);
      FlattenAppend(Contributions(o[..n]), Contributions([o[n]]));
      assert Flatten(Contributions([o[n]])) == Contribution(o[n]);
      ContributionsBound(o[..n]);
    }
  }

  /** Each scanned ontology file contributes at most one value, and no other file
      contributes. */
  lemma PrioritySourcesBound(files: seq<SourceFile>)
    ensures |PrioritySources(files)| <= ScannedCount(OntologyFiles(files)) <= |OntologyFiles(files)|
  {
    ContributionsBound(OntologyFiles(files));
  }

  /** Every priority source is the first truthy `provided_by` of an ontology `.tsv` node
      file. */
  lemma PrioritySourcesSound(files: seq<SourceFile>, v: string)
    requires v in PrioritySources(files)
    ensures exists f :: f in files && Contains(f.path, OntologiesMarker) && Scanned(f) && FirstProvidedBy(f.rows) == Some(v)
  {
    var o := OntologyFiles(files);
    var parts := Contributions(o);
    var k :| 0 <= k < |parts| && v in parts[k];
    assert parts[k] == Contribution(o[k]);
    assert o[k] in o;
  }

  /** Every ontology `.tsv` node file with a truthy `provided_by` contributes its first
      one. */
  lemma PrioritySourcesComplete(files: seq<SourceFile>, f: SourceFile)
    requires f in files && Contains(f.path, OntologiesMarker) && Scanned(f) && FirstProvidedBy(f.rows).Some?
    ensures FirstProvidedBy(f.rows).value in PrioritySources(files)
  {
    var o := OntologyFiles(files);
    var parts := Contributions(o);
    assert f in o;
    var k :| 0 <= k < |o| && o[k] == f;
    assert parts[k] == [FirstProvidedBy(f.rows).value];
  }

  /** The list gathered from the first files, one file at a time. */
  function GatheredFrom(fs: seq<SourceFile>): seq<string> {
    if |fs| == 0 then [] else GatheredFrom(fs[..|fs| - 1]) + Contribution(fs[|fs| - 1])
  }

  lemma GatheredSnoc(fs: seq<SourceFile>, i: nat)
    requires i < |fs|
    ensures GatheredFrom(fs[..i + 1]) == GatheredFrom(fs[..i]) + Contribution(fs[i])
  {
    assert fs[..i + 1][..i] == fs[..i];
  }

  lemma {:induction false} GatheredIsFlattened(fs: seq<SourceFile>)
    ensures GatheredFrom(fs) == Flatten(Contributions(fs))
    decreases |fs|
  {
    if |fs| > 0 {
      var n := |fs| - 1;
      GatheredIsFlattened(fs[..n]);
      var parts := Contributions(fs);
      assert parts[..n] == Contributions(fs[..n]);
      assert parts[n] == Contribution(fs[n]);
    }
  }

  /** The inner loop of the scan: read rows until the first truthy `provided_by`. */
  method ScanProvidedBy(rows: seq<Row>) returns (found: Option<string>)
    ensures found == FirstProvidedBy(rows)
  {
    var j := 0;
    while j < |rows|
      invariant 0 <= j <= |rows|
      invariant forall j' :: 0 <= j' < j ==> !Truthy(Get(rows[j'], ProvidedBy))
    {
      var v := Get(rows[j], ProvidedBy);
      if v.Some? && v.value != "" {
        assert FirstProvidedBy(rows) == Some(v.value);
        return Some(v.value);
      }
      j := j + 1;
    }
    return None;
  }

  /** One ontology file of the scan: a `.tsv` path is read for its first truthy
      `provided_by`; any other path is skipped. */
  method ScanFile(f: SourceFile) returns (c: seq<string>)
    ensures c == Contribution(f)
  {
    c := [];
    if PathSuffix(f.path) == TsvSuffix {
      var found := ScanProvidedBy(f.rows);
      if found.Some? {
        c := [found.value];
      }
    }
  }

  /** The priority scan: for each ontology path with suffix `.tsv`, append the first
      truthy `provided_by` of its rows, if there is one. */
  method DiscoverPrioritySources(files: seq<SourceFile>) returns (prio: seq<string>)
    ensures prio == PrioritySources(files)
  {
    var ontology := OntologyFiles(files);
    prio := [];
    var i := 0;
    while i < |ontology|
      invariant 0 <= i <= |ontology|
      invariant prio == GatheredFrom(ontology[..i])
    {
      GatheredSnoc(ontology, i);
      var c := ScanFile(ontology[i]);
      prio := prio + c;
      i := i + 1;
    }
    assert ontology[..i] == ontology;
    GatheredIsFlattened(ontology);
  }

  /** `duckdb_merge`: the node merge gets every node file and the discovered list; the
      edge merge gets only the edge files. */
  method DuckdbMerge(nodeFiles: seq<SourceFile>, edgeFiles: seq<SourceFile>)
    returns (nodesOut: Result<seq<Line>, MergeError>, edgesOut: Result<seq<Line>, MergeError>)
    ensures nodesOut == NodesMerge(nodeFiles, PrioritySources(nodeFiles))
    ensures edgesOut == EdgesMerge(edgeFiles)
  {
    var prio := DiscoverPrioritySources(nodeFiles);
    nodesOut := DuckdbNodesMerge(nodeFiles, prio);
    edgesOut := DuckdbEdgesMerge(edgeFiles);
  }
}
