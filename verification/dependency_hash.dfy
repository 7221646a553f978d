/** What the dependency hash distinguishes: the digested text is the same exactly when the same files
    with the same digests are depended on. */
module DependencyHash {
  import opened Text
  import opened Sorting
  import opened ArtifactDependencies

  // ---------- lines and pairs ----------

  /** A path on one line and a digest on one line without colon, as hashes and ids are. */
  predicate CleanPair(p: (string, string)) {
    '\n' !in p.0 && '\n' !in p.1 && ':' !in p.1
  }

  ghost predicate Clean(ds: seq<Dependency>) {
    forall p :: p in Pairs(ds) ==> CleanPair(p)
  }

  /** A line of the text determines path and digest. */
  lemma PartInjective(p: (string, string), q: (string, string))
    requires CleanPair(p) && CleanPair(q) && Part(p) == Part(q)
    ensures p == q
  {
    var text := p.0 + ":" + p.1;
    assert text == q.0 + ":" + q.1;
    assert text[|p.0|] == ':' && text[|q.0|] == ':';
    assert forall i :: |p.0| < i < |text| ==> text[i] == p.1[i - |p.0| - 1];
    assert forall i :: |q.0| < i < |text| ==> text[i] == q.1[i - |q.0| - 1];
    assert p.0 == text[..|p.0|] && q.0 == text[..|q.0|];
    assert p.1 == text[|p.0| + 1..] && q.1 == text[|q.0| + 1..];
  }

  /** Pairs with clean parts: as many lines for a pair as there are such pairs. */
  lemma {:induction false} PartCount(ps: seq<(string, string)>, p: (string, string))
    requires CleanPair(p) && forall q :: q in ps ==> CleanPair(q)
    ensures multiset(MapSeq(Part, ps))[Part(p)] == multiset(ps)[p]
  {
    if ps != [] {
      MultisetCons(ps);
      MultisetCons(MapSeq(Part, ps));
      assert MapSeq(Part, ps)[1..] == MapSeq(Part, ps[1..]);
      PartCount(ps[1..], p);
      if Part(ps[0]) == Part(p) {
        PartInjective(ps[0], p);
      }
    }
  }

  lemma PartsTell(ps: seq<(string, string)>, qs: seq<(string, string)>)
    requires forall p :: p in ps || p in qs ==> CleanPair(p)
    requires multiset(MapSeq(Part, ps)) == multiset(MapSeq(Part, qs))
    ensures multiset(ps) == multiset(qs)
  {
    forall p
      ensures multiset(ps)[p] == multiset(qs)[p]
    {
      if p in ps || p in qs {
        PartCount(ps, p);
        PartCount(qs, p);
      }
    }
  }

  lemma {:induction false} PartsAreLines(ps: seq<(string, string)>)
    requires forall p :: p in ps ==> CleanPair(p)
    ensures forall l :: l in MapSeq(Part, ps) ==> '\n' !in l && l != ""
  {
    if ps != [] {
      assert CleanPair(ps[0]);
      PartsAreLines(ps[1..]);
    }
  }

  /** The sorted lines, and so the text, of some pairs. */
  function LinesOf(ps: seq<(string, string)>): seq<string> {
    Sort(StringLe, MapSeq(Part, ps))
  }

  lemma LinesOfPairs(ps: seq<(string, string)>)
    requires forall p :: p in ps ==> CleanPair(p)
    ensures multiset(LinesOf(ps)) == multiset(MapSeq(Part, ps))
    ensures forall l :: l in LinesOf(ps) ==> '\n' !in l && l != ""
    ensures Sorted(StringLe, LinesOf(ps))
  {
    StringOrder();
    SortSorts(StringLe, MapSeq(Part, ps));
    PartsAreLines(ps);
    forall l | l in LinesOf(ps)
      ensures '\n' !in l && l != ""
    {
      assert l in multiset(LinesOf(ps));
    }
  }

  lemma TextTellsLines(a: seq<string>, b: seq<string>)
    requires forall l :: l in a || l in b ==> '\n' !in l && l != ""
    requires Join(a, "\n") == Join(b, "\n")
    ensures a == b
  {
    assert a != [] ==> Join(a, "\n") != "" by { assert a != [] ==> a[0] in a; }
    assert b != [] ==> Join(b, "\n") != "" by { assert b != [] ==> b[0] in b; }
    if a != [] && b != [] {
      SplitJoin(a, '\n');
      SplitJoin(b, '\n');
    }
  }

  /** The digested text is that of the same dependencies, each as often, in any order; no dependencies give the
      empty text and nothing else does. */
  lemma HashedTextIff(ds: seq<Dependency>, ds': seq<Dependency>)
    requires Clean(ds) && Clean(ds')
    ensures HashedText(ds) == HashedText(ds') <==> multiset(Pairs(ds)) == multiset(Pairs(ds'))
    ensures HashedText(ds) == "" <==> ds == []
  {
    var ps, qs := Pairs(ds), Pairs(ds');
    LinesOfPairs(ps);
    LinesOfPairs(qs);
    if HashedText(ds) == HashedText(ds') {
      TextTellsLines(LinesOf(ps), LinesOf(qs));
      PartsTell(ps, qs);
    }
    if multiset(ps) == multiset(qs) {
      MapElements(Part, ps, qs);
      StringOrder();
      SortIgnoresOrder(StringLe, MapSeq(Part, ps), MapSeq(Part, qs));
    }
    EmptyText(ds);
  }

  lemma EmptyText(ds: seq<Dependency>)
    requires Clean(ds)
    ensures HashedText(ds) == "" <==> ds == []
  {
    var lines := LinesOf(Pairs(ds));
    LinesOfPairs(Pairs(ds));
    if ds == [] {
      assert lines == [];
    } else {
      MultisetCons(MapSeq(Part, Pairs(ds)));
      assert |multiset(lines)| > 0;
      assert lines[0] in lines;
    }
  }

  // ---------- what a module stands for ----------

  /** The walk starts with what any root file imports, and leaves every root file out. */
  lemma {:induction false} RootsAre(roots: seq<Root>)
    ensures forall m :: m in RootImports(roots) <==> exists r :: r in roots && m in r.imports
    ensures forall path :: path in RootPaths(roots) <==> exists r :: r in roots && r.path == path
  {
    if roots != [] {
      RootsAre(roots[1..]);
      assert roots == [roots[0]] + roots[1..];
    }
  }

  /** The `i`-th artifact is the last of this module. */
  ghost predicate LastOf(artifacts: seq<Artifact>, i: int, m: string) {
    && 0 <= i < |artifacts| && artifacts[i].moduleName == m
    && forall j :: i < j < |artifacts| ==> artifacts[j].moduleName != m
  }

  /** The artifact registered last under the name. */
  ghost predicate Registered(p: Project, m: string, a: Artifact) {
    m != "" && exists i :: LastOf(p.artifacts, i, m) && p.artifacts[i] == a
  }

  lemma {:induction false} LookupIs(artifacts: seq<Artifact>, m: string)
    ensures Lookup(artifacts, m).None? <==> m == "" || forall i :: 0 <= i < |artifacts| ==> artifacts[i].moduleName != m
    ensures forall i :: m != "" && LastOf(artifacts, i, m) ==> Lookup(artifacts, m) == Some(artifacts[i])
  {
    if artifacts != [] && Last(artifacts).moduleName != m {
      LookupIs(Front(artifacts), m);
      assert forall i :: LastOf(artifacts, i, m) ==> LastOf(Front(artifacts), i, m);
    }
  }

  /** The row is the one the artifact's formalization links, and only without one the project's newest. */
  ghost predicate RowIs(p: Project, a: Artifact, linked: bool, row: CodeRow) {
    var f := (a.formalization, a.path);
    if a.formalization != "" && f in p.linked then linked && row == p.linked[f]
    else !linked && a.path in p.latest && row == p.latest[a.path]
  }

  /** A linked file is digested by its contents, one found by path by the id of the stored object, lost contents by
      a fixed mark; what is imported comes from the contents. */
  lemma ResolvesTo(p: Project, m: string, a: Artifact, linked: bool, row: CodeRow)
    requires Registered(p, m, a) && a.path != "" && RowIs(p, a, linked, row)
    ensures Resolve(p, m) == Some(Dependency(m, a.path,
      if row.blob.None? then "None" else if linked then row.blob.value.sha256 else row.blob.value.id,
      if row.blob.None? then [] else row.blob.value.imports))
  {
    LookupIs(p.artifacts, m);
  }

  /** Nothing else resolves. */
  lemma ResolvesIff(p: Project, m: string)
    ensures Resolve(p, m).Some? <==>
      exists a, linked, row :: Registered(p, m, a) && a.path != "" && RowIs(p, a, linked, row)
  {
    LookupIs(p.artifacts, m);
    if a, linked, row :| Registered(p, m, a) && a.path != "" && RowIs(p, a, linked, row) {
      ResolvesTo(p, m, a, linked, row);
    }
    if Resolve(p, m).Some? {
      var a := LastNamed(p.artifacts, m);
      assert Registered(p, m, a);
      var (row, view) := RowOf(p, a).value;
      assert RowIs(p, a, view.Linked?, row);
    }
  }

  lemma {:induction false} LastNamed(artifacts: seq<Artifact>, m: string) returns (a: Artifact)
    requires Lookup(artifacts, m).Some?
    ensures m != "" && Lookup(artifacts, m) == Some(a)
    ensures exists i :: LastOf(artifacts, i, m) && artifacts[i] == a
  {
    if Last(artifacts).moduleName == m {
      a := Last(artifacts);
      assert LastOf(artifacts, |artifacts| - 1, m);
    } else {
      a := LastNamed(Front(artifacts), m);
      var i :| LastOf(Front(artifacts), i, m) && Front(artifacts)[i] == a;
      assert LastOf(artifacts, i, m);
    }
  }

  // ---------- the hash of a project's dependencies ----------

  /** All modules resolve to clean paths and digests. */
  ghost predicate CleanProject(p: Project) {
    forall m :: Resolve(p, m).Some? ==> CleanPair((Resolve(p, m).value.path, Resolve(p, m).value.digest))
  }

  lemma DependenciesClean(roots: seq<Root>, p: Project)
    requires CleanProject(p)
    ensures Clean(Dependencies(roots, p))
  {
    DependenciesAreClosure(roots, p);
    var ds := Dependencies(roots, p);
    hide Dependencies, Resolve;
    forall pair | pair in Pairs(ds)
      ensures CleanPair(pair)
    {
      var i :| 0 <= i < |ds| && Pairs(ds)[i] == pair;
      assert ds[i] in ds && Genuine(roots, p, ds[i]);
    }
  }

  /** Two dependency hashes are equal if and only if the same files with the same digests are found, before and
      after any change of roots, artifacts, rows or imports. */
  lemma HashIffSameFiles(roots: seq<Root>, p: Project, roots': seq<Root>, p': Project)
    requires CleanProject(p) && CleanProject(p')
    ensures HashedText(Dependencies(roots, p)) == HashedText(Dependencies(roots', p')) <==>
      forall pair :: pair in Pairs(Dependencies(roots, p)) <==> pair in Pairs(Dependencies(roots', p'))
  {
    var ds, ds' := Dependencies(roots, p), Dependencies(roots', p');
    DependenciesClean(roots, p);
    DependenciesClean(roots', p');
    HashedTextIff(ds, ds');
    PairsOnce(roots, p);
    PairsOnce(roots', p');
    hide Dependencies, HashedText, Pairs;
    if forall pair :: pair in Pairs(ds) <==> pair in Pairs(ds') {
      SameMembers(Pairs(ds), Pairs(ds'));
    }
    if multiset(Pairs(ds)) == multiset(Pairs(ds')) {
      forall pair
        ensures pair in Pairs(ds) <==> pair in Pairs(ds')
      {
        assert pair in multiset(Pairs(ds)) <==> pair in multiset(Pairs(ds'));
      }
    }
  }

  /** In coherent projects: if and only if imports lead to the same files with the same digests. */
  lemma HashIffSameReached(roots: seq<Root>, p: Project, roots': seq<Root>, p': Project)
    requires CleanProject(p) && CleanProject(p') && Coherent(p) && Coherent(p')
    ensures HashedText(Dependencies(roots, p)) == HashedText(Dependencies(roots', p')) <==>
      forall pair :: ReachedFile(roots, p, pair) <==> ReachedFile(roots', p', pair)
  {
    HashIffSameFiles(roots, p, roots', p');
    forall pair
      ensures pair in Pairs(Dependencies(roots, p)) <==> ReachedFile(roots, p, pair)
      ensures pair in Pairs(Dependencies(roots', p')) <==> ReachedFile(roots', p', pair)
    {
      FoundIffReached(roots, p, pair);
      FoundIffReached(roots', p', pair);
    }
    hide Dependencies, ReachedFile, HashedText, Pairs, Coherent, CleanProject;
  }

  /** So a file found with other contents than before changes the hash. */
  lemma ChangedFileShows(roots: seq<Root>, p: Project, roots': seq<Root>, p': Project, d: Dependency, d': Dependency)
    requires CleanProject(p) && CleanProject(p')
    requires d in Dependencies(roots, p) && d' in Dependencies(roots', p') && d.path == d'.path && d.digest != d'.digest
    ensures HashedText(Dependencies(roots, p)) != HashedText(Dependencies(roots', p'))
  {
    var ds, ds' := Dependencies(roots, p), Dependencies(roots', p');
    HashIffSameFiles(roots, p, roots', p');
    DependenciesAreClosure(roots', p');
    var i :| 0 <= i < |ds| && ds[i] == d;
    var j :| 0 <= j < |ds'| && ds'[j] == d';
    forall k | 0 <= k < |ds'| && ds'[k].path == d.path
      ensures k == j
    {
      assert PathSeq(ds')[k] == PathSeq(ds')[j];
    }
    hide Dependencies, HashedText;
    assert Pairs(ds)[i] == (d.path, d.digest) && (d.path, d.digest) !in Pairs(ds');
  }

  // ---------- when the order of import lines shows in the hash ----------

  /** The hash is the same for every order of the roots and their import lines. */
  ghost predicate HashOrderFree(p: Project) {
    forall roots, roots' :: SameRoots(roots, roots') ==>
      HashedText(Dependencies(roots, p)) == HashedText(Dependencies(roots', p))
  }

  lemma HashOrderFreeIff(p: Project)
    requires CleanProject(p)
    ensures HashOrderFree(p) <==> OrderFree(p)
  {
    forall roots, roots'
      ensures HashedText(Dependencies(roots, p)) == HashedText(Dependencies(roots', p))
        <==> multiset(Pairs(Dependencies(roots, p))) == multiset(Pairs(Dependencies(roots', p)))
    {
      DependenciesClean(roots, p);
      DependenciesClean(roots', p);
      HashedTextIff(Dependencies(roots, p), Dependencies(roots', p));
    }
    hide HashedText, Dependencies, Pairs, SameRoots;
  }

  /** The hash never depends on the order if and only if the modules of a file agree on its digest; among a
      project's own formalizations, if and only if no file with contents is looked up in two ways. */
  lemma HashOrderFreeCases(p: Project)
    requires CleanProject(p)
    ensures DigestsNameContents(p) ==> (HashOrderFree(p) <==> OneDigestPerFile(p))
    ensures OwnFormalizations(p) && OneBlobPerName(p) ==> (HashOrderFree(p) <==> OneViewPerFile(p))
  {
    HashOrderFreeIff(p);
    hide OrderFree, HashOrderFree, OneDigestPerFile, OneViewPerFile, DigestsNameContents, OneBlobPerName;
    if DigestsNameContents(p) {
      OrderFreeIffOneDigestPerFile(p);
    }
    if OwnFormalizations(p) && OneBlobPerName(p) {
      OrderFreeIffOneView(p);
    }
  }

  // ---------- the order of the lines ----------

  /** The lines are in lexicographic order: a line comes before its extensions, and otherwise the first
      character that differs decides. */
  lemma {:induction false} StringLeIff(a: string, b: string)
    ensures StringLe(a, b) <==>
      a <= b || exists i: nat :: i < |a| && i < |b| && a[..i] == b[..i] && a[i] < b[i]
  {
    if a != "" && b != "" {
      StringLeIff(a[1..], b[1..]);
      assert a == [a[0]] + a[1..] && b == [b[0]] + b[1..];
      if a[0] == b[0] {
        if i: nat :| i < |a[1..]| && i < |b[1..]| && a[1..][..i] == b[1..][..i] && a[1..][i] < b[1..][i] {
          assert a[..i + 1] == [a[0]] + a[1..][..i] && b[..i + 1] == [b[0]] + b[1..][..i];
          assert a[i + 1] < b[i + 1];
        }
        if i: nat :| i < |a| && i < |b| && a[..i] == b[..i] && a[i] < b[i] {
          assert i > 0 && a[1..][..i - 1] == a[..i][1..] && b[1..][..i - 1] == b[..i][1..];
        }
      } else if a[0] < b[0] {
        assert a[..0] == b[..0];
      }
    }
  }
}
