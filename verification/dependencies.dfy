/** The import closure of an artifact's files inside its project, and the digest of the
    dependencies it finds.  Import parsing is a parameter: a step carries what its code imports. */
module ArtifactDependencies {
  import opened Text
  import opened Sorting

  /** Stored file contents: the stored object's own id, the digest of the text and the modules it imports. */
  datatype Blob = Blob(id: string, sha256: string, imports: seq<string>)

  /** A recorded code step of a file; the contents are absent when they were lost. */
  datatype CodeRow = CodeRow(blob: Option<Blob>)

  /** A step can be looked up among a formalization's linked files or by project and path. */
  datatype View = Linked | ByPath

  /** What a look-up makes of a code row; `digest` is what gets hashed. */
  datatype Step = Step(digest: string, imports: seq<string>)

  const LOST: string := "None"

  /** Only the look-up among linked files selects the content digest; by path the blob's id stands in. */
  function Read(row: CodeRow, view: View): Step {
    match row.blob
    case None => Step(LOST, [])
    case Some(b) => Step(if view.Linked? then b.sha256 else b.id, b.imports)
  }

  /** A project artifact; its fields are empty when absent. */
  datatype Artifact = Artifact(moduleName: string, path: string, formalization: string)

  /** The project's artifacts, the newest row of each path over all its sessions, and the newest row
      of a path as a formalization's own linked files show it. */
  datatype Project = Project(
    artifacts: seq<Artifact>, latest: map<string, CodeRow>, linked: map<(string, string), CodeRow>)

  datatype Root = Root(path: string, imports: seq<string>)

  datatype Dependency = Dependency(moduleName: string, path: string, digest: string, imports: seq<string>)

  /** The artifact registered last under a module name. */
  function Lookup(artifacts: seq<Artifact>, m: string): Option<Artifact> {
    if artifacts == [] || m == "" then None
    else if Last(artifacts).moduleName == m then Some(Last(artifacts))
    else Lookup(Front(artifacts), m)
  }

  /** The formalization's view of its file comes first, then the newest row of the path. */
  function RowOf(p: Project, a: Artifact): Option<(CodeRow, View)> {
    if a.formalization != "" && (a.formalization, a.path) in p.linked then
      Some((p.linked[(a.formalization, a.path)], Linked))
    else if a.path in p.latest then Some((p.latest[a.path], ByPath))
    else None
  }

  function StepOf(p: Project, a: Artifact): Option<Step> {
    var found := RowOf(p, a);
    if found.None? then None else Some(Read(found.value.0, found.value.1))
  }

  /** The project file a module name stands for, when it has a path and a current step. */
  function Resolve(p: Project, m: string): Option<Dependency> {
    var a := Lookup(p.artifacts, m);
    if a.None? || a.value.path == "" || StepOf(p, a.value).None? then None
    else
      var step := StepOf(p, a.value).value;
      Some(Dependency(m, a.value.path, step.digest, step.imports))
  }

  ghost function AllPaths(p: Project): set<string> {
    set a | a in p.artifacts :: a.path
  }

  lemma {:induction false} LookupMember(artifacts: seq<Artifact>, m: string)
    ensures Lookup(artifacts, m).Some? ==> Lookup(artifacts, m).value in artifacts
  {
    if artifacts != [] && m != "" && Last(artifacts).moduleName != m {
      LookupMember(Front(artifacts), m);
    }
  }

  lemma ResolvedPath(p: Project, m: string)
    ensures Resolve(p, m).Some? ==> Resolve(p, m).value.path in AllPaths(p) && Resolve(p, m).value.path != ""
  {
    LookupMember(p.artifacts, m);
  }

  /** The worklist: `queue` is still to do; the modules and paths seen so far are skipped. */
  function Walk(p: Project, queue: seq<string>, seenModules: set<string>, seenPaths: set<string>,
                found: seq<Dependency>): seq<Dependency>
    decreases AllPaths(p) - seenPaths, |queue|
  {
    if queue == [] then found
    else
      var m, rest := queue[0], queue[1..];
      var d := Resolve(p, m);
      ResolvedPath(p, m);
      if m in seenModules then Walk(p, rest, seenModules, seenPaths, found)
      else if d.None? || d.value.path in seenPaths then Walk(p, rest, seenModules + {m}, seenPaths, found)
      else Walk(p, rest + d.value.imports, seenModules + {m}, seenPaths + {d.value.path}, found + [d.value])
  }

  function RootImports(roots: seq<Root>): seq<string> {
    if roots == [] then [] else roots[0].imports + RootImports(roots[1..])
  }

  function RootPaths(roots: seq<Root>): set<string> {
    set r | r in roots :: r.path
  }

  function Dependencies(roots: seq<Root>, p: Project): seq<Dependency> {
    Walk(p, RootImports(roots), {}, RootPaths(roots), [])
  }

  /** The walk's own loop; it stops on every import graph, cyclic or not. */
  method TransitiveProjectDependencies(project: Option<string>, roots: seq<Root>, p: Project)
    returns (dependencies: seq<Dependency>)
    ensures dependencies == if project.None? then [] else Dependencies(roots, p)
  {
    if project.None? {
      return [];
    }
    var queued := RootImports(roots);
    var seenModules: set<string>, seenPaths := {}, RootPaths(roots);
    dependencies := [];
    while queued != []
      invariant Walk(p, queued, seenModules, seenPaths, dependencies) == Dependencies(roots, p)
      decreases AllPaths(p) - seenPaths, |queued|
    {
      var m := queued[0];
      queued := queued[1..];
      if m in seenModules {
        continue;
      }
      seenModules := seenModules + {m};
      var d := Resolve(p, m);
      ResolvedPath(p, m);
      if d.None? || d.value.path in seenPaths {
        continue;
      }
      seenPaths := seenPaths + {d.value.path};
      dependencies := dependencies + [d.value];
      queued := queued + d.value.imports;
    }
  }

  // ---------- soundness and completeness ----------

  /** Each module of the chain is imported by the one before it, the first one by a root, and every
      module but the last resolves to a file that is not a root. */
  ghost predicate Chain(roots: seq<Root>, p: Project, c: seq<string>) {
    && c != []
    && c[0] in RootImports(roots)
    && forall i :: 0 <= i < |c| - 1 ==> Links(roots, p, c[i], c[i + 1])
  }

  ghost predicate Links(roots: seq<Root>, p: Project, m: string, n: string) {
    var d := Resolve(p, m);
    d.Some? && d.value.path !in RootPaths(roots) && n in d.value.imports
  }

  ghost predicate Reached(roots: seq<Root>, p: Project, m: string) {
    exists c :: Chain(roots, p, c) && Last(c) == m
  }

  function Paths(ds: seq<Dependency>): set<string> {
    set d | d in ds :: d.path
  }

  function PathSeq(ds: seq<Dependency>): (r: seq<string>)
    ensures |r| == |ds|
  {
    seq(|ds|, i requires 0 <= i < |ds| => ds[i].path)
  }

  /** Imported by a root or by a file found. */
  ghost predicate Wanted(roots: seq<Root>, found: seq<Dependency>, m: string) {
    m in RootImports(roots) || exists d :: d in found && m in d.imports
  }

  ghost predicate Genuine(roots: seq<Root>, p: Project, d: Dependency) {
    Resolve(p, d.moduleName) == Some(d) && Reached(roots, p, d.moduleName) && d.path !in RootPaths(roots)
  }

  /** A root file or a file found. */
  ghost predicate Known(roots: seq<Root>, found: seq<Dependency>, path: string) {
    path in RootPaths(roots) || path in Paths(found)
  }

  ghost predicate WalkInv(roots: seq<Root>, p: Project, queue: seq<string>, seenModules: set<string>,
                          seenPaths: set<string>, found: seq<Dependency>)
  {
    && seenPaths == RootPaths(roots) + Paths(found)
    && NoRepeats(PathSeq(found))
    && (forall d :: d in found ==> Genuine(roots, p, d))
    && (forall m :: m in queue ==> Wanted(roots, found, m))
    && (forall m :: Wanted(roots, found, m) ==> m in queue || m in seenModules)
    && (forall m :: m in seenModules && Resolve(p, m).Some? ==>
          Known(roots, found, Resolve(p, m).value.path))
  }

  lemma ReachedByImport(roots: seq<Root>, p: Project, found: seq<Dependency>, m: string)
    requires Wanted(roots, found, m) && forall d :: d in found ==> Genuine(roots, p, d)
    ensures Reached(roots, p, m)
  {
    if m in RootImports(roots) {
      assert Chain(roots, p, [m]) && Last([m]) == m;
    } else {
      var d :| d in found && m in d.imports;
      var c :| Chain(roots, p, c) && Last(c) == d.moduleName;
      var c' := c + [m];
      forall i | 0 <= i < |c'| - 1
        ensures Links(roots, p, c'[i], c'[i + 1])
      {
        if i < |c| - 1 {
          assert Links(roots, p, c[i], c[i + 1]);
        }
      }
      assert Chain(roots, p, c') && Last(c') == m;
    }
  }

  lemma AddFound(roots: seq<Root>, p: Project, queue: seq<string>, seenModules: set<string>,
                 seenPaths: set<string>, found: seq<Dependency>)
    requires queue != [] && WalkInv(roots, p, queue, seenModules, seenPaths, found)
    requires Resolve(p, queue[0]).Some? && Resolve(p, queue[0]).value.path !in seenPaths
    ensures var d := Resolve(p, queue[0]).value;
      WalkInv(roots, p, queue[1..] + d.imports, seenModules + {queue[0]}, seenPaths + {d.path}, found + [d])
  {
    var m := queue[0];
    var d := Resolve(p, m).value;
    var found' := found + [d];
    ReachedByImport(roots, p, found, m);
    assert forall e :: e in found' <==> e in found || e == d;
    assert Paths(found') == Paths(found) + {d.path};
    assert NoRepeats(PathSeq(found')) by {
      forall i, j | 0 <= i < j < |found'|
        ensures PathSeq(found')[i] != PathSeq(found')[j]
      {
        if j < |found| {
          assert PathSeq(found)[i] != PathSeq(found)[j];
        } else {
          assert found[i] in found;
        }
      }
    }
    forall n
      ensures Wanted(roots, found', n) <==> Wanted(roots, found, n) || n in d.imports
    {
      if Wanted(roots, found', n) && n !in RootImports(roots) {
        var e :| e in found' && n in e.imports;
        assert e in found || e == d;
      }
      assert d in found';
    }
  }

  /** Each path is found once and is no root's; every module found is reached from a root by
      imports; and every resolvable import of a root or a file found is a root or a file found. */
  ghost predicate Closed(roots: seq<Root>, p: Project, found: seq<Dependency>) {
    && NoRepeats(PathSeq(found))
    && (forall d :: d in found ==> Genuine(roots, p, d))
    && (forall m :: Wanted(roots, found, m) && Resolve(p, m).Some? ==>
          Known(roots, found, Resolve(p, m).value.path))
  }

  /** When the queue is empty, everything imported has been looked at. */
  lemma {:induction false} WalkFinishes(roots: seq<Root>, p: Project, queue: seq<string>,
                                        seenModules: set<string>, seenPaths: set<string>, found: seq<Dependency>)
    requires WalkInv(roots, p, queue, seenModules, seenPaths, found)
    ensures Closed(roots, p, Walk(p, queue, seenModules, seenPaths, found))
    decreases AllPaths(p) - seenPaths, |queue|
  {
    if queue != [] {
      var m := queue[0];
      var d := Resolve(p, m);
      ResolvedPath(p, m);
      assert forall n :: n in queue <==> n == m || n in queue[1..];
      if m in seenModules {
        WalkFinishes(roots, p, queue[1..], seenModules, seenPaths, found);
      } else if d.None? || d.value.path in seenPaths {
        WalkFinishes(roots, p, queue[1..], seenModules + {m}, seenPaths, found);
      } else {
        AddFound(roots, p, queue, seenModules, seenPaths, found);
        WalkFinishes(roots, p, queue[1..] + d.value.imports, seenModules + {m},
                     seenPaths + {d.value.path}, found + [d.value]);
      }
    }
  }

  /** The walk returns exactly a closure: sound, complete and without repetition. */
  lemma DependenciesAreClosure(roots: seq<Root>, p: Project)
    ensures Closed(roots, p, Dependencies(roots, p))
  {
    WalkFinishes(roots, p, RootImports(roots), {}, RootPaths(roots), []);
  }

  // ---------- an order-free digest ----------

  /** Modules that share a file share its contents. */
  ghost predicate Coherent(p: Project) {
    forall m, n | Resolve(p, m).Some? && Resolve(p, n).Some? ::
      Resolve(p, m).value.path == Resolve(p, n).value.path ==> SameContents(Resolve(p, m).value, Resolve(p, n).value)
  }

  ghost predicate SameContents(d: Dependency, e: Dependency) {
    d.digest == e.digest && forall m :: m in d.imports <==> m in e.imports
  }

  lemma {:induction false} ChainIsFound(roots: seq<Root>, p: Project, c: seq<string>)
    requires Coherent(p) && Chain(roots, p, c)
    ensures Resolve(p, Last(c)).Some? ==> Known(roots, Dependencies(roots, p), Resolve(p, Last(c)).value.path)
    decreases |c|
  {
    var ds := Dependencies(roots, p);
    var m := Last(c);
    DependenciesAreClosure(roots, p);
    if |c| > 1 {
      var b := Front(c);
      forall i | 0 <= i < |b| - 1
        ensures Links(roots, p, b[i], b[i + 1])
      {
        assert Links(roots, p, c[i], c[i + 1]);
      }
      ChainIsFound(roots, p, b);
      assert Links(roots, p, c[|c| - 2], c[|c| - 2 + 1]);
      var d := Resolve(p, Last(b)).value;
      var e :| e in ds && e.path == d.path;
      assert SameContents(d, e);
    }
    assert Wanted(roots, ds, m);
  }

  /** A file with these contents is reached from a root by imports, and is not itself a root. */
  ghost predicate ReachedFile(roots: seq<Root>, p: Project, pair: (string, string)) {
    && pair.0 !in RootPaths(roots)
    && exists m :: Reached(roots, p, m) && Resolve(p, m).Some?
         && (Resolve(p, m).value.path, Resolve(p, m).value.digest) == pair
  }

  /** In a coherent project exactly the reached files are found, each with its one digest. */
  lemma FoundIffReached(roots: seq<Root>, p: Project, pair: (string, string))
    requires Coherent(p)
    ensures pair in Pairs(Dependencies(roots, p)) <==> ReachedFile(roots, p, pair)
  {
    var ds := Dependencies(roots, p);
    DependenciesAreClosure(roots, p);
    if pair in Pairs(ds) {
      var i :| 0 <= i < |ds| && Pairs(ds)[i] == pair;
      assert ds[i] in ds && Genuine(roots, p, ds[i]);
    }
    if ReachedFile(roots, p, pair) {
      var m :| Reached(roots, p, m) && Resolve(p, m).Some?
        && (Resolve(p, m).value.path, Resolve(p, m).value.digest) == pair;
      var c :| Chain(roots, p, c) && Last(c) == m;
      ChainIsFound(roots, p, c);
      var i :| 0 <= i < |ds| && ds[i].path == pair.0;
      assert ds[i] in ds && SameContents(Resolve(p, m).value, ds[i]);
      assert Pairs(ds)[i] == pair;
    }
  }

  function Part(p: (string, string)): string {
    p.0 + ":" + p.1
  }

  function Pairs(ds: seq<Dependency>): (r: seq<(string, string)>)
    ensures |r| == |ds|
  {
    seq(|ds|, i requires 0 <= i < |ds| => (ds[i].path, ds[i].digest))
  }

  /** What the dependency hash digests: one sorted line per dependency. */
  function HashedText(ds: seq<Dependency>): string {
    Join(Sort(StringLe, MapSeq(Part, Pairs(ds))), "\n")
  }

  /** The same root files with the same imports, in any order. */
  ghost predicate SameRoots(roots: seq<Root>, roots': seq<Root>) {
    RootPaths(roots) == RootPaths(roots') && forall m :: m in RootImports(roots) <==> m in RootImports(roots')
  }

  /** Every module stands for the same file with the same contents, up to the order of its imports. */
  ghost predicate SameProject(p: Project, p': Project) {
    forall m :: SameFile(Resolve(p, m), Resolve(p', m))
  }

  ghost predicate SameFile(d: Option<Dependency>, d': Option<Dependency>) {
    (d.None? && d'.None?) || (d.Some? && d'.Some? && d.value.path == d'.value.path && SameContents(d.value, d'.value))
  }

  lemma SameReached(roots: seq<Root>, p: Project, roots': seq<Root>, p': Project, m: string)
    requires SameRoots(roots, roots') && SameProject(p, p') && Reached(roots, p, m)
    ensures Reached(roots', p', m)
  {
    var c :| Chain(roots, p, c) && Last(c) == m;
    forall i | 0 <= i < |c| - 1
      ensures Links(roots', p', c[i], c[i + 1])
    {
      assert Links(roots, p, c[i], c[i + 1]);
      assert SameFile(Resolve(p, c[i]), Resolve(p', c[i]));
    }
    assert Chain(roots', p', c);
  }

  lemma SameIsCoherent(p: Project, p': Project)
    requires SameProject(p, p') && Coherent(p)
    ensures Coherent(p') && SameProject(p', p)
  {
    forall m
      ensures SameFile(Resolve(p, m), Resolve(p', m)) && SameFile(Resolve(p', m), Resolve(p, m))
    {
    }
    hide Resolve;
    forall m, n | Resolve(p', m).Some? && Resolve(p', n).Some?
      && Resolve(p', m).value.path == Resolve(p', n).value.path
      ensures SameContents(Resolve(p', m).value, Resolve(p', n).value)
    {
      assert SameFile(Resolve(p, m), Resolve(p', m)) && SameFile(Resolve(p, n), Resolve(p', n));
      assert SameContents(Resolve(p, m).value, Resolve(p, n).value);
    }
  }

  lemma PairMoves(roots: seq<Root>, p: Project, roots': seq<Root>, p': Project, pair: (string, string))
    requires SameRoots(roots, roots') && SameProject(p, p') && Coherent(p)
    requires pair in Pairs(Dependencies(roots, p))
    ensures pair in Pairs(Dependencies(roots', p'))
  {
    SameIsCoherent(p, p');
    FoundIffReached(roots, p, pair);
    var m :| Reached(roots, p, m) && Resolve(p, m).Some?
      && (Resolve(p, m).value.path, Resolve(p, m).value.digest) == pair;
    SameReached(roots, p, roots', p', m);
    assert SameFile(Resolve(p, m), Resolve(p', m));
    FoundIffReached(roots', p', pair);
  }

  lemma PairsOnce(roots: seq<Root>, p: Project)
    ensures NoRepeats(Pairs(Dependencies(roots, p)))
  {
    DependenciesAreClosure(roots, p);
    var ds := Dependencies(roots, p);
    forall i, j | 0 <= i < j < |ds|
      ensures Pairs(ds)[i] != Pairs(ds)[j]
    {
      assert PathSeq(ds)[i] != PathSeq(ds)[j];
    }
  }

  lemma SamePairs(roots: seq<Root>, p: Project, roots': seq<Root>, p': Project)
    requires SameRoots(roots, roots') && SameProject(p, p') && Coherent(p)
    ensures multiset(Pairs(Dependencies(roots, p))) == multiset(Pairs(Dependencies(roots', p')))
  {
    SameIsCoherent(p, p');
    var ps, ps' := Pairs(Dependencies(roots, p)), Pairs(Dependencies(roots', p'));
    forall pair
      ensures pair in ps <==> pair in ps'
    {
      if pair in ps {
        PairMoves(roots, p, roots', p', pair);
      }
      if pair in ps' {
        PairMoves(roots', p', roots, p, pair);
      }
    }
    PairsOnce(roots, p);
    PairsOnce(roots', p');
    SameMembers(ps, ps');
  }

  /** When modules that share a file share its contents, the dependency hash does not depend on the order of
      roots, artifacts or import lines. */
  lemma HashIgnoresOrder(roots: seq<Root>, p: Project, roots': seq<Root>, p': Project)
    requires SameRoots(roots, roots') && SameProject(p, p') && Coherent(p)
    ensures HashedText(Dependencies(roots, p)) == HashedText(Dependencies(roots', p'))
  {
    SamePairs(roots, p, roots', p');
    var ps, ps' := Pairs(Dependencies(roots, p)), Pairs(Dependencies(roots', p'));
    MapElements(Part, ps, ps');
    StringOrder();
    SortIgnoresOrder(StringLe, MapSeq(Part, ps), MapSeq(Part, ps'));
  }

  // ---------- exactly when the order does not matter ----------

  /** Equal digests mean equal contents, and so the same imports. */
  ghost predicate DigestsNameContents(p: Project) {
    forall m, n | Resolve(p, m).Some? && Resolve(p, n).Some? ::
      var d, e := Resolve(p, m).value, Resolve(p, n).value;
      d.digest == e.digest ==> SameContents(d, e)
  }

  /** Modules that share a file agree on its digest. */
  ghost predicate OneDigestPerFile(p: Project) {
    forall m, n | Resolve(p, m).Some? && Resolve(p, n).Some? ::
      Resolve(p, m).value.path == Resolve(p, n).value.path ==> Resolve(p, m).value.digest == Resolve(p, n).value.digest
  }

  /** The digested pairs are the same for every order of the roots and their import lines. */
  ghost predicate OrderFree(p: Project) {
    forall roots, roots' :: SameRoots(roots, roots') ==>
      multiset(Pairs(Dependencies(roots, p))) == multiset(Pairs(Dependencies(roots', p)))
  }

  lemma {:induction false} WalkExtends(p: Project, queue: seq<string>, seenModules: set<string>, seenPaths: set<string>,
                                       found: seq<Dependency>)
    ensures found <= Walk(p, queue, seenModules, seenPaths, found)
    decreases AllPaths(p) - seenPaths, |queue|
  {
    if queue != [] {
      var m := queue[0];
      var d := Resolve(p, m);
      ResolvedPath(p, m);
      if m in seenModules {
        WalkExtends(p, queue[1..], seenModules, seenPaths, found);
      } else if d.None? || d.value.path in seenPaths {
        WalkExtends(p, queue[1..], seenModules + {m}, seenPaths, found);
      } else {
        WalkExtends(p, queue[1..] + d.value.imports, seenModules + {m}, seenPaths + {d.value.path}, found + [d.value]);
      }
    }
  }

  lemma RootImportsOne(r: Root)
    ensures RootImports([r]) == r.imports && RootPaths([r]) == {r.path}
  {
    assert [r][1..] == [] && RootImports([]) == [];
  }

  /** The first import of a lone root decides which contents of its file are digested. */
  lemma FirstImportDecides(p: Project, m: string, n: string)
    requires Resolve(p, m).Some?
    ensures var d := Resolve(p, m).value;
      var pairs := Pairs(Dependencies([Root("", [m, n])], p));
      (d.path, d.digest) in pairs && forall digest :: digest != d.digest ==> (d.path, digest) !in pairs
  {
    var root := Root("", [m, n]);
    var d := Resolve(p, m).value;
    var ds := Dependencies([root], p);
    RootImportsOne(root);
    ResolvedPath(p, m);
    WalkExtends(p, [m, n][1..] + d.imports, {} + {m}, {""} + {d.path}, [] + [d]);
    assert ds[0] == d;
    assert Pairs(ds)[0] == (d.path, d.digest);
    DependenciesAreClosure([root], p);
    forall digest | (d.path, digest) in Pairs(ds)
      ensures digest == d.digest
    {
      var i :| 0 <= i < |ds| && Pairs(ds)[i] == (d.path, digest);
      assert PathSeq(ds)[0] == PathSeq(ds)[i];
    }
  }

  /** The digested pairs are free of order if and only if modules that share a file agree on its digest;
      otherwise swapping two import lines of a root changes them. */
  lemma OrderFreeIffOneDigestPerFile(p: Project)
    requires DigestsNameContents(p)
    ensures OrderFree(p) <==> OneDigestPerFile(p)
  {
    hide Resolve, Dependencies;
    if OneDigestPerFile(p) {
      assert Coherent(p);
      forall roots, roots' | SameRoots(roots, roots')
        ensures multiset(Pairs(Dependencies(roots, p))) == multiset(Pairs(Dependencies(roots', p)))
      {
        SamePairs(roots, p, roots', p);
      }
    } else {
      var m, n :| Resolve(p, m).Some? && Resolve(p, n).Some?
        && Resolve(p, m).value.path == Resolve(p, n).value.path
        && Resolve(p, m).value.digest != Resolve(p, n).value.digest;
      SwapChanges(p, m, n);
    }
  }

  lemma SwapChanges(p: Project, m: string, n: string)
    requires Resolve(p, m).Some? && Resolve(p, n).Some? && Resolve(p, m).value.path == Resolve(p, n).value.path
    requires Resolve(p, m).value.digest != Resolve(p, n).value.digest
    ensures !OrderFree(p)
  {
    var roots, roots' := [Root("", [m, n])], [Root("", [n, m])];
    RootImportsOne(roots[0]);
    RootImportsOne(roots'[0]);
    assert SameRoots(roots, roots');
    FirstImportDecides(p, m, n);
    FirstImportDecides(p, n, m);
    hide Resolve, Dependencies;
    var d := Resolve(p, m).value;
    var ps, ps' := Pairs(Dependencies(roots, p)), Pairs(Dependencies(roots', p));
    assert (d.path, d.digest) in multiset(ps) && (d.path, d.digest) !in multiset(ps');
  }

  // ---------- one project's own formalizations ----------

  /** Every formalization is the project's own, so it sees the project's newest row of each linked path. */
  ghost predicate OwnFormalizations(p: Project) {
    forall f, path :: (f, path) in p.linked ==> path in p.latest && p.linked[(f, path)] == p.latest[path]
  }

  ghost predicate Holds(p: Project, b: Blob) {
    exists path :: path in p.latest && p.latest[path].blob == Some(b)
  }

  /** Contents are stored once under each digest, ids are unique, and no id, digest or the mark of lost
      contents is taken for another. */
  ghost predicate OneBlobPerName(p: Project) {
    forall b, c :: Holds(p, b) && Holds(p, c) ==>
      && (b.id == c.id || b.sha256 == c.sha256 ==> b == c)
      && b.id != c.sha256 && b.id != LOST && b.sha256 != LOST
  }

  /** The row a module's file is read from, and how it is looked up. */
  function Source(p: Project, m: string): Option<(CodeRow, View)> {
    var a := Lookup(p.artifacts, m);
    if a.None? || a.value.path == "" then None else RowOf(p, a.value)
  }

  /** Modules that share a file, with contents, are looked up the same way. */
  ghost predicate OneViewPerFile(p: Project) {
    forall m, n | Resolve(p, m).Some? && Resolve(p, n).Some? ::
      Resolve(p, m).value.path == Resolve(p, n).value.path && Source(p, m).value.0.blob.Some? ==>
        Source(p, m).value.1 == Source(p, n).value.1
  }

  /** In the project's own view a file is one row, however it is looked up. */
  lemma OwnSource(p: Project, m: string)
    requires OwnFormalizations(p) && Resolve(p, m).Some?
    ensures Source(p, m).Some?
    ensures var d, (row, view) := Resolve(p, m).value, Source(p, m).value;
      && d.path in p.latest && row == p.latest[d.path]
      && d.digest == Read(row, view).digest && d.imports == Read(row, view).imports
      && (row.blob.Some? ==> Holds(p, row.blob.value))
  {
    hide Lookup;
  }

  /** The digest names the row's contents and how they were looked up. */
  lemma DigestsDiffer(p: Project, row: CodeRow, v: View, row': CodeRow, v': View)
    requires OneBlobPerName(p)
    requires (row.blob.Some? ==> Holds(p, row.blob.value)) && (row'.blob.Some? ==> Holds(p, row'.blob.value))
    ensures Read(row, v).digest == Read(row', v').digest <==> row == row' && (v == v' || row.blob.None?)
  {
    hide Holds;
  }

  lemma SameSourceIff(p: Project, m: string, n: string)
    requires OwnFormalizations(p) && OneBlobPerName(p) && Resolve(p, m).Some? && Resolve(p, n).Some?
    ensures var d, e, a, b := Resolve(p, m).value, Resolve(p, n).value, Source(p, m).value, Source(p, n).value;
      && (d.digest == e.digest ==> d.imports == e.imports)
      && (d.path == e.path ==> (d.digest == e.digest <==> a.1 == b.1 || a.0.blob.None?))
  {
    OwnSource(p, m);
    OwnSource(p, n);
    var a, b := Source(p, m).value, Source(p, n).value;
    hide Resolve, Source, OneBlobPerName, Holds;
    DigestsDiffer(p, a.0, a.1, b.0, b.1);
  }

  /** Among a project's own formalizations the digested pairs are free of order if and only if no two modules
      of one file are looked up differently, one among linked files and one by path; lost contents excepted. */
  lemma OrderFreeIffOneView(p: Project)
    requires OwnFormalizations(p) && OneBlobPerName(p)
    ensures OrderFree(p) <==> OneViewPerFile(p)
  {
    forall m, n | Resolve(p, m).Some? && Resolve(p, n).Some?
      ensures var d, e, a, b := Resolve(p, m).value, Resolve(p, n).value, Source(p, m).value, Source(p, n).value;
        && (d.digest == e.digest ==> SameContents(d, e))
        && (d.path == e.path ==> (d.digest == e.digest <==> a.1 == b.1 || a.0.blob.None?))
    {
      SameSourceIff(p, m, n);
    }
    hide Resolve, Source, OrderFree, OneBlobPerName, OwnFormalizations, SameContents;
    OrderFreeIffOneDigestPerFile(p);
  }

  /** When modules of one file are looked up alike, they share its contents, so the hash ignores the order. */
  lemma OneViewIsCoherent(p: Project)
    requires OwnFormalizations(p) && OneViewPerFile(p)
    ensures Coherent(p)
  {
    forall m, n | Resolve(p, m).Some? && Resolve(p, n).Some?
      && Resolve(p, m).value.path == Resolve(p, n).value.path
      ensures SameContents(Resolve(p, m).value, Resolve(p, n).value)
    {
      OwnSource(p, m);
      OwnSource(p, n);
      hide Resolve, Source;
    }
  }

  /** Two modules of one file, the first recorded by a formalization `f`, the second by `g`. */
  function Pair(f: string, g: string, latest: map<string, CodeRow>, linked: map<(string, string), CodeRow>): Project {
    Project([Artifact("A", "x.lean", f), Artifact("B", "x.lean", g)], latest, linked)
  }

  lemma PairLookup(f: string, g: string, latest: map<string, CodeRow>, linked: map<(string, string), CodeRow>,
                   m: string)
    ensures var p := Pair(f, g, latest, linked);
      Lookup(p.artifacts, m) ==
        if m == "A" then Some(p.artifacts[0]) else if m == "B" then Some(p.artifacts[1]) else None
  {
    var a, b := Artifact("A", "x.lean", f), Artifact("B", "x.lean", g);
    assert Front([a, b]) == [a] && Front([a]) == [];
    assert Lookup([a], m) == if m == "A" then Some(a) else None;
  }

  const NEW := CodeRow(Some(Blob("id of new", "sha of new", [])))

  /** One module is recorded by a formalization with the file linked, the other without a formalization. */
  const BACKFILLED := Pair("f", "", map["x.lean" := NEW], map[("f", "x.lean") := NEW])

  /** Both modules are recorded by formalizations, one of them of another project with an older row there. */
  const OUTSIDE := Pair("f", "g", map["x.lean" := NEW],
    map[("f", "x.lean") := CodeRow(Some(Blob("id of old", "sha of old", []))), ("g", "x.lean") := NEW])

  /** So inside one project the digested pairs can depend on the order of import lines. */
  lemma BackfilledDependsOnOrder()
    ensures OwnFormalizations(BACKFILLED) && OneBlobPerName(BACKFILLED) && !OrderFree(BACKFILLED)
  {
    var p := BACKFILLED;
    PairLookup("f", "", p.latest, p.linked, "A");
    PairLookup("f", "", p.latest, p.linked, "B");
    assert ("f", "x.lean") in p.linked && "x.lean" in p.latest;
    assert p.latest["x.lean"] == NEW;
    SwapChanges(p, "A", "B");
    hide OrderFree;
  }

  /** And so they can when all modules are looked up alike, through formalizations of two projects. */
  lemma OutsideViewDependsOnOrder()
    ensures !OwnFormalizations(OUTSIDE) && OneViewPerFile(OUTSIDE) && !OrderFree(OUTSIDE)
  {
    var p := OUTSIDE;
    PairLookup("f", "g", p.latest, p.linked, "A");
    PairLookup("f", "g", p.latest, p.linked, "B");
    assert ("f", "x.lean") in p.linked && ("g", "x.lean") in p.linked;
    SwapChanges(p, "A", "B");
    hide OrderFree;
    forall m
      ensures Source(p, m).Some? ==> Source(p, m).value.1 == Linked
    {
      PairLookup("f", "g", p.latest, p.linked, m);
    }
  }

  // ---------- the order of the artifacts ----------

  /** The declarations of one module live in one file and show the same step of it. */
  ghost predicate OneFilePerModule(p: Project) {
    forall a, b :: a in p.artifacts && b in p.artifacts && a.moduleName == b.moduleName && a.moduleName != "" ==>
      a.path == b.path && StepOf(p, a) == StepOf(p, b)
  }

  lemma {:induction false} LookupNamed(artifacts: seq<Artifact>, m: string)
    ensures Lookup(artifacts, m).Some? ==> Lookup(artifacts, m).value.moduleName == m && m != ""
    ensures Lookup(artifacts, m).None? ==> m == "" || forall a :: a in artifacts ==> a.moduleName != m
  {
    if artifacts != [] && m != "" && Last(artifacts).moduleName != m {
      LookupNamed(Front(artifacts), m);
      assert forall a :: a in artifacts <==> a in Front(artifacts) || a == Last(artifacts);
    }
  }

  /** Listing the artifacts in another order resolves every module to the same file. */
  lemma FileOrderDoesNotMatter(p: Project, artifacts: seq<Artifact>, m: string)
    requires OneFilePerModule(p) && forall a :: a in artifacts <==> a in p.artifacts
    ensures Resolve(p.(artifacts := artifacts), m) == Resolve(p, m)
  {
    LookupMember(p.artifacts, m);
    LookupMember(artifacts, m);
    LookupNamed(p.artifacts, m);
    LookupNamed(artifacts, m);
  }
}
