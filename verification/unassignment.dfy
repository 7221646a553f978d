/** Removing a theorem from a project: the import reachability check, and what a clean verdict
    guarantees for the entries that stay.  Text matching is a parameter. */
module ProjectUnassignment {
  import opened Text

  type Imports = map<string, set<string>>

  function ImportsOf(imports: Imports, m: string): set<string> {
    if m in imports then imports[m] else {}
  }

  /** A walk through known modules: each one imported by the one before it. */
  ghost predicate Chain(imports: Imports, c: seq<string>) {
    c != [] && forall i :: 0 <= i < |c| - 1 ==> Follows(imports, c[i], c[i + 1])
  }

  predicate Follows(imports: Imports, m: string, n: string) {
    n in ImportsOf(imports, m) && n in imports
  }

  /** Some non-empty import chain from `m` through known modules ends in `n`. */
  ghost predicate Reaches(imports: Imports, m: string, n: string) {
    exists c :: Chain(imports, c) && c[0] == m && n in ImportsOf(imports, Last(c))
  }

  ghost predicate Visited(imports: Imports, m: string, n: string) {
    exists c :: Chain(imports, c) && c[0] == m && Last(c) == n
  }

  lemma VisitNext(imports: Imports, m: string, n: string, k: string)
    requires Visited(imports, m, n) && Follows(imports, n, k)
    ensures Visited(imports, m, k)
  {
    var c :| Chain(imports, c) && c[0] == m && Last(c) == n;
    var c' := c + [k];
    forall i | 0 <= i < |c'| - 1
      ensures Follows(imports, c'[i], c'[i + 1])
    {
      if i < |c| - 1 {
        assert Follows(imports, c[i], c[i + 1]);
      }
    }
    assert Chain(imports, c') && c'[0] == m && Last(c') == k;
  }

  /** A set that contains the start and is closed under known imports contains every chain. */
  lemma {:induction false} ClosedHoldsChain(imports: Imports, seen: set<string>, c: seq<string>)
    requires Chain(imports, c) && c[0] in seen
    requires forall m, n :: m in seen && Follows(imports, m, n) ==> n in seen
    ensures Last(c) in seen
    decreases |c|
  {
    if |c| > 1 {
      assert Follows(imports, c[0], c[0 + 1]);
      var rest := c[1..];
      forall i | 0 <= i < |rest| - 1
        ensures Follows(imports, rest[i], rest[i + 1])
      {
        assert Follows(imports, c[i + 1], c[i + 1 + 1]);
      }
      ClosedHoldsChain(imports, seen, rest);
    }
  }

  /** The imports to push, in some order. */
  method KnownImports(imports: Imports, m: string) returns (pushed: seq<string>)
    ensures forall n :: n in pushed <==> Follows(imports, m, n)
  {
    var rest := ImportsOf(imports, m);
    pushed := [];
    while rest != {}
      invariant rest <= ImportsOf(imports, m)
      invariant forall n :: n in pushed <==> Follows(imports, m, n) && n !in rest
      decreases |rest|
    {
      var n :| n in rest;
      rest := rest - {n};
      if n in imports {
        pushed := pushed + [n];
      }
    }
  }

  /** The stack walk; it stops on cyclic imports and is true exactly when the target is reached. */
  method ModuleImports(m: string, target: string, imports: Imports) returns (found: bool)
    ensures found <==> Reaches(imports, m, target)
  {
    var seen: set<string>, stack := {}, [m];
    ghost var universe := imports.Keys + {m};
    assert Visited(imports, m, m) by { assert Chain(imports, [m]) && Last([m]) == m; }
    while stack != []
      invariant m in seen || m in stack
      invariant forall n :: n in stack ==> n in universe && Visited(imports, m, n)
      invariant forall n :: n in seen ==> target !in ImportsOf(imports, n)
      invariant forall n, k :: n in seen && Follows(imports, n, k) ==> k in seen || k in stack
      decreases universe - seen, |stack|
    {
      var current := Last(stack);
      assert current in stack;
      ghost var below := Front(stack);
      assert forall n :: n in stack <==> n in below || n == current;
      stack := Front(stack);
      if current in seen {
        continue;
      }
      seen := seen + {current};
      if target in ImportsOf(imports, current) {
        return true;
      }
      var pushed := KnownImports(imports, current);
      forall n | n in pushed
        ensures Visited(imports, m, n)
      {
        VisitNext(imports, m, current, n);
      }
      stack := stack + pushed;
    }
    if Reaches(imports, m, target) {
      var c :| Chain(imports, c) && c[0] == m && target in ImportsOf(imports, Last(c));
      ClosedHoldsChain(imports, seen, c);
    }
    return false;
  }

  // ---------- the conflict check ----------

  /** A project entry.  `mentions` says which theorem names its text references. */
  datatype Entry = Entry(name: string, moduleName: Option<string>, imports: set<string>, mentions: set<string>)

  datatype Verdict =
    | Clear
    | UsedBy(dependents: seq<Entry>)
    | UsesOthers(used: seq<Entry>, projectImports: set<string>)

  /** The module map; a later entry with the same module wins. */
  function ImportMap(entries: seq<Entry>): Imports {
    if entries == [] then map[]
    else
      var rest := ImportMap(Front(entries));
      var e := Last(entries);
      if e.moduleName.Some? && e.moduleName.value != "" then rest[e.moduleName.value := e.imports] else rest
  }

  function Without(entries: seq<Entry>, name: string): seq<Entry> {
    if entries == [] then []
    else Without(Front(entries), name) + (if Last(entries).name != name then [Last(entries)] else [])
  }

  predicate HasModule(e: Entry) {
    e.moduleName.Some? && e.moduleName.value != ""
  }

  ghost predicate DependsOn(e: Entry, target: Entry, imports: Imports)
    requires HasModule(target)
  {
    (HasModule(e) && Reaches(imports, e.moduleName.value, target.moduleName.value)) || target.name in e.mentions
  }

  /** No other entry imports or mentions the target. */
  ghost predicate NoDependents(entries: seq<Entry>, target: Entry, imports: Imports)
    requires HasModule(target)
  {
    forall e :: e in Without(entries, target.name) ==> !DependsOn(e, target, imports)
  }

  predicate UsedByTarget(e: Entry, target: Entry) {
    (HasModule(e) && exists i | i in target.imports :: i == e.moduleName.value || e.moduleName.value + "." <= i)
    || e.name in target.mentions
  }

  /** What a clear verdict means: no other entry imports or mentions the target, and the target imports
      nothing of the project and mentions no other entry. */
  ghost predicate NoConflicts(entries: seq<Entry>, target: Entry, imports: Imports, projectPrefix: string) {
    && (HasModule(target) ==> NoDependents(entries, target, imports))
    && (forall e :: e in Without(entries, target.name) ==> !UsedByTarget(e, target))
    && (forall i :: i in target.imports ==> !(projectPrefix + "." <= i))
  }

  method DependencyConflicts(entries: seq<Entry>, target: Entry, imports: Imports, projectPrefix: string)
    returns (verdict: Verdict)
    ensures verdict.Clear? <==> NoConflicts(entries, target, imports, projectPrefix)
    ensures verdict.UsedBy? ==>
      && verdict.dependents != [] && HasModule(target)
      && (forall e :: e in verdict.dependents <==> e in Without(entries, target.name) && DependsOn(e, target, imports))
    ensures verdict.UsesOthers? ==>
      && (HasModule(target) ==> NoDependents(entries, target, imports))
      && (forall e :: e in verdict.used <==> e in Without(entries, target.name) && UsedByTarget(e, target))
      && verdict.projectImports == set i | i in target.imports && projectPrefix + "." <= i
  {
    var others := Without(entries, target.name);
    if HasModule(target) {
      var dependents := Dependents(others, target, imports);
      if dependents != [] {
        return UsedBy(dependents);
      }
    }
    var used: seq<Entry> := [];
    var i := 0;
    while i < |others|
      invariant i <= |others|
      invariant forall e :: e in used <==> e in others[..i] && UsedByTarget(e, target)
    {
      assert others[..i + 1] == others[..i] + [others[i]];
      if UsedByTarget(others[i], target) {
        used := used + [others[i]];
      }
      i := i + 1;
    }
    assert others[..i] == others;
    var projectImports := set m | m in target.imports && projectPrefix + "." <= m;
    assert used != [] ==> used[0] in used;
    assert forall m :: m in target.imports && projectPrefix + "." <= m ==> m in projectImports;
    assert forall e :: e in others && UsedByTarget(e, target) ==> e in used;
    if used != [] || projectImports != {} {
      assert projectImports != {} ==> exists m :: m in projectImports;
      return UsesOthers(used, projectImports);
    }
    return Clear;
  }

  /** An entry counts as used if the target imports its module or one below it, or mentions its theorem. */
  lemma UsedByTargetIff(e: Entry, target: Entry)
    ensures UsedByTarget(e, target) <==>
      || e.name in target.mentions
      || (HasModule(e) && ImportsAtOrBelow(target, e.moduleName.value))
  {
    if HasModule(e) {
      var m := e.moduleName.value;
      forall i: string
        ensures m + "." <= i <==> Below(m, i)
      {
        BelowIff(m, i);
      }
    }
  }

  ghost predicate ImportsAtOrBelow(e: Entry, m: string) {
    exists i :: i in e.imports && (i == m || Below(m, i))
  }

  ghost predicate Below(m: string, i: string) {
    exists rest: string :: i == m + "." + rest
  }

  lemma BelowIff(m: string, i: string)
    ensures m + "." <= i <==> Below(m, i)
  {
    if m + "." <= i {
      assert i == m + "." + i[|m| + 1..];
    }
  }

  method Dependents(others: seq<Entry>, target: Entry, imports: Imports) returns (dependents: seq<Entry>)
    requires HasModule(target)
    ensures forall e :: e in dependents <==> e in others && DependsOn(e, target, imports)
    ensures dependents == [] <==> forall e :: e in others ==> !DependsOn(e, target, imports)
  {
    dependents := [];
    var i := 0;
    while i < |others|
      invariant i <= |others|
      invariant forall e :: e in dependents <==> e in others[..i] && DependsOn(e, target, imports)
    {
      var e := others[i];
      assert others[..i + 1] == others[..i] + [e];
      var imported := false;
      if HasModule(e) {
        imported := ModuleImports(e.moduleName.value, target.moduleName.value, imports);
      }
      if imported || target.name in e.mentions {
        dependents := dependents + [e];
      }
      i := i + 1;
    }
    assert others[..i] == others;
    assert dependents != [] ==> dependents[0] in dependents;
    assert forall e :: e in others && DependsOn(e, target, imports) ==> e in dependents;
  }

  // ---------- what a clean verdict guarantees ----------

  ghost predicate UniqueNames(entries: seq<Entry>) {
    forall i, j :: 0 <= i < j < |entries| ==> entries[i].name != entries[j].name
  }

  lemma {:induction false} WithoutKeeps(entries: seq<Entry>, name: string)
    ensures forall e :: e in Without(entries, name) <==> e in entries && e.name != name
  {
    if entries != [] {
      WithoutKeeps(Front(entries), name);
      assert forall e :: e in entries <==> e in Front(entries) || e == Last(entries);
    }
  }

  ghost predicate SameAt(imports: Imports, imports': Imports, m: string) {
    (m in imports <==> m in imports') && (m in imports ==> imports[m] == imports'[m])
  }

  lemma ImportMapSnoc(entries: seq<Entry>, e: Entry, m: string)
    ensures if HasModule(e) && e.moduleName.value == m
      then m in ImportMap(entries + [e]) && ImportMap(entries + [e])[m] == e.imports
      else SameAt(ImportMap(entries + [e]), ImportMap(entries), m)
  {
    assert Front(entries + [e]) == entries;
  }

  /** Removing the target changes the module map at most at the target's module. */
  lemma {:induction false} RemovalIsLocal(entries: seq<Entry>, target: Entry, m: string)
    requires UniqueNames(entries) && target in entries
    requires HasModule(target) ==> m != target.moduleName.value
    ensures SameAt(ImportMap(Without(entries, target.name)), ImportMap(entries), m)
  {
    var front, last := Front(entries), Last(entries);
    assert entries == front + [last];
    ImportMapSnoc(front, last, m);
    hide ImportMap, UniqueNames;
    if last.name == target.name {
      NoneRemoved(front, target.name);
      assert Without(front, target.name) + [] == front;
    } else {
      RemovalIsLocal(front, target, m);
      ImportMapSnoc(Without(front, target.name), last, m);
    }
  }

  lemma {:induction false} NoneRemoved(entries: seq<Entry>, name: string)
    requires forall i :: 0 <= i < |entries| ==> entries[i].name != name
    ensures Without(entries, name) == entries
    decreases |entries|
  {
    if entries != [] {
      var front, last := Front(entries), Last(entries);
      NoneRemoved(front, name);
      assert Without(entries, name) == front + [last];
    }
  }

  /** A chain that never steps on `x` only uses the other modules' imports. */
  lemma ChainAvoids(imports: Imports, imports': Imports, x: string, c: seq<string>)
    requires Chain(imports, c) && x !in c
    requires SameBut(imports, imports', x)
    ensures Chain(imports', c)
  {
    forall i | 0 <= i < |c| - 1
      ensures Follows(imports', c[i], c[i + 1])
    {
      assert Follows(imports, c[i], c[i + 1]);
      assert c[i] in c && c[i + 1] in c;
      assert SameAt(imports, imports', c[i]) && SameAt(imports, imports', c[i + 1]);
    }
  }

  /** A chain that steps on `x` reaches it. */
  lemma SteppedIsReached(imports: Imports, m: string, x: string, c: seq<string>)
    requires Chain(imports, c) && c[0] == m && m != x && x in c
    ensures Reaches(imports, m, x)
  {
    var i :| 0 <= i < |c| && c[i] == x;
    var b := c[..i];
    assert Follows(imports, c[i - 1], c[i - 1 + 1]);
    forall j | 0 <= j < |b| - 1
      ensures Follows(imports, b[j], b[j + 1])
    {
      assert Follows(imports, c[j], c[j + 1]);
    }
    assert Chain(imports, b) && b[0] == m && x in ImportsOf(imports, Last(b));
  }

  /** Equal except at `x`. */
  ghost predicate SameBut(imports: Imports, imports': Imports, x: string) {
    forall k :: k != x ==> SameAt(imports, imports', k)
  }

  lemma SameButSymmetric(imports: Imports, imports': Imports, x: string)
    requires SameBut(imports, imports', x)
    ensures SameBut(imports', imports, x)
  {
    forall k | k != x
      ensures SameAt(imports', imports, k)
    {
      assert SameAt(imports, imports', k);
    }
  }

  lemma ReachesTransfers(imports: Imports, imports': Imports, x: string, m: string, n: string)
    requires m != x && !Reaches(imports, m, x) && Reaches(imports, m, n) && SameBut(imports, imports', x)
    ensures Reaches(imports', m, n)
  {
    var c :| Chain(imports, c) && c[0] == m && n in ImportsOf(imports, Last(c));
    if x in c {
      SteppedIsReached(imports, m, x, c);
    } else {
      ChainAvoids(imports, imports', x, c);
      assert Last(c) in c;
      assert SameAt(imports, imports', Last(c));
    }
  }

  /** Changing the imports of `x` alone creates no way to `x`. */
  lemma ReachedBefore(imports: Imports, imports': Imports, x: string, m: string)
    requires m != x && SameBut(imports, imports', x) && Reaches(imports', m, x)
    ensures Reaches(imports, m, x)
  {
    var c :| Chain(imports', c) && c[0] == m && x in ImportsOf(imports', Last(c));
    var i := FirstStep(imports', c, x);
    var b := c[..i + 1];
    forall j | 0 <= j < |b| - 1
      ensures Follows(imports', b[j], b[j + 1])
    {
      assert Follows(imports', c[j], c[j + 1]);
    }
    SameButSymmetric(imports, imports', x);
    ChainAvoids(imports', imports, x, b);
    assert Last(b) in b && Last(b) == c[i];
    assert SameAt(imports', imports, Last(b));
    assert Chain(imports, b) && b[0] == m && x in ImportsOf(imports, Last(b));
  }

  /** The last position before the chain first imports `x`. */
  lemma FirstStep(imports: Imports, c: seq<string>, x: string) returns (i: nat)
    requires Chain(imports, c) && c[0] != x && x in ImportsOf(imports, Last(c))
    ensures i < |c| && x in ImportsOf(imports, c[i]) && x !in c[..i + 1]
  {
    i := 0;
    while x !in ImportsOf(imports, c[i])
      invariant i < |c| && x !in c[..i + 1]
      decreases |c| - i
    {
      assert i + 1 < |c|;
      assert Follows(imports, c[i], c[i + 1]);
      assert c[..i + 2] == c[..i + 1] + [c[i + 1]];
      i := i + 1;
    }
  }

  lemma SameEverywhere(imports: Imports, imports': Imports, x: string)
    requires SameAt(imports', imports, x) && forall k :: k != x ==> SameAt(imports, imports', k)
    ensures imports == imports'
  {
    forall k
      ensures k in imports <==> k in imports'
      ensures k in imports ==> imports[k] == imports'[k]
    {
      assert k != x ==> SameAt(imports, imports', k);
    }
    assert imports.Keys == imports'.Keys;
  }

  /** A later entry has taken over the target's module in the module map. */
  ghost predicate Shadowed(entries: seq<Entry>, target: Entry) {
    exists i, j :: 0 <= i < j < |entries| && entries[i] == target && entries[j].moduleName == target.moduleName
  }

  lemma {:induction false} ShadowedRemoval(entries: seq<Entry>, target: Entry)
    requires UniqueNames(entries) && HasModule(target) && Shadowed(entries, target)
    ensures SameAt(ImportMap(Without(entries, target.name)), ImportMap(entries), target.moduleName.value)
  {
    var front, last := Front(entries), Last(entries);
    var x := target.moduleName.value;
    var i, j :| 0 <= i < j < |entries| && entries[i] == target && entries[j].moduleName == target.moduleName;
    assert last.name != target.name;
    assert entries == front + [last];
    ImportMapSnoc(front, last, x);
    ImportMapSnoc(Without(front, target.name), last, x);
    if j < |front| {
      assert front[i] == target && front[j] == entries[j];
      ShadowedRemoval(front, target);
    }
  }

  /** Without a later entry of its module, the target's imports are the module's. */
  lemma {:induction false} UnshadowedImports(entries: seq<Entry>, target: Entry)
    requires target in entries && HasModule(target) && !Shadowed(entries, target)
    ensures ImportsOf(ImportMap(entries), target.moduleName.value) == target.imports
    decreases |entries|
  {
    var front, last := Front(entries), Last(entries);
    var i :| 0 <= i < |entries| && entries[i] == target;
    assert entries == front + [last];
    ImportMapSnoc(front, last, target.moduleName.value);
    hide ImportMap;
    if last != target {
      assert front[i] == target && last.moduleName != target.moduleName;
      assert forall j, k :: 0 <= j < k < |front| ==> front[j] == entries[j] && front[k] == entries[k];
      UnshadowedImports(front, target);
    }
  }

  /** All entries of the project are in its namespace. */
  ghost predicate InNamespace(entries: seq<Entry>, projectPrefix: string) {
    forall e :: e in entries ==> HasModule(e) && projectPrefix + "." <= e.moduleName.value
  }

  lemma {:induction false} KnownModule(entries: seq<Entry>, projectPrefix: string, m: string)
    requires InNamespace(entries, projectPrefix) && m in ImportMap(entries)
    ensures projectPrefix + "." <= m
    decreases |entries|
  {
    var front, last := Front(entries), Last(entries);
    assert forall e :: e in front ==> e in entries;
    assert last in entries && entries == front + [last];
    ImportMapSnoc(front, last, m);
    if last.moduleName.value != m {
      KnownModule(front, projectPrefix, m);
    }
  }

  lemma MapsAgree(entries: seq<Entry>, target: Entry)
    requires UniqueNames(entries) && target in entries && HasModule(target)
    ensures SameBut(ImportMap(entries), ImportMap(Without(entries, target.name)), target.moduleName.value)
  {
    var before, after := ImportMap(entries), ImportMap(Without(entries, target.name));
    forall k | k != target.moduleName.value
      ensures SameAt(before, after, k)
    {
      RemovalIsLocal(entries, target, k);
    }
  }

  /** An entry in another module reaches what it reached. */
  lemma OtherModuleUnchanged(entries: seq<Entry>, target: Entry, e: Entry, n: string)
    requires UniqueNames(entries) && target in entries && HasModule(target)
    requires NoDependents(entries, target, ImportMap(entries))
    requires e in entries && e.name != target.name && HasModule(e) && e.moduleName != target.moduleName
    ensures Reaches(ImportMap(Without(entries, target.name)), e.moduleName.value, n)
       <==> Reaches(ImportMap(entries), e.moduleName.value, n)
  {
    var x, m := target.moduleName.value, e.moduleName.value;
    var before, after := ImportMap(entries), ImportMap(Without(entries, target.name));
    WithoutKeeps(entries, target.name);
    assert !DependsOn(e, target, before);
    MapsAgree(entries, target);
    SameButSymmetric(before, after, x);
    if Reaches(after, m, x) {
      ReachedBefore(before, after, x, m);
    }
    if Reaches(before, m, n) {
      ReachesTransfers(before, after, x, m, n);
    }
    if Reaches(after, m, n) {
      ReachesTransfers(after, before, x, m, n);
    }
  }

  /** A module whose imports are all unknown reaches just those. */
  lemma ReachesUnknown(imports: Imports, m: string, n: string)
    requires forall k :: k in ImportsOf(imports, m) ==> k !in imports
    ensures Reaches(imports, m, n) <==> n in ImportsOf(imports, m)
  {
    if n in ImportsOf(imports, m) {
      assert Chain(imports, [m]) && [m][0] == m && Last([m]) == m;
    }
    if Reaches(imports, m, n) {
      var c :| Chain(imports, c) && c[0] == m && n in ImportsOf(imports, Last(c));
      assert |c| > 1 ==> Follows(imports, c[0], c[0 + 1]);
    }
  }

  /** The same imports of a module are reached before and after. */
  ghost predicate Unchanged(before: Imports, after: Imports, m: string) {
    forall n :: Reaches(after, m, n) <==> Reaches(before, m, n)
  }

  /** If the target's module has other imports once the target is gone, what it reaches changes. */
  lemma SharedModuleChanges(entries: seq<Entry>, target: Entry, projectPrefix: string)
    requires UniqueNames(entries) && target in entries && InNamespace(entries, projectPrefix)
    requires NoConflicts(entries, target, ImportMap(entries), projectPrefix)
    requires ImportsOf(ImportMap(Without(entries, target.name)), target.moduleName.value)
      != ImportsOf(ImportMap(entries), target.moduleName.value)
    ensures !Unchanged(ImportMap(entries), ImportMap(Without(entries, target.name)), target.moduleName.value)
  {
    var x := target.moduleName.value;
    var before, after := ImportMap(entries), ImportMap(Without(entries, target.name));
    if Shadowed(entries, target) {
      ShadowedRemoval(entries, target);
    }
    UnshadowedImports(entries, target);
    WithoutKeeps(entries, target.name);
    forall n | n in target.imports
      ensures n !in before && n !in after
    {
      if n in before {
        KnownModule(entries, projectPrefix, n);
      }
      if n in after {
        KnownModule(Without(entries, target.name), projectPrefix, n);
      }
    }
    hide ImportMap, Without, InNamespace, NoConflicts, UniqueNames, Shadowed;
    ImportsShow(before, after, x);
  }

  lemma ImportsShow(before: Imports, after: Imports, x: string)
    requires forall n :: n in ImportsOf(before, x) ==> n !in before && n !in after
    requires ImportsOf(after, x) != ImportsOf(before, x)
    ensures !Unchanged(before, after, x)
  {
    forall n
      ensures Reaches(before, x, n) <==> n in ImportsOf(before, x)
    {
      ReachesUnknown(before, x, n);
    }
    forall n | n in ImportsOf(after, x)
      ensures Reaches(after, x, n)
    {
      assert Chain(after, [x]) && [x][0] == x && Last([x]) == x;
    }
    if Unchanged(before, after, x) {
      forall n
        ensures Reaches(after, x, n) <==> n in ImportsOf(after, x)
      {
        ReachesUnknown(after, x, n);
      }
    }
  }

  /** When the check is clear, removing the target leaves the transitive imports of an entry unchanged if and
      only if the entry is in another module, or the target's module has the same imports without it. */
  lemma RemovalIsInvisibleIff(entries: seq<Entry>, target: Entry, projectPrefix: string, e: Entry)
    requires UniqueNames(entries) && target in entries && InNamespace(entries, projectPrefix)
    requires NoConflicts(entries, target, ImportMap(entries), projectPrefix)
    requires e in entries && e.name != target.name
    ensures var before, after := ImportMap(entries), ImportMap(Without(entries, target.name));
      Unchanged(before, after, e.moduleName.value) <==>
        e.moduleName != target.moduleName
        || ImportsOf(after, target.moduleName.value) == ImportsOf(before, target.moduleName.value)
  {
    var x := target.moduleName.value;
    var before, after := ImportMap(entries), ImportMap(Without(entries, target.name));
    if e.moduleName != target.moduleName {
      forall n
        ensures Reaches(after, e.moduleName.value, n) <==> Reaches(before, e.moduleName.value, n)
      {
        OtherModuleUnchanged(entries, target, e, n);
      }
    } else if ImportsOf(after, x) == ImportsOf(before, x) {
      MapsAgree(entries, target);
      WithoutKeeps(entries, target.name);
      ModuleStays(entries, e);
      ModuleStays(Without(entries, target.name), e);
      SameEverywhere(before, after, x);
    } else {
      SharedModuleChanges(entries, target, projectPrefix);
    }
  }

  lemma {:induction false} ModuleStays(entries: seq<Entry>, e: Entry)
    requires e in entries && HasModule(e)
    ensures e.moduleName.value in ImportMap(entries)
    decreases |entries|
  {
    var front, last := Front(entries), Last(entries);
    assert entries == front + [last];
    ImportMapSnoc(front, last, e.moduleName.value);
    if last != e {
      assert e in front;
      ModuleStays(front, e);
    }
  }

  /** Two entries of one module; the later one has taken the module over. */
  const KEPT := Entry("a", Some("P.M"), {}, {})

  const TAKER := Entry("t", Some("P.M"), {"Mathlib"}, {})

  lemma TakenOver()
    ensures ImportMap([KEPT, TAKER]) == map["P.M" := {"Mathlib"}]
    ensures Without([KEPT, TAKER], "t") == [KEPT] && ImportMap([KEPT]) == map["P.M" := {}]
  {
    assert Front([KEPT, TAKER]) == [KEPT] && Front([KEPT]) == [];
    assert ImportMap([]) == map[] && Without([], "t") == [];
    assert Without([KEPT], "t") == [] + [KEPT] && [] + [KEPT] == [KEPT] && [KEPT] + [] == [KEPT];
  }

  lemma OutsidePrefix(prefix: string, s: string)
    requires prefix != "" && s != "" && prefix[0] != s[0]
    ensures !(prefix <= s)
  {
  }

  /** An entry that shares the target's module can lose imports although the verdict is clear. */
  lemma SharedModuleLosesImports()
    ensures UniqueNames([KEPT, TAKER]) && InNamespace([KEPT, TAKER], "P")
    ensures NoConflicts([KEPT, TAKER], TAKER, ImportMap([KEPT, TAKER]), "P")
    ensures Reaches(ImportMap([KEPT, TAKER]), "P.M", "Mathlib")
    ensures !Reaches(ImportMap(Without([KEPT, TAKER], "t")), "P.M", "Mathlib")
  {
    TakenOver();
    OutsidePrefix("P" + ".", "Mathlib");
    OutsidePrefix("P.M" + ".", "Mathlib");
    assert "P" + "." == "P.";
    hide Reaches, ImportMap, Without;
    var before: Imports, after: Imports := map["P.M" := {"Mathlib"}], map["P.M" := {}];
    assert "Mathlib" != "P.M" by { assert |"Mathlib"| != |"P.M"|; }
    ReachesUnknown(before, "P.M", "Mathlib");
    ReachesUnknown(before, "P.M", "P.M");
    ReachesUnknown(after, "P.M", "Mathlib");
  }
}
