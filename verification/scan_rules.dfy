/** What the scanner says of each declaration line, and which text answers when a declaration is asked
    for by name. */
module ScanRules {
  import opened Text
  import opened LeanLexer
  import opened DeclarationScan

  // ---------- one declaration ----------

  lemma StackCons(kinds: seq<LineKind>, i: nat, stack: seq<Scope>)
    requires 0 < i <= |kinds|
    ensures StackAfter(kinds[..i], stack) == StackAfter(kinds[1..][..i - 1], PushPop(kinds[0], stack))
  {
    assert kinds[..i][0] == kinds[0] && kinds[..i][1..] == kinds[1..][..i - 1];
  }

  /** The declaration found is that of its line, in the scopes open there. */
  ghost predicate HitAt(f: Found, kinds: seq<LineKind>, at: nat, stack: seq<Scope>) {
    && at <= f.line < at + |kinds| && kinds[f.line - at].DeclLine?
    && [f] == Hit(kinds[f.line - at], f.line, StackAfter(kinds[..f.line - at], stack))
  }

  lemma HitLater(f: Found, kinds: seq<LineKind>, at: nat, stack: seq<Scope>)
    requires kinds != [] && HitAt(f, kinds[1..], at + 1, PushPop(kinds[0], stack))
    ensures HitAt(f, kinds, at, stack)
  {
    StackCons(kinds, f.line - at, stack);
    hide StackAfter, PushPop, Hit;
    assert kinds[1..][f.line - at - 1] == kinds[f.line - at];
  }

  lemma HitFirst(f: Found, kinds: seq<LineKind>, at: nat, stack: seq<Scope>)
    requires kinds != [] && Hit(kinds[0], at, stack) == [f]
    ensures HitAt(f, kinds, at, stack)
  {
    assert kinds[..0] == [];
    hide ShortName, Qualify, NamespacePath;
  }

  lemma {:induction false} FoundWithStack(kinds: seq<LineKind>, at: nat, stack: seq<Scope>, k: nat)
    requires k < |ScanFrom(kinds, at, stack)|
    ensures HitAt(ScanFrom(kinds, at, stack)[k], kinds, at, stack)
    decreases |kinds|
  {
    var hit := Hit(kinds[0], at, stack);
    var stack' := PushPop(kinds[0], stack);
    var rest := ScanFrom(kinds[1..], at + 1, stack');
    assert ScanFrom(kinds, at, stack) == hit + rest && |hit| <= 1;
    hide ScanFrom, Hit, HitAt, PushPop;
    if k < |hit| {
      assert hit == [hit[0]];
      HitFirst(hit[0], kinds, at, stack);
    } else {
      FoundWithStack(kinds[1..], at + 1, stack', k - |hit|);
      HitLater(rest[k - |hit|], kinds, at, stack);
    }
  }

  /** The line of the `k`-th declaration is a declaration line; its keyword and name are that line's, the full
      name stands in the namespaces open there, and only theorems and lemmas are not definitions. */
  lemma DeclaredAs(code: string, classify: string -> LineKind, k: nat)
    requires k < |Declarations(code, classify)|
    ensures var d, kinds := Declarations(code, classify)[k], KindsOf(code, classify);
      && 1 <= d.startLine <= |kinds| && kinds[d.startLine - 1].DeclLine?
      && var line, stack := kinds[d.startLine - 1], StackAfter(kinds[..d.startLine - 1], []);
         && d.keyword == line.keyword
         && d.shortName == AfterDots(line.name)
         && d.fullName == NameWithin(NamespacePath(stack), line.name)
         && d.kind == (if d.keyword == "theorem" || d.keyword == "lemma" then d.keyword else "definition")
  {
    var kinds := KindsOf(code, classify);
    FoundWithStack(kinds, 0, [], k);
    var f := FoundIn(code, classify)[k];
    var stack := StackAfter(kinds[..f.line], []);
    HitIsNamed(kinds[f.line].keyword, kinds[f.line].name, f.line, stack);
    hide ScanFrom, KindsOf, Hit, StackAfter, NamespacePath, AfterDots, NameWithin, Join;
  }

  // ---------- asking by name ----------

  /** Only the `k`-th declaration has this full name. */
  ghost predicate OnlyFull(ds: seq<Declaration>, k: int, name: string) {
    0 <= k < |ds| && forall j :: 0 <= j < |ds| ==> (ds[j].fullName == name <==> j == k)
  }

  ghost predicate OnlyShort(ds: seq<Declaration>, k: int, name: string) {
    0 <= k < |ds| && forall j :: 0 <= j < |ds| ==> (ds[j].shortName == name <==> j == k)
  }

  lemma {:induction false} FullOnes(ds: seq<Declaration>, name: string)
    ensures WithFullName(ds, name) == [] <==> forall j :: 0 <= j < |ds| ==> ds[j].fullName != name
    ensures forall k :: OnlyFull(ds, k, name) ==> WithFullName(ds, name) == [ds[k]]
    ensures |WithFullName(ds, name)| == 1 ==> exists k :: OnlyFull(ds, k, name)
  {
    if ds != [] {
      var rest := ds[1..];
      FullOnes(rest, name);
      assert forall j :: 0 < j < |ds| ==> ds[j] == rest[j - 1];
      if ds[0].fullName == name {
        if |WithFullName(ds, name)| == 1 {
          assert WithFullName(rest, name) == [];
          assert OnlyFull(ds, 0, name);
        }
      } else {
        assert forall k :: OnlyFull(ds, k, name) ==> OnlyFull(rest, k - 1, name);
        if |WithFullName(rest, name)| == 1 {
          var k :| OnlyFull(rest, k, name);
          assert OnlyFull(ds, k + 1, name);
        }
      }
    }
  }

  lemma {:induction false} ShortOnes(ds: seq<Declaration>, name: string)
    ensures forall k :: OnlyShort(ds, k, name) ==> WithShortName(ds, name) == [ds[k]]
    ensures WithShortName(ds, name) == [] <==> forall j :: 0 <= j < |ds| ==> ds[j].shortName != name
    ensures |WithShortName(ds, name)| == 1 ==> exists k :: OnlyShort(ds, k, name)
  {
    if ds != [] {
      var rest := ds[1..];
      ShortOnes(rest, name);
      assert forall j :: 0 < j < |ds| ==> ds[j] == rest[j - 1];
      if ds[0].shortName == name {
        if |WithShortName(ds, name)| == 1 {
          assert WithShortName(rest, name) == [];
          assert OnlyShort(ds, 0, name);
        }
      } else {
        assert forall k :: OnlyShort(ds, k, name) ==> OnlyShort(rest, k - 1, name);
        if |WithShortName(rest, name)| == 1 {
          var k :| OnlyShort(rest, k, name);
          assert OnlyShort(ds, k + 1, name);
        }
      }
    }
  }

  /** The only declaration with the full name answers by its own span; without any, the only one with the short
      name does; in every other case the whole file answers. */
  lemma AnswersFor(code: string, classify: string -> LineKind, name: string)
    ensures var ds := Declarations(code, classify);
      var none := forall j :: 0 <= j < |ds| ==> ds[j].fullName != name;
      && (forall k :: OnlyFull(ds, k, name) ==>
            (DeclarationContainsSorry(code, classify, name) <==> ContainsSorryMarker(ds[k].span)))
      && (forall k :: none && OnlyShort(ds, k, name) ==>
            (DeclarationContainsSorry(code, classify, name) <==> ContainsSorryMarker(ds[k].span)))
      && ((forall k :: !OnlyFull(ds, k, name) && !(none && OnlyShort(ds, k, name))) ==>
            (DeclarationContainsSorry(code, classify, name) <==> ContainsSorryMarker(code)))
  {
    var ds := Declarations(code, classify);
    FullOnes(ds, name);
    ShortOnes(ds, name);
    hide Declarations, ContainsSorryMarker, WithFullName, WithShortName, OnlyFull, OnlyShort;
  }
}
