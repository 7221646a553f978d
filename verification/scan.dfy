/** The declaration scanner: a scope stack over the scrubbed lines of a module, and the source
    spans it cuts.  The header regexes are the parameter `classify`. */
module DeclarationScan {
  import opened Text
  import opened LeanLexer

  datatype LineKind =
    | NamespaceLine(name: string)
    | SectionLine
    | MutualLine
    | EndLine
    | DeclLine(keyword: string, name: string)
    | OtherLine

  datatype Scope = NamespaceScope(name: string) | OtherScope

  datatype Found = Found(line: nat, keyword: string, shortName: string, fullName: string)

  datatype Declaration = Declaration(
    shortName: string, fullName: string, keyword: string, kind: string,
    startLine: nat, endLine: nat, span: string)

  /** The last dotted component. */
  function ShortName(name: string): string {
    Last(Split(name, '.'))
  }

  function NamespacePath(stack: seq<Scope>): seq<string> {
    if stack == [] then []
    else if stack[0].NamespaceScope? then [stack[0].name] + NamespacePath(stack[1..])
    else NamespacePath(stack[1..])
  }

  function Qualify(path: seq<string>, name: string): string {
    if '.' in name then name else Join(path + [name], ".")
  }

  function PushPop(kind: LineKind, stack: seq<Scope>): seq<Scope> {
    match kind
    case NamespaceLine(name) => stack + [NamespaceScope(name)]
    case SectionLine => stack + [OtherScope]
    case MutualLine => stack + [OtherScope]
    case EndLine => if stack == [] then stack else Front(stack)
    case _ => stack
  }

  function Hit(kind: LineKind, at: nat, stack: seq<Scope>): seq<Found> {
    if kind.DeclLine?
    then [Found(at, kind.keyword, ShortName(kind.name), Qualify(NamespacePath(stack), kind.name))]
    else []
  }

  function StackAfter(kinds: seq<LineKind>, stack: seq<Scope>): seq<Scope> {
    if kinds == [] then stack else StackAfter(kinds[1..], PushPop(kinds[0], stack))
  }

  function ScanFrom(kinds: seq<LineKind>, at: nat, stack: seq<Scope>): seq<Found> {
    if kinds == [] then []
    else Hit(kinds[0], at, stack) + ScanFrom(kinds[1..], at + 1, PushPop(kinds[0], stack))
  }

  function DeclarationKind(keyword: string): string {
    if keyword == "theorem" || keyword == "lemma" then keyword else "definition"
  }

  function NextStart(found: seq<Found>, k: nat, total: nat): nat
    requires k < |found|
  {
    if k + 1 < |found| then found[k + 1].line else total
  }

  function Describe(f: Found, next: nat, lines: seq<string>): Declaration {
    Declaration(f.shortName, f.fullName, f.keyword, DeclarationKind(f.keyword), f.line + 1,
                (if f.line > next - 1 then f.line else next - 1) + 1,
                if f.line <= next <= |lines| then Join(lines[f.line..next], "\n") else "")
  }

  function KindsOf(code: string, classify: string -> LineKind): (r: seq<LineKind>)
    ensures |r| == |Lines(Scrub(code))|
  {
    var ls := Lines(Scrub(code));
    seq(|ls|, i requires 0 <= i < |ls| => classify(ls[i]))
  }

  function FoundIn(code: string, classify: string -> LineKind): seq<Found> {
    ScanFrom(KindsOf(code, classify), 0, [])
  }

  function Declarations(code: string, classify: string -> LineKind): (r: seq<Declaration>)
    ensures |r| == |FoundIn(code, classify)|
  {
    var found := FoundIn(code, classify);
    seq(|found|, k requires 0 <= k < |found| => Describe(found[k], NextStart(found, k, |Lines(code)|), Lines(code)))
  }

  // ---------- the scanner's loops ----------

  method ScanLeanDeclarations(code: string, classify: string -> LineKind) returns (result: seq<Declaration>)
    ensures result == Declarations(code, classify)
  {
    ghost var kinds := KindsOf(code, classify);
    if code == "" {
      return [];
    }
    var originalLines := Lines(code);
    var scrubbed := ScrubLeanSource(code);
    var scrubbedLines := Lines(scrubbed);
    var scopeStack: seq<Scope>, found: seq<Found> := [], [];
    var index: nat := 0;
    assert Scanning(kinds, 0, scopeStack, found) by { assert kinds[0..] == kinds; }
    hide Qualify, NamespacePath, ShortName, Scrub, Lines;
    while index < |scrubbedLines|
      invariant index <= |scrubbedLines| == |kinds|
      invariant Scanning(kinds, index, scopeStack, found)
      decreases |scrubbedLines| - index
    {
      var kind := classify(scrubbedLines[index]);
      ScanningStep(kinds, index, scopeStack, found);
      hide Scanning, ScanFrom;
      match kind {
        case NamespaceLine(name) => scopeStack := scopeStack + [NamespaceScope(name)];
        case SectionLine => scopeStack := scopeStack + [OtherScope];
        case MutualLine => scopeStack := scopeStack + [OtherScope];
        case EndLine =>
          if scopeStack != [] {
            scopeStack := Front(scopeStack);
          }
        case DeclLine(keyword, name) =>
          var fullName := Qualify(NamespacePath(scopeStack), name);
          found := found + [Found(index, keyword, ShortName(name), fullName)];
        case OtherLine =>
      }
      index := index + 1;
    }
    assert found == FoundIn(code, classify);
    result := DescribeAll(found, originalLines);
  }

  ghost predicate Scanning(kinds: seq<LineKind>, index: nat, stack: seq<Scope>, found: seq<Found>) {
    index <= |kinds| && found + ScanFrom(kinds[index..], index, stack) == ScanFrom(kinds, 0, [])
  }

  lemma ScanningStep(kinds: seq<LineKind>, index: nat, stack: seq<Scope>, found: seq<Found>)
    requires index < |kinds| && Scanning(kinds, index, stack, found)
    ensures Scanning(kinds, index + 1, PushPop(kinds[index], stack), found + Hit(kinds[index], index, stack))
    ensures found + [] == found
  {
    var kind := kinds[index];
    assert kinds[index..] == [kind] + kinds[index + 1..];
    ScanCons(kind, kinds[index + 1..], index, stack);
    Assoc(found, Hit(kind, index, stack), ScanFrom(kinds[index + 1..], index + 1, PushPop(kind, stack)));
  }

  lemma ScanCons(kind: LineKind, rest: seq<LineKind>, at: nat, stack: seq<Scope>)
    ensures ScanFrom([kind] + rest, at, stack) == Hit(kind, at, stack) + ScanFrom(rest, at + 1, PushPop(kind, stack))
    ensures StackAfter([kind] + rest, stack) == StackAfter(rest, PushPop(kind, stack))
  {
    assert ([kind] + rest)[1..] == rest;
  }

  /** Cuts one span per declaration found. */
  method DescribeAll(found: seq<Found>, originalLines: seq<string>) returns (result: seq<Declaration>)
    ensures |result| == |found|
    ensures forall k :: 0 <= k < |found| ==>
      result[k] == Describe(found[k], NextStart(found, k, |originalLines|), originalLines)
  {
    result := [];
    var position := 0;
    while position < |found|
      invariant position <= |found| && |result| == position
      invariant forall k :: 0 <= k < position ==>
        result[k] == Describe(found[k], NextStart(found, k, |originalLines|), originalLines)
    {
      var nextStart := NextStart(found, position, |originalLines|);
      result := result + [Describe(found[position], nextStart, originalLines)];
      position := position + 1;
    }
  }

  // ---------- printed trees ----------

  datatype Opening = OpenNamespace(name: string) | OpenSection | OpenMutual

  /** A well-nested module body: a sequence of lines, declarations and closed scopes. */
  datatype Forest =
    | Empty
    | PlainThen(rest: Forest)
    | DeclThen(keyword: string, name: string, rest: Forest)
    | ScopeThen(open: Opening, inner: Forest, rest: Forest)

  function OpeningLine(o: Opening): LineKind {
    match o
    case OpenNamespace(name) => NamespaceLine(name)
    case OpenSection => SectionLine
    case OpenMutual => MutualLine
  }

  function Print(f: Forest): seq<LineKind> {
    match f
    case Empty => []
    case PlainThen(rest) => [OtherLine] + Print(rest)
    case DeclThen(keyword, name, rest) => [DeclLine(keyword, name)] + Print(rest)
    case ScopeThen(o, inner, rest) => [OpeningLine(o)] + Print(inner) + [EndLine] + Print(rest)
  }

  /** The namespaces in nesting order, each followed by a dot. */
  ghost function Prefix(path: seq<string>): string {
    if path == [] then "" else path[0] + "." + Prefix(path[1..])
  }

  /** A dotted name is complete; any other stands in the namespaces around it. */
  ghost function NameWithin(path: seq<string>, name: string): string {
    if '.' in name then name else Prefix(path) + name
  }

  /** What is left when every component with its dot is taken off the front. */
  ghost function AfterDots(name: string): string {
    if '.' in name then AfterDots(name[1..]) else name
  }

  /** The declarations of a tree in source order, each prefixed by the namespaces around it. */
  ghost function Flatten(f: Forest, at: nat, path: seq<string>): seq<Found> {
    match f
    case Empty => []
    case PlainThen(rest) => Flatten(rest, at + 1, path)
    case DeclThen(keyword, name, rest) =>
      [Found(at, keyword, AfterDots(name), NameWithin(path, name))] + Flatten(rest, at + 1, path)
    case ScopeThen(o, inner, rest) =>
      Flatten(inner, at + 1, if o.OpenNamespace? then path + [o.name] else path)
      + Flatten(rest, at + 2 + |Print(inner)|, path)
  }

  /** The full name: the namespaces around the declaration in nesting order, each followed by a dot, then the
      name; a dotted name is left as written. */
  lemma {:induction false} QualifyIsPrefix(path: seq<string>, name: string)
    ensures Qualify(path, name) == NameWithin(path, name)
  {
    if path == [] {
      assert path + [name] == [name];
      assert "" + name == name;
    } else {
      QualifyIsPrefix(path[1..], name);
      assert (path + [name])[1..] == path[1..] + [name];
      assert path[0] + "." + (Prefix(path[1..]) + name) == path[0] + "." + Prefix(path[1..]) + name;
    }
  }

  lemma {:induction false} DotsSplit(s: string)
    requires '.' in s
    ensures |Split(s, '.')| > 1
  {
    if s[0] != '.' {
      assert '.' in s[1..];
      DotsSplit(s[1..]);
    }
  }

  lemma {:induction false} ShortIsAfterDots(name: string)
    ensures ShortName(name) == AfterDots(name)
  {
    if '.' in name {
      var rest := name[1..];
      ShortIsAfterDots(rest);
      if '.' in rest {
        DotsSplit(rest);
      } else {
        SplitFree(rest, '.');
      }
    } else {
      SplitFree(name, '.');
    }
  }

  /** That is the end of the name behind its last dot. */
  lemma {:induction false} AfterLastDot(name: string)
    ensures '.' !in AfterDots(name)
    ensures if '.' in name then exists front :: name == front + "." + AfterDots(name) else AfterDots(name) == name
  {
    if '.' in name {
      var rest := name[1..];
      AfterLastDot(rest);
      assert name == [name[0]] + rest;
      if '.' in rest {
        var front :| rest == front + "." + AfterDots(rest);
        assert name == ([name[0]] + front) + "." + AfterDots(name);
      } else {
        assert name == "" + "." + AfterDots(name);
      }
    }
  }

  lemma NoHit(kind: LineKind, at: nat, stack: seq<Scope>)
    requires !kind.DeclLine?
    ensures Hit(kind, at, stack) == [] && forall found: seq<Found> :: [] + found == found
  {
  }

  lemma HitIsNamed(keyword: string, name: string, at: nat, stack: seq<Scope>)
    ensures Hit(DeclLine(keyword, name), at, stack)
      == [Found(at, keyword, AfterDots(name), NameWithin(NamespacePath(stack), name))]
  {
    QualifyIsPrefix(NamespacePath(stack), name);
    ShortIsAfterDots(name);
    hide Qualify, ShortName, AfterDots, NameWithin, NamespacePath;
  }

  lemma {:induction false} ScanAppend(a: seq<LineKind>, b: seq<LineKind>, at: nat, stack: seq<Scope>)
    ensures ScanFrom(a + b, at, stack) == ScanFrom(a, at, stack) + ScanFrom(b, at + |a|, StackAfter(a, stack))
    ensures StackAfter(a + b, stack) == StackAfter(b, StackAfter(a, stack))
    decreases |a|
  {
    hide Hit, PushPop;
    if a == [] {
      assert a + b == b;
    } else {
      var stack' := PushPop(a[0], stack);
      assert (a + b)[1..] == a[1..] + b;
      ScanAppend(a[1..], b, at + 1, stack');
      Assoc(Hit(a[0], at, stack), ScanFrom(a[1..], at + 1, stack'),
            ScanFrom(b, at + 1 + |a[1..]|, StackAfter(a[1..], stack')));
    }
  }

  lemma {:induction false} PathPush(stack: seq<Scope>, s: Scope)
    ensures NamespacePath(stack + [s]) ==
      if s.NamespaceScope? then NamespacePath(stack) + [s.name] else NamespacePath(stack)
  {
    if stack == [] {
      assert stack + [s] == [s] && [s][1..] == [];
      assert NamespacePath([]) == [];
    } else {
      assert (stack + [s])[1..] == stack[1..] + [s];
      PathPush(stack[1..], s);
    }
  }

  lemma ScanEnd(at: nat, stack: seq<Scope>)
    requires stack != []
    ensures ScanFrom([EndLine], at, stack) == [] && StackAfter([EndLine], stack) == Front(stack)
  {
    ScanCons(EndLine, [], at, stack);
    assert [EndLine] + [] == [EndLine];
  }

  /** The scanner inverts the printer on every well-nested tree, whatever scopes surround it. */
  lemma {:induction false} ScanInvertsPrint(f: Forest, at: nat, stack: seq<Scope>)
    ensures ScanFrom(Print(f), at, stack) == Flatten(f, at, NamespacePath(stack))
    ensures StackAfter(Print(f), stack) == stack
    decreases f, 1
  {
    hide NamespacePath, AfterDots, NameWithin, Hit;
    match f {
      case Empty =>
      case PlainThen(rest) =>
        ScanCons(OtherLine, Print(rest), at, stack);
        NoHit(OtherLine, at, stack);
        ScanInvertsPrint(rest, at + 1, stack);
      case DeclThen(keyword, name, rest) =>
        ScanCons(DeclLine(keyword, name), Print(rest), at, stack);
        HitIsNamed(keyword, name, at, stack);
        ScanInvertsPrint(rest, at + 1, stack);
      case ScopeThen(o, inner, rest) =>
        ScanScope(o, inner, at, stack);
        ScanInvertsPrint(rest, at + 2 + |Print(inner)|, stack);
        ScanAfterScope([OpeningLine(o)] + Print(inner) + [EndLine], Print(rest), at, stack);
    }
  }

  lemma ScanAfterScope(scope: seq<LineKind>, rest: seq<LineKind>, at: nat, stack: seq<Scope>)
    requires StackAfter(scope, stack) == stack
    ensures ScanFrom(scope + rest, at, stack) == ScanFrom(scope, at, stack) + ScanFrom(rest, at + |scope|, stack)
    ensures StackAfter(scope + rest, stack) == StackAfter(rest, stack)
  {
    ScanAppend(scope, rest, at, stack);
  }

  function Pushed(o: Opening): Scope {
    if o.OpenNamespace? then NamespaceScope(o.name) else OtherScope
  }

  lemma ScanOpened(o: Opening, rest: seq<LineKind>, at: nat, stack: seq<Scope>)
    ensures ScanFrom([OpeningLine(o)] + rest, at, stack) == ScanFrom(rest, at + 1, stack + [Pushed(o)])
    ensures StackAfter([OpeningLine(o)] + rest, stack) == StackAfter(rest, stack + [Pushed(o)])
  {
    ScanCons(OpeningLine(o), rest, at, stack);
    hide ScanFrom, StackAfter;
    var scanned := ScanFrom(rest, at + 1, stack + [Pushed(o)]);
    assert [] + scanned == scanned;
  }

  lemma ScanClosed(body: seq<LineKind>, at: nat, stack: seq<Scope>)
    requires stack != [] && StackAfter(body, stack) == stack
    ensures ScanFrom(body + [EndLine], at, stack) == ScanFrom(body, at, stack)
    ensures StackAfter(body + [EndLine], stack) == Front(stack)
  {
    ScanAppend(body, [EndLine], at, stack);
    ScanEnd(at + |body|, stack);
    hide ScanFrom, StackAfter;
    assert ScanFrom(body, at, stack) + [] == ScanFrom(body, at, stack);
  }

  lemma {:induction false} ScanScope(o: Opening, inner: Forest, at: nat, stack: seq<Scope>)
    ensures ScanFrom([OpeningLine(o)] + Print(inner) + [EndLine], at, stack) ==
      Flatten(inner, at + 1, if o.OpenNamespace? then NamespacePath(stack) + [o.name] else NamespacePath(stack))
    ensures StackAfter([OpeningLine(o)] + Print(inner) + [EndLine], stack) == stack
    decreases inner, 2
  {
    hide ScanFrom, StackAfter, NamespacePath, Flatten, Print;
    var inside := stack + [Pushed(o)];
    Assoc([OpeningLine(o)], Print(inner), [EndLine]);
    ScanOpened(o, Print(inner) + [EndLine], at, stack);
    ScanInvertsPrint(inner, at + 1, inside);
    ScanClosed(Print(inner), at + 1, inside);
    PathPush(stack, Pushed(o));
    assert Front(inside) == stack;
  }

  /** In a module whose lines print a tree, the declarations found are the tree's, in order and
      with the namespace path as prefix (dotted names are kept as written). */
  lemma ScanOfPrintedModule(code: string, classify: string -> LineKind, f: Forest)
    requires KindsOf(code, classify) == Print(f)
    ensures FoundIn(code, classify) == Flatten(f, 0, [])
  {
    ScanInvertsPrint(f, 0, []);
  }

  /** In particular: a plain name inside namespaces A and B, whatever scopes without a name lie between. */
  lemma NestedName(a: string, b: string, keyword: string, name: string, between: Opening)
    requires '.' !in name && !between.OpenNamespace?
    ensures var inB := ScopeThen(OpenNamespace(b), DeclThen(keyword, name, Empty), Empty);
      var tree := ScopeThen(OpenNamespace(a), ScopeThen(between, inB, Empty), Empty);
      ScanFrom(Print(tree), 0, []) == [Found(3, keyword, name, a + "." + b + "." + name)]
  {
    var inB := ScopeThen(OpenNamespace(b), DeclThen(keyword, name, Empty), Empty);
    var tree := ScopeThen(OpenNamespace(a), ScopeThen(between, inB, Empty), Empty);
    ScanInvertsPrint(tree, 0, []);
    assert [a] + [b] == [a, b];
    var found := Found(3, keyword, name, NameWithin([a, b], name));
    assert Flatten(DeclThen(keyword, name, Empty), 3, [a, b]) == [found];
    assert Flatten(inB, 2, [a]) == [found];
    assert Flatten(ScopeThen(between, inB, Empty), 1, [a]) == [found];
    assert [] + [a] == [a];
    assert Flatten(tree, 0, []) == [found];
    assert NamespacePath([]) == [];
    assert [a, b][1..] == [b] && [b][1..] == [];
    assert Prefix([b]) == b + "." && Prefix([a, b]) == a + "." + (b + ".");
    assert a + "." + (b + ".") + name == a + "." + b + "." + name;
  }

  /** An `end` with no open scope changes nothing. */
  lemma StrayEnd(rest: seq<LineKind>, at: nat)
    ensures ScanFrom([EndLine] + rest, at, []) == ScanFrom(rest, at + 1, [])
  {
    ScanCons(EndLine, rest, at, []);
    NoHit(EndLine, at, []);
  }

  // ---------- where declarations are found ----------

  ghost predicate Increasing(found: seq<Found>) {
    forall i, j :: 0 <= i < j < |found| ==> found[i].line < found[j].line
  }

  /** In increasing order, each a declaration line among those that start at `at`. */
  ghost predicate InOrder(found: seq<Found>, kinds: seq<LineKind>, at: nat) {
    && Increasing(found)
    && forall k :: 0 <= k < |found| ==> at <= found[k].line < at + |kinds| && kinds[found[k].line - at].DeclLine?
  }

  lemma InOrderLater(found: seq<Found>, kinds: seq<LineKind>, at: nat)
    requires kinds != [] && InOrder(found, kinds[1..], at + 1)
    ensures InOrder(found, kinds, at) && forall k :: 0 <= k < |found| ==> at < found[k].line
  {
    assert forall i :: 1 <= i < |kinds| ==> kinds[i] == kinds[1..][i - 1];
  }

  lemma InOrderCons(f: Found, found: seq<Found>, kinds: seq<LineKind>, at: nat)
    requires InOrder(found, kinds, at) && forall k :: 0 <= k < |found| ==> at < found[k].line
    requires kinds != [] && kinds[0].DeclLine? && f.line == at
    ensures InOrder([f] + found, kinds, at)
  {
    assert forall k :: 1 <= k < |[f] + found| ==> ([f] + found)[k] == found[k - 1];
  }

  lemma {:induction false} FoundInOrder(kinds: seq<LineKind>, at: nat, stack: seq<Scope>)
    ensures InOrder(ScanFrom(kinds, at, stack), kinds, at)
    decreases |kinds|
  {
    if kinds != [] {
      var rest := ScanFrom(kinds[1..], at + 1, PushPop(kinds[0], stack));
      FoundInOrder(kinds[1..], at + 1, PushPop(kinds[0], stack));
      InOrderLater(rest, kinds, at);
      hide InOrder, PushPop, Qualify, NamespacePath, ShortName;
      if kinds[0].DeclLine? {
        InOrderCons(Hit(kinds[0], at, stack)[0], rest, kinds, at);
      } else {
        assert [] + rest == rest;
      }
    }
  }

  ghost predicate FoundAt(found: seq<Found>, line: nat) {
    exists k :: 0 <= k < |found| && found[k].line == line
  }

  lemma {:induction false} AllFound(kinds: seq<LineKind>, at: nat, stack: seq<Scope>, i: nat)
    requires i < |kinds| && kinds[i].DeclLine?
    ensures FoundAt(ScanFrom(kinds, at, stack), at + i)
    decreases |kinds|
  {
    var hit := Hit(kinds[0], at, stack);
    var rest := ScanFrom(kinds[1..], at + 1, PushPop(kinds[0], stack));
    if i == 0 {
      assert hit[0].line == at && (hit + rest)[0] == hit[0];
    } else {
      AllFound(kinds[1..], at + 1, PushPop(kinds[0], stack), i - 1);
      var k :| 0 <= k < |rest| && rest[k].line == at + i;
      assert (hit + rest)[|hit| + k] == rest[k];
    }
  }

  /** Exactly the declaration lines are found, in order. */
  lemma FoundExactly(code: string, classify: string -> LineKind)
    ensures Increasing(FoundIn(code, classify))
    ensures forall i: nat :: FoundAt(FoundIn(code, classify), i) <==>
      i < |Lines(Scrub(code))| && classify(Lines(Scrub(code))[i]).DeclLine?
  {
    var kinds, ls := KindsOf(code, classify), Lines(Scrub(code));
    FoundInOrder(kinds, 0, []);
    forall i: nat
      ensures FoundAt(FoundIn(code, classify), i) <==> i < |ls| && classify(ls[i]).DeclLine?
    {
      if i < |ls| && classify(ls[i]).DeclLine? {
        AllFound(kinds, 0, [], i);
      }
    }
  }

  // ---------- scrubbing keeps the lines ----------

  ghost predicate SameNewlines(a: string, b: string) {
    |a| == |b| && forall i :: 0 <= i < |a| ==> (a[i] == '\n' <==> b[i] == '\n')
  }

  lemma {:induction false} SplitShape(a: string, b: string)
    requires SameNewlines(a, b)
    ensures |Split(a, '\n')| == |Split(b, '\n')|
    ensures forall k :: 0 <= k < |Split(a, '\n')| ==> |Split(a, '\n')[k]| == |Split(b, '\n')[k]|
  {
    if a != "" {
      assert SameNewlines(a[1..], b[1..]);
      SplitShape(a[1..], b[1..]);
      assert a[0] == '\n' <==> b[0] == '\n';
    }
  }

  lemma ScrubSplitShape(s: string)
    ensures |Split(Scrub(s), '\n')| == |Split(s, '\n')|
    ensures |Last(Split(Scrub(s), '\n'))| == |Last(Split(s, '\n'))|
  {
    assert SameNewlines(s, Scrub(s)) by { ScrubKeepsPositions(s, Code); }
    SplitShape(s, Scrub(s));
  }

  lemma ScrubLineCount(s: string)
    ensures |Lines(Scrub(s))| == |Lines(s)|
  {
    ScrubSplitShape(s);
  }

  /** The line number of `k` for `found[k]` and the line after its span. */
  function SpanBounds(code: string, classify: string -> LineKind, k: nat): (r: (nat, nat))
    requires k < |FoundIn(code, classify)|
  {
    var found := FoundIn(code, classify);
    (found[k].line, NextStart(found, k, |Lines(code)|))
  }

  lemma BoundsInOrder(code: string, classify: string -> LineKind, k: nat)
    requires k < |FoundIn(code, classify)|
    ensures var (s, e) := SpanBounds(code, classify, k); s < e <= |Lines(code)|
  {
    FoundInOrder(KindsOf(code, classify), 0, []);
    ScrubLineCount(code);
  }

  lemma DescribedAt(code: string, classify: string -> LineKind, k: nat)
    requires k < |Declarations(code, classify)|
    ensures var (s, e) := SpanBounds(code, classify, k);
      var d := Declarations(code, classify)[k];
      && s < e <= |Lines(code)|
      && d.startLine == s + 1 && d.endLine == e
      && d.span == Join(Lines(code)[s..e], "\n")
      && e == (if k + 1 < |Declarations(code, classify)| then Declarations(code, classify)[k + 1].startLine - 1
               else |Lines(code)|)
  {
    BoundsInOrder(code, classify, k);
  }

  /** Spans of whole lines, adjacent, not overlapping, reaching from the first declaration to the end. */
  ghost predicate Tiles(ds: seq<Declaration>, lines: seq<string>) {
    && (forall k :: 0 <= k < |ds| ==> 1 <= ds[k].startLine <= ds[k].endLine <= |lines|)
    && (forall k :: 0 <= k < |ds| ==> ds[k].span == Join(lines[ds[k].startLine - 1..ds[k].endLine], "\n"))
    && (forall k :: 0 <= k < |ds| - 1 ==> ds[k].endLine + 1 == ds[k + 1].startLine)
    && (ds != [] ==> Last(ds).endLine == |lines|)
  }

  /** The spans tile the file from the first declaration to the end, so joined they give it back. */
  lemma SpansTile(code: string, classify: string -> LineKind)
    ensures var ds := Declarations(code, classify);
      Tiles(ds, Lines(code)) && (ds != [] ==> (1 <= ds[0].startLine <= |Lines(code)| &&
        Join(SpansOf(ds), "\n") == Join(Lines(code)[ds[0].startLine - 1..], "\n")))
  {
    DeclarationsTile(code, classify);
    hide Declarations, Lines, Join, Tiles;
    if Declarations(code, classify) != [] {
      SpansJoin(Declarations(code, classify), Lines(code));
    }
  }

  lemma DeclarationsTile(code: string, classify: string -> LineKind)
    ensures Tiles(Declarations(code, classify), Lines(code))
  {
    var ds := Declarations(code, classify);
    var lines := Lines(code);
    hide Declarations, Lines, Join;
    forall k | 0 <= k < |ds|
      ensures 1 <= ds[k].startLine <= ds[k].endLine <= |lines|
      ensures ds[k].span == Join(lines[ds[k].startLine - 1..ds[k].endLine], "\n")
      ensures k < |ds| - 1 ==> ds[k].endLine + 1 == ds[k + 1].startLine
      ensures k == |ds| - 1 ==> ds[k].endLine == |lines|
    {
      DescribedAt(code, classify, k);
    }
  }

  function SpansOf(ds: seq<Declaration>): (r: seq<string>)
    ensures |r| == |ds|
  {
    seq(|ds|, k requires 0 <= k < |ds| => ds[k].span)
  }

  lemma SpansOfTail(ds: seq<Declaration>)
    requires ds != []
    ensures SpansOf(ds)[0] == ds[0].span && SpansOf(ds)[1..] == SpansOf(ds[1..])
  {
  }

  lemma SliceSplits(lines: seq<string>, s: nat, e: nat)
    requires s <= e <= |lines|
    ensures lines[s..] == lines[s..e] + lines[e..]
  {
  }

  lemma TilesTail(ds: seq<Declaration>, lines: seq<string>)
    requires |ds| > 1 && Tiles(ds, lines)
    ensures Tiles(ds[1..], lines)
    ensures 1 <= ds[0].startLine <= ds[0].endLine <= |lines| && ds[1].startLine == ds[0].endLine + 1
    ensures ds[0].span == Join(lines[ds[0].startLine - 1..ds[0].endLine], "\n")
  {
    hide Join;
    var rest := ds[1..];
    assert ds[0].endLine + 1 == ds[0 + 1].startLine;
    forall k | 0 <= k < |rest| - 1
      ensures rest[k].endLine + 1 == rest[k + 1].startLine
    {
      assert rest[k] == ds[k + 1] && rest[k + 1] == ds[k + 1 + 1];
    }
  }

  lemma {:induction false} SpansJoin(ds: seq<Declaration>, lines: seq<string>)
    requires ds != [] && Tiles(ds, lines)
    ensures 1 <= ds[0].startLine <= |lines|
    ensures Join(SpansOf(ds), "\n") == Join(lines[ds[0].startLine - 1..], "\n")
    decreases |ds|
  {
    var s, e := ds[0].startLine - 1, ds[0].endLine;
    if |ds| == 1 {
      assert lines[s..e] == lines[s..];
    } else {
      TilesTail(ds, lines);
      hide Tiles;
      SpansJoin(ds[1..], lines);
      SpansOfTail(ds);
      SliceSplits(lines, s, e);
      JoinAppend(lines[s..e], lines[e..], "\n");
    }
  }

  // ---------- sorry markers, span by span ----------

  /** The mode in which the lexer begins line `k`. */
  function LineMode(lines: seq<string>, k: nat): Mode
    requires k <= |lines|
  {
    if k == 0 then Code else ModeAfter(Join(lines[..k], "\n") + "\n", Code)
  }

  /** The lexer is outside comments and strings where line `k` begins. */
  predicate OutsideAt(lines: seq<string>, k: nat)
    requires k <= |lines|
  {
    LineMode(lines, k) == Code
  }

  ghost predicate NewlineFree(lines: seq<string>) {
    forall l :: l in lines ==> '\n' !in l
  }

  lemma NewlineFreeSlice(lines: seq<string>, s: nat, e: nat)
    requires NewlineFree(lines) && s <= e <= |lines|
    ensures NewlineFree(lines[s..e])
  {
    forall l | l in lines[s..e]
      ensures '\n' !in l
    {
      var i :| 0 <= i < |lines[s..e]| && lines[s..e][i] == l;
      assert lines[s + i] == l;
    }
  }

  /** The scrubbed lines of a block of lines that begins in a mode. */
  function ScrubbedFrom(lines: seq<string>, m: Mode): seq<string> {
    Split(ScrubFrom(Join(lines, "\n"), m), '\n')
  }

  function ScrubbedLines(lines: seq<string>): seq<string> {
    ScrubbedFrom(lines, Code)
  }

  lemma ScrubbedCount(lines: seq<string>, m: Mode)
    requires lines != [] && NewlineFree(lines)
    ensures |ScrubbedFrom(lines, m)| == |lines|
  {
    var s := Join(lines, "\n");
    assert SameNewlines(s, ScrubFrom(s, m)) by { ScrubKeepsPositions(s, m); }
    SplitShape(s, ScrubFrom(s, m));
    SplitJoin(lines, '\n');
  }

  lemma CutLines(lines: seq<string>, k: nat, m: Mode)
    requires NewlineFree(lines) && 0 < k < |lines|
    ensures |ScrubbedFrom(lines[..k], m)| == k
    ensures ScrubbedFrom(lines, m)
      == ScrubbedFrom(lines[..k], m) + ScrubbedFrom(lines[k..], ModeAfter(Join(lines[..k], "\n") + "\n", m))
  {
    var a, b := Join(lines[..k], "\n"), Join(lines[k..], "\n");
    var m' := ModeAfter(a + "\n", m);
    assert lines == lines[..k] + lines[k..];
    JoinAppend(lines[..k], lines[k..], "\n");
    ScrubCut(a, b, m);
    SplitAppend(ScrubFrom(a, m), '\n', ScrubFrom(b, m'));
    NewlineFreeSlice(lines, 0, k);
    assert lines[0..k] == lines[..k];
    ScrubbedCount(lines[..k], m);
  }

  lemma HeadLines(lines: seq<string>, k: nat, m: Mode)
    requires NewlineFree(lines) && 0 < k <= |lines|
    ensures |ScrubbedFrom(lines, m)| == |lines| && ScrubbedFrom(lines[..k], m) == ScrubbedFrom(lines, m)[..k]
  {
    ScrubbedCount(lines, m);
    if k < |lines| {
      CutLines(lines, k, m);
    } else {
      assert lines[..k] == lines;
    }
  }

  lemma TailLines(lines: seq<string>, k: nat)
    requires NewlineFree(lines) && k < |lines|
    ensures |ScrubbedLines(lines)| == |lines|
    ensures ScrubbedFrom(lines[k..], LineMode(lines, k)) == ScrubbedLines(lines)[k..]
  {
    ScrubbedCount(lines, Code);
    if k > 0 {
      CutLines(lines, k, Code);
    } else {
      assert lines[k..] == lines;
    }
  }

  /** A slice of the scrubbed lines is the slice of the lines, scrubbed in the mode it begins in. */
  lemma SliceScrubs(lines: seq<string>, s: nat, e: nat)
    requires NewlineFree(lines) && s < e <= |lines|
    ensures |ScrubbedLines(lines)| == |lines|
    ensures ScrubbedFrom(lines[s..e], LineMode(lines, s)) == ScrubbedLines(lines)[s..e]
  {
    TailLines(lines, s);
    var tail := lines[s..];
    NewlineFreeSlice(lines, s, |lines|);
    assert lines[s..|lines|] == tail;
    HeadLines(tail, e - s, LineMode(lines, s));
    hide ScrubbedLines, ScrubbedFrom, LineMode;
    assert tail[..e - s] == lines[s..e];
    assert ScrubbedLines(lines)[s..][..e - s] == ScrubbedLines(lines)[s..e];
  }

  lemma FirstLine(lines: seq<string>, m: Mode)
    requires NewlineFree(lines) && lines != []
    ensures ScrubbedFrom(lines, m) != [] && ScrubbedFrom(lines, m)[0] == ScrubFrom(lines[0], m)
  {
    HeadLines(lines, 1, m);
    assert lines[..1] == [lines[0]] && Join([lines[0]], "\n") == lines[0];
    assert lines[0] in lines;
    assert '\n' !in ScrubFrom(lines[0], m) by { ScrubKeepsPositions(lines[0], m); }
    SplitFree(ScrubFrom(lines[0], m), '\n');
    assert ScrubbedFrom(lines, m)[..1][0] == ScrubbedFrom(lines, m)[0];
  }

  lemma LineModeStarts(lines: seq<string>, k: nat)
    requires k <= |lines|
    ensures LineStart(LineMode(lines, k))
  {
    if k > 0 {
      ModeAfterLine(Join(lines[..k], "\n") + "\n", Code);
    }
  }

  /** A slice that begins on a line not scrubbed to spaces scrubs alone as it does in its place if and only if
      the lexer is outside comments and strings where it begins. */
  lemma ScrubsAloneIffOutside(lines: seq<string>, s: nat, e: nat)
    requires NewlineFree(lines) && s < e <= |lines|
    requires s < |ScrubbedLines(lines)| && !Spaces(ScrubbedLines(lines)[s])
    ensures |ScrubbedLines(lines)| == |lines|
    ensures ScrubbedLines(lines[s..e]) == ScrubbedLines(lines)[s..e] <==> OutsideAt(lines, s)
  {
    SliceScrubs(lines, s, e);
    var slice, m := lines[s..e], LineMode(lines, s);
    NewlineFreeSlice(lines, s, e);
    FirstLine(slice, m);
    FirstLine(slice, Code);
    LineModeStarts(lines, s);
    assert lines[s] in lines && slice[0] == lines[s];
    assert ScrubbedLines(lines)[s] == ScrubbedLines(lines)[s..e][0];
    hide ScrubbedFrom, LineMode, ScrubFrom, LineStart, Spaces;
    if ScrubbedLines(slice) == ScrubbedLines(lines)[s..e] && m != Code {
      ModesShow(lines[s], Code, m);
    }
  }

  ghost predicate SomeMarked(lines: seq<string>, s: nat, e: nat)
    requires s <= e <= |lines|
  {
    exists i :: s <= i < e && HasMarker(lines[i])
  }

  /** A text has a marker exactly when one of its lines has. */
  lemma {:induction false} MarkerByLine(lines: seq<string>)
    requires lines != []
    ensures HasMarker(Join(lines, "\n")) <==> SomeMarked(lines, 0, |lines|)
  {
    if |lines| > 1 {
      var rest := lines[1..];
      MarkerByLine(rest);
      MarkerSplitsAtNewline(lines[0], Join(rest, "\n"));
      if SomeMarked(rest, 0, |rest|) {
        var i :| 0 <= i < |rest| && HasMarker(rest[i]);
        assert HasMarker(lines[i + 1]);
      }
      if SomeMarked(lines, 0, |lines|) {
        var i :| 0 <= i < |lines| && HasMarker(lines[i]);
        if i > 0 {
          assert HasMarker(rest[i - 1]);
        }
      }
    } else {
      assert Join(lines, "\n") == lines[0];
    }
  }

  lemma ScrubbedMarker(lines: seq<string>)
    requires lines != [] && NewlineFree(lines)
    ensures ContainsSorryMarker(Join(lines, "\n")) <==> SomeMarked(ScrubbedLines(lines), 0, |ScrubbedLines(lines)|)
  {
    JoinSplit(Scrub(Join(lines, "\n")), '\n');
    MarkerByLine(ScrubbedLines(lines));
  }

  /** A final newline does not change the verdict. */
  lemma MarkerOfLines(code: string)
    ensures ContainsSorryMarker(code) <==> ContainsSorryMarker(Join(Lines(code), "\n"))
  {
    var parts := Split(code, '\n');
    JoinSplit(code, '\n');
    if Last(parts) == "" {
      assert parts == Front(parts) + [""];
      if Front(parts) == [] {
        assert code == "";
      } else {
        JoinAppend(Front(parts), [""], "\n");
        var body := Join(Lines(code), "\n");
        assert code == body + "\n" + "";
        ScrubBeforeNewline(body, Code);
        assert body + "\n" == code;
        MarkerSplitsAtNewline(Scrub(body), "");
        assert Scrub(body) + "\n" + "" == Scrub(code);
        EmptyHasNoMarker();
      }
    }
  }

  lemma EmptyHasNoMarker()
    ensures !HasMarker("") && !ContainsSorryMarker("")
  {
    assert |"sorry"| == 5 && |"admit"| == 5;
  }

  /** Every declaration starts outside comments and strings. */
  ghost predicate StartsOutside(code: string, ds: seq<Declaration>) {
    forall d :: d in ds ==> 1 <= d.startLine <= |Lines(code)| && OutsideAt(Lines(code), d.startLine - 1)
  }

  /** The lines before the first declaration. */
  function Preamble(code: string, ds: seq<Declaration>): string {
    if ds == [] || ds[0].startLine > |Lines(code)| + 1 || ds[0].startLine == 0 then Join(Lines(code), "\n")
    else Join(Lines(code)[..ds[0].startLine - 1], "\n")
  }

  lemma {:induction false} LinesOfScrub(code: string)
    requires code != ""
    ensures Lines(code) != [] && Lines(Scrub(code)) == ScrubbedLines(Lines(code))
  {
    var parts := Split(code, '\n');
    JoinSplit(code, '\n');
    ScrubSplitShape(code);
    if Last(parts) == "" {
      assert parts == Front(parts) + [""];
      JoinAppend(Front(parts), [""], "\n");
      var body := Join(Lines(code), "\n");
      assert code == body + "\n" + "" && body + "\n" + "" == body + "\n";
      ScrubBeforeNewline(body, Code);
      LinesTerminated(Scrub(body));
    }
  }

  /** Blank lines declare nothing. */
  ghost predicate NeverBlank(classify: string -> LineKind) {
    forall l :: Blank(l) ==> !classify(l).DeclLine?
  }

  lemma DeclarationLineShows(code: string, classify: string -> LineKind, k: nat)
    requires k < |Declarations(code, classify)| && NeverBlank(classify)
    ensures var (s, e) := SpanBounds(code, classify, k);
      s < e <= |Lines(code)| && s < |Lines(Scrub(code))| && !Spaces(Lines(Scrub(code))[s])
  {
    BoundsInOrder(code, classify, k);
    FoundExactly(code, classify);
    var (s, e) := SpanBounds(code, classify, k);
    assert FoundAt(FoundIn(code, classify), s);
    var l := Lines(Scrub(code))[s];
    assert Spaces(l) ==> Blank(l);
  }

  /** A declaration's span scrubs alone as it does in the file if and only if the lexer is outside comments
      and strings where the declaration's first line begins. */
  lemma SpanScrubsAloneIff(code: string, classify: string -> LineKind, k: nat)
    requires k < |Declarations(code, classify)| && NeverBlank(classify)
    ensures var (s, e) := SpanBounds(code, classify, k);
      && s < e <= |Lines(code)| == |Lines(Scrub(code))|
      && (Split(Scrub(Declarations(code, classify)[k].span), '\n') == Lines(Scrub(code))[s..e]
          <==> OutsideAt(Lines(code), s))
  {
    DescribedAt(code, classify, k);
    DeclarationLineShows(code, classify, k);
    ScrubLineCount(code);
    LinesFree(code);
    LinesOfScrub(code);
    var (s, e) := SpanBounds(code, classify, k);
    hide Declarations, SpanBounds, Lines, OutsideAt, Spaces;
    ScrubsAloneIffOutside(Lines(code), s, e);
  }

  /** A declaration that starts outside has a marker in its span exactly if its lines have one in the
      scrubbed file, wherever the others start. */
  lemma SpanMarked(code: string, classify: string -> LineKind, k: nat)
    requires k < |Declarations(code, classify)| && Declarations(code, classify)[k].startLine <= |Lines(code)|
    requires OutsideAt(Lines(code), Declarations(code, classify)[k].startLine - 1)
    ensures var (s, e) := SpanBounds(code, classify, k);
      && s < e <= |ScrubbedLines(Lines(code))|
      && (ContainsSorryMarker(Declarations(code, classify)[k].span) <==> SomeMarked(ScrubbedLines(Lines(code)), s, e))
  {
    var lines := Lines(code);
    var (s, e) := SpanBounds(code, classify, k);
    DescribedAt(code, classify, k);
    LinesFree(code);
    hide Declarations, SpanBounds, Lines, OutsideAt, SomeMarked, ContainsSorryMarker;
    SliceMarked(lines, s, e);
  }

  lemma SliceMarked(lines: seq<string>, s: nat, e: nat)
    requires NewlineFree(lines) && s < e <= |lines| && OutsideAt(lines, s)
    ensures |ScrubbedLines(lines)| == |lines|
    ensures ContainsSorryMarker(Join(lines[s..e], "\n")) <==> SomeMarked(ScrubbedLines(lines), s, e)
  {
    SliceScrubs(lines, s, e);
    NewlineFreeSlice(lines, s, e);
    ScrubbedMarker(lines[s..e]);
    MarkedSlice(ScrubbedLines(lines), s, e);
  }

  lemma MarkedSlice(lines: seq<string>, s: nat, e: nat)
    requires s <= e <= |lines|
    ensures SomeMarked(lines[s..e], 0, e - s) <==> SomeMarked(lines, s, e)
  {
    if SomeMarked(lines, s, e) {
      var i :| s <= i < e && HasMarker(lines[i]);
      assert HasMarker(lines[s..e][i - s]);
    }
  }

  /** Span `k` of the file has a marked line. */
  ghost predicate SpanHasMark(all: seq<string>, code: string, classify: string -> LineKind, k: nat) {
    k < |FoundIn(code, classify)| &&
    var (s, e) := SpanBounds(code, classify, k);
    s <= e <= |all| && SomeMarked(all, s, e)
  }

  lemma MarkedInSomeSpan(all: seq<string>, code: string, classify: string -> LineKind)
    requires FoundIn(code, classify) != [] && |all| == |Lines(code)|
    requires FoundIn(code, classify)[0].line <= |all|
    ensures SomeMarked(all, 0, |all|) <==>
      SomeMarked(all, 0, FoundIn(code, classify)[0].line) || exists k: nat :: SpanHasMark(all, code, classify, k)
  {
    var first := FoundIn(code, classify)[0].line;
    if SomeMarked(all, 0, |all|) && !SomeMarked(all, 0, first) {
      var i :| 0 <= i < |all| && HasMarker(all[i]);
      var k := CoveringSpan(code, classify, i);
      BoundsInOrder(code, classify, k);
      assert SpanHasMark(all, code, classify, k);
    }
  }

  lemma SpansMarked(code: string, classify: string -> LineKind)
    requires StartsOutside(code, Declarations(code, classify))
    ensures (exists d :: d in Declarations(code, classify) && ContainsSorryMarker(d.span)) <==>
      exists k: nat :: SpanHasMark(ScrubbedLines(Lines(code)), code, classify, k)
  {
    var ds := Declarations(code, classify);
    var all := ScrubbedLines(Lines(code));
    hide Lines, ScrubbedLines, ContainsSorryMarker, OutsideAt, SomeMarked, FoundIn, Declarations, SpanBounds;
    if d :| d in ds && ContainsSorryMarker(d.span) {
      var k: nat :| k < |ds| && ds[k] == d;
      SpanMarked(code, classify, k);
      assert SpanHasMark(all, code, classify, k);
    }
    if k: nat :| SpanHasMark(all, code, classify, k) {
      SpanMarked(code, classify, k);
      assert ds[k] in ds;
    }
  }

  /** If every declaration starts outside comments and strings, the file has a marker exactly
      when its preamble or some declaration's span has one. */
  lemma SorryIsLocal(code: string, classify: string -> LineKind)
    requires StartsOutside(code, Declarations(code, classify))
    ensures var ds := Declarations(code, classify);
      ContainsSorryMarker(code) <==>
        ContainsSorryMarker(Preamble(code, ds)) || exists d :: d in ds && ContainsSorryMarker(d.span)
  {
    var ds := Declarations(code, classify);
    MarkerOfLines(code);
    if ds != [] {
      SorryIsLocalFrom(code, classify);
    }
  }

  lemma SorryIsLocalFrom(code: string, classify: string -> LineKind)
    requires StartsOutside(code, Declarations(code, classify)) && Declarations(code, classify) != []
    ensures var ds := Declarations(code, classify);
      ContainsSorryMarker(Join(Lines(code), "\n")) <==>
        ContainsSorryMarker(Preamble(code, ds)) || exists d :: d in ds && ContainsSorryMarker(d.span)
  {
    var ds := Declarations(code, classify);
    var lines := Lines(code);
    var first := FoundIn(code, classify)[0].line;
    LinesFree(code);
    FirstStarts(code, classify);
    ScrubbedCount(lines, Code);
    hide Declarations, FoundIn, SpanBounds, Lines, Join, ScrubbedLines, HasMarker, ContainsSorryMarker, OutsideAt,
         Preamble;
    ScrubbedMarker(lines);
    PreambleMarked(lines, first);
    MarkedInSomeSpan(ScrubbedLines(lines), code, classify);
    SpansMarked(code, classify);
  }

  lemma FirstStarts(code: string, classify: string -> LineKind)
    requires Declarations(code, classify) != []
    ensures var first := FoundIn(code, classify)[0].line;
      && first < |Lines(code)| && Preamble(code, Declarations(code, classify)) == Join(Lines(code)[..first], "\n")
  {
    var ds := Declarations(code, classify);
    hide Declarations, FoundIn, Lines, Join;
    DescribedAt(code, classify, 0);
  }

  lemma PreambleMarked(lines: seq<string>, first: nat)
    requires NewlineFree(lines) && first < |lines| == |ScrubbedLines(lines)|
    ensures ContainsSorryMarker(Join(lines[..first], "\n")) <==> SomeMarked(ScrubbedLines(lines), 0, first)
  {
    if first == 0 {
      assert Join(lines[..0], "\n") == "";
      EmptyHasNoMarker();
    } else {
      SliceMarked(lines, 0, first);
      assert lines[0..first] == lines[..first];
    }
  }

  /** Every line from the first declaration on belongs to a span. */
  lemma CoveringSpan(code: string, classify: string -> LineKind, i: nat) returns (k: nat)
    requires FoundIn(code, classify) != []
    requires FoundIn(code, classify)[0].line <= i < |Lines(code)|
    ensures k < |FoundIn(code, classify)|
    ensures SpanBounds(code, classify, k).0 <= i < SpanBounds(code, classify, k).1
  {
    var found := FoundIn(code, classify);
    k := 0;
    while k + 1 < |found| && found[k + 1].line <= i
      invariant k < |found| && found[k].line <= i
    {
      k := k + 1;
    }
  }

  // ---------- a declaration that starts inside a string ----------

  lemma TwoLines(a: string, b: string)
    requires '\n' !in a && '\n' !in b && b != ""
    ensures Lines(a + "\n" + b) == [a, b]
  {
    SplitAppend(a, '\n', b);
    SplitFree(a, '\n');
    SplitFree(b, '\n');
  }

  /** Inside a string, text without quotes and backslashes is blanked. */
  lemma {:induction false} StringBlanked(w: string)
    requires '"' !in w && '\\' !in w && '\n' !in w
    ensures forall i :: 0 <= i < |w| ==> ScrubFrom(w, StringLit)[i] == ' '
  {
    if w != "" {
      assert w[0] in w;
      StringBlanked(w[1..]);
    }
  }

  lemma BlankHasNoMarker(s: string)
    requires forall i :: 0 <= i < |s| ==> s[i] == ' '
    ensures !HasMarker(s)
  {
    forall i: nat
      ensures !WordAt(s, i, "sorry") && !WordAt(s, i, "admit")
    {
      assert i + 5 <= |s| ==> s[i..i + 5][0] == ' ';
    }
  }

  const QUOTE: string := "\""

  /** One character of a string literal, its opening and closing quotes included. */
  lemma ScrubOne(c: char, s: string, m: Mode)
    requires (c == '"' && (m == Code || m == StringLit)) || (c == '\n' && m == StringLit)
    ensures ScrubFrom([c] + s, m)
      == [if c == '"' then ' ' else c] + ScrubFrom(s, if c == '\n' then m else if m == Code then StringLit else Code)
  {
    assert ([c] + s)[0] == c && ([c] + s)[1..] == s;
  }

  /** A file whose first line opens a string that its second line closes. */
  function QuotedStart(w: string): string {
    QUOTE + "\n" + (QUOTE + w)
  }

  lemma QuotedStartScrubs(w: string)
    requires Plain(w)
    ensures Scrub(QuotedStart(w)) == " " + "\n" + (" " + w)
  {
    hide ScrubFrom;
    Assoc(QUOTE, "\n", QUOTE + w);
    ScrubOne('"', "\n" + (QUOTE + w), Code);
    ScrubOne('\n', QUOTE + w, StringLit);
    ScrubOne('"', w, StringLit);
    PlainIsFixed(w);
    Assoc(" ", "\n", " " + w);
  }

  lemma QuotedSpanIsBlank(w: string)
    requires '"' !in w && '\\' !in w && '\n' !in w
    ensures !ContainsSorryMarker(QUOTE + w)
  {
    ScrubOne('"', w, Code);
    StringBlanked(w);
    hide ScrubFrom;
    BlankHasNoMarker(Scrub(QUOTE + w));
  }

  lemma QuotedStartIsFound(w: string, classify: string -> LineKind)
    requires Plain(w) && '\n' !in w && w != "" && classify(" ").OtherLine? && classify(" " + w).DeclLine?
    ensures Lines(QuotedStart(w)) == [QUOTE, QUOTE + w]
    ensures |FoundIn(QuotedStart(w), classify)| == 1 && FoundIn(QuotedStart(w), classify)[0].line == 1
  {
    TwoLines(QUOTE, QUOTE + w);
    TwoLines(" ", " " + w);
    QuotedStartScrubs(w);
    hide Scrub, Lines;
    var kinds := KindsOf(QuotedStart(w), classify);
    assert kinds == [classify(" "), classify(" " + w)];
    assert kinds[1..] == [kinds[1]] && kinds[1..][1..] == [];
    assert Hit(kinds[0], 0, []) == [];
    assert ScanFrom(kinds[1..], 1, PushPop(kinds[0], [])) == Hit(kinds[1], 1, PushPop(kinds[0], []));
  }

  lemma OneDeclaration(code: string, classify: string -> LineKind, a: string, b: string)
    requires Lines(code) == [a, b] && |FoundIn(code, classify)| == 1 && FoundIn(code, classify)[0].line == 1
    ensures var ds := Declarations(code, classify);
      |ds| == 1 && ds[0].span == b && ds[0].startLine == 2 && Preamble(code, ds) == a
  {
    assert Lines(code)[1..2] == [b] && Lines(code)[..1] == [a];
  }

  /** Why the condition is needed: a declaration whose line begins by closing a string is listed, but its
      span alone reads as an open string, so the marker the file has shows up in no span. */
  lemma QuotedStartHidesMarker(w: string, classify: string -> LineKind)
    requires Plain(w) && '\\' !in w && '\n' !in w && HasMarker(" " + w)
    requires classify(" ").OtherLine? && classify(" " + w).DeclLine?
    ensures var ds := Declarations(QuotedStart(w), classify);
      && |ds| == 1 && ContainsSorryMarker(QuotedStart(w))
      && !ContainsSorryMarker(Preamble(QuotedStart(w), ds)) && !ContainsSorryMarker(ds[0].span)
  {
    var code := QuotedStart(w);
    QuotedStartScrubs(w);
    MarkerSplitsAtNewline(" ", " " + w);
    BlankHasNoMarker(" ");
    assert w != "";
    QuotedStartIsFound(w, classify);
    OneDeclaration(code, classify, QUOTE, QUOTE + w);
    assert '"' !in w;
    QuotedSpanIsBlank(w);
    assert QUOTE + "" == QUOTE;
    QuotedSpanIsBlank("");
  }

  // ---------- declaration_contains_sorry ----------

  function WithFullName(ds: seq<Declaration>, name: string): seq<Declaration> {
    if ds == [] then []
    else (if ds[0].fullName == name then [ds[0]] else []) + WithFullName(ds[1..], name)
  }

  function WithShortName(ds: seq<Declaration>, name: string): seq<Declaration> {
    if ds == [] then []
    else (if ds[0].shortName == name then [ds[0]] else []) + WithShortName(ds[1..], name)
  }

  ghost predicate DeclarationContainsSorry(code: string, classify: string -> LineKind, name: string) {
    var ds := Declarations(code, classify);
    var exact := WithFullName(ds, name);
    var candidates := if exact != [] then exact else WithShortName(ds, name);
    if |candidates| == 1 then ContainsSorryMarker(candidates[0].span) else ContainsSorryMarker(code)
  }

  lemma {:induction false} WithFullNameExact(ds: seq<Declaration>, name: string)
    ensures forall d :: d in WithFullName(ds, name) <==> d in ds && d.fullName == name
  {
    if ds != [] {
      WithFullNameExact(ds[1..], name);
      assert forall d :: d in ds <==> d == ds[0] || d in ds[1..];
    }
  }

  /** If a marker in its span is one in the file, a declaration with one reports one, and reports none
      in a clean file. */
  lemma DeclarationReports(code: string, classify: string -> LineKind, d: Declaration)
    requires d in Declarations(code, classify) && (ContainsSorryMarker(d.span) ==> ContainsSorryMarker(code))
    ensures ContainsSorryMarker(d.span) ==> DeclarationContainsSorry(code, classify, d.fullName)
    ensures DeclarationContainsSorry(code, classify, d.fullName) ==> ContainsSorryMarker(code)
  {
    var exact := WithFullName(Declarations(code, classify), d.fullName);
    WithFullNameExact(Declarations(code, classify), d.fullName);
    hide ContainsSorryMarker, Declarations, WithFullName, WithShortName;
    assert d in exact;
    if |exact| == 1 {
      assert exact == [exact[0]] && exact[0] == d;
    }
  }

  /** Asking about every declaration and the preamble answers for the whole file: the file is
      free of markers exactly when the preamble is and no declaration reports one. */
  lemma FileIsCleanIffDeclarationsAre(code: string, classify: string -> LineKind)
    requires StartsOutside(code, Declarations(code, classify))
    ensures var ds := Declarations(code, classify);
      !ContainsSorryMarker(code) <==>
        !ContainsSorryMarker(Preamble(code, ds))
        && forall d :: d in ds ==> !DeclarationContainsSorry(code, classify, d.fullName)
  {
    var ds := Declarations(code, classify);
    SorryIsLocal(code, classify);
    hide Declarations, StartsOutside, Preamble, ContainsSorryMarker, DeclarationContainsSorry;
    forall d | d in ds
      ensures ContainsSorryMarker(d.span) ==> DeclarationContainsSorry(code, classify, d.fullName)
      ensures DeclarationContainsSorry(code, classify, d.fullName) ==> ContainsSorryMarker(code)
    {
      DeclarationReports(code, classify, d);
    }
  }
}
